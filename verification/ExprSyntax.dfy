/** The reference side of the expression language of src/eval.cc: tokens, concrete syntax
    trees over C precedence (section 6.5 of ISO/IEC 9899:2011 without shifts), and the
    abstract tree each syntax tree stands for. Nothing here knows about the PEG parser. */
module ExprSyntax {
  import opened Text


  /** expr::Operator, without None (which marks leaves). */
  datatype Operator =
    | UAdd | UMinus | Not | Invert
    | Multiply | Divide | Mod | Add | Minus
    | LT | GT | LE | GE | Eq | Neq
    | BAnd | Xor | BOr | And | Or

  predicate IsUnary(op: Operator) {
    op.UAdd? || op.UMinus? || op.Not? || op.Invert?
  }

  /** Binding strength of a binary operator: 1 binds tightest; unary operators are level 0. */
  function Precedence(op: Operator): (k: nat)
    ensures k <= 9 && (k == 0 <==> IsUnary(op))
  {
    match op
    case UAdd => 0 case UMinus => 0 case Not => 0 case Invert => 0
    case Multiply => 1 case Divide => 1 case Mod => 1
    case Add => 2 case Minus => 2
    case LT => 3 case GT => 3 case LE => 3 case GE => 3
    case Eq => 4 case Neq => 4
    case BAnd => 5 case Xor => 6 case BOr => 7
    case And => 8 case Or => 9
  }

  /** Abstract expression tree. */
  datatype Ast =
    | Const(value: int)
    | Sym(name: string)
    | Un(uop: Operator, arg: Ast)
    | Bin(bop: Operator, left: Ast, right: Ast)

  datatype Punct =
    | LParen | RParen | Star | Slash | Percent | Plus | Dash
    | Less | Greater | LessEq | GreaterEq | EqEq | NotEq
    | Bang | Tilde | Amp | Caret | Bar | AmpAmp | BarBar

  datatype Token =
    | Int(text: string)
    | Hex(text: string)
    | Name(text: string)
    | P(punct: Punct)
    | Bad(c: char)

  /** The binary operator a punctuator denotes between two operands (a unary one if none). */
  function Infix(p: Punct): Operator {
    match p
    case Star => Multiply case Slash => Divide case Percent => Mod
    case Plus => Add case Dash => Minus
    case Less => LT case Greater => GT case LessEq => LE case GreaterEq => GE
    case EqEq => Eq case NotEq => Neq
    case Amp => BAnd case Caret => Xor case Bar => BOr
    case AmpAmp => And case BarBar => Or
    case _ => Not
  }

  function InfixLevel(p: Punct): nat {
    Precedence(Infix(p))
  }

  predicate IsPrefix(p: Punct) {
    p.Bang? || p.Tilde? || p.Plus? || p.Dash?
  }

  /** The operator a punctuator denotes in front of an operand. */
  function Prefix(p: Punct): (op: Operator)
    requires IsPrefix(p)
    ensures IsUnary(op)
  {
    match p
    case Bang => Not
    case Tilde => Invert
    case Plus => UAdd
    case Dash => UMinus
  }

  /** Concrete syntax: every bracket is there, white space is not. */
  datatype Syntax =
    | Leaf(token: Token)
    | Group(inner: Syntax)
    | Pre(p: Punct, arg: Syntax)
    | Inf(p: Punct, left: Syntax, right: Syntax)

  function Level(t: Syntax): nat {
    if t.Inf? then InfixLevel(t.p) else 0
  }

  /** C precedence with left association: the left operand of an operator may be of the
      operator's own level, the right operand binds strictly tighter. */
  ghost predicate WellFormed(t: Syntax) {
    match t
    case Leaf(k) => k.Int? || k.Hex? || k.Name?
    case Group(e) => WellFormed(e)
    case Pre(p, e) => IsPrefix(p) && Level(e) == 0 && WellFormed(e)
    case Inf(p, l, r) =>
      && 1 <= InfixLevel(p)
      && Level(l) <= InfixLevel(p) && Level(r) < InfixLevel(p)
      && WellFormed(l) && WellFormed(r)
  }

  /** The tokens of a syntax tree, in order. */
  function Yield(t: Syntax): seq<Token> {
    match t
    case Leaf(k) => [k]
    case Group(e) => [P(LParen)] + Yield(e) + [P(RParen)]
    case Pre(p, e) => [P(p)] + Yield(e)
    case Inf(p, l, r) => Yield(l) + [P(p)] + Yield(r)
  }

  const MAX_INT64: int := 0x7FFF_FFFF_FFFF_FFFF

  function Min(a: int, b: int): int {
    if a <= b then a else b
  }

  function AfterQuoteH(text: string): string {
    if text == [] then []
    else if text[0] == '\'' then (if |text| >= 2 then text[2..] else [])
    else AfterQuoteH(text[1..])
  }

  /** Stream extraction into an int64_t stores the largest value when the numeral is too big. */
  function LeafAst(k: Token): Ast {
    match k
    case Int(x) => Const(Min(Numeral(x, 10), MAX_INT64))
    case Hex(x) => Const(Min(Numeral(AfterQuoteH(x), 16), MAX_INT64))
    case Name(x) => Sym(x)
    case _ => Const(0)
  }

  /** The abstract tree of a syntax tree; brackets leave no trace. */
  function AstOf(t: Syntax): Ast {
    match t
    case Leaf(k) => LeafAst(k)
    case Group(e) => AstOf(e)
    case Pre(p, e) => Un(if IsPrefix(p) then Prefix(p) else Not, AstOf(e))
    case Inf(p, l, r) => Bin(Infix(p), AstOf(l), AstOf(r))
  }
}
