/** Printing expression trees with as few brackets as precedence allows, and reading them back. */
module ExprPrint {
  import opened Common
  import opened Text
  import opened ExprSyntax
  import opened ExprGrammar
  import opened ExprCorrect
  import opened ExprActions

  // ---- which trees have a text

  predicate IsNameText(n: string) {
    Variable(n, 0) == Matched(|n|)
  }

  /** Literals are non-negative 64-bit numbers, names are names of the grammar. */
  ghost predicate Printable(t: Ast) {
    match t
    case Const(v) => 0 <= v <= MAX_INT64
    case Sym(n) => IsNameText(n)
    case Un(op, e) => IsUnary(op) && Printable(e)
    case Bin(op, l, r) => !IsUnary(op) && Printable(l) && Printable(r)
  }

  // ---- printing

  function PunctOf(op: Operator): Punct {
    match op
    case Not => Bang case Invert => Tilde case UAdd => Plus case UMinus => Dash
    case Multiply => Star case Divide => Slash case Mod => Percent
    case Add => Plus case Minus => Dash
    case LT => Less case GT => Greater case LE => LessEq case GE => GreaterEq
    case Eq => EqEq case Neq => NotEq
    case BAnd => Amp case Xor => Caret case BOr => Bar
    case And => AmpAmp case Or => BarBar
  }

  function Bracket(t: Syntax, k: nat): Syntax {
    if Level(t) <= k then t else Group(t)
  }

  function Show(t: Ast): Syntax {
    match t
    case Const(v) => Leaf(Int(if v >= 0 then Decimal(v) else []))
    case Sym(n) => Leaf(Name(n))
    case Un(op, e) => Pre(PunctOf(op), Bracket(Show(e), 0))
    case Bin(op, l, r) =>
      var k := Precedence(op);
      Inf(PunctOf(op), Bracket(Show(l), k), Bracket(Show(r), if k > 0 then k - 1 else 0))
  }

  function PunctText(p: Punct): string {
    match p
    case LParen => "(" case RParen => ")"
    case Star => "*" case Slash => "/" case Percent => "%"
    case Plus => "+" case Dash => "-" case Tilde => "~" case Bang => "!"
    case Less => "<" case Greater => ">" case LessEq => "<=" case GreaterEq => ">="
    case EqEq => "==" case NotEq => "!="
    case Amp => "&" case Caret => "^" case Bar => "|"
    case AmpAmp => "&&" case BarBar => "||"
  }

  function TokenText(k: Token): string {
    match k
    case Int(x) => x
    case Hex(x) => x
    case Name(x) => x
    case P(p) => PunctText(p)
    case Bad(c) => [c]
  }

  /** Tokens one by one, each followed by a blank. */
  function Render(ts: seq<Token>): string {
    if ts == [] then [] else TokenText(ts[0]) + [' '] + Render(ts[1..])
  }

  function Print(t: Ast): string {
    Render(Yield(Show(t)))
  }

  // ---- the shown tree is well formed, stands for t, and is minimal

  lemma PunctReadsBack(op: Operator)
    ensures IsUnary(op) ==> IsPrefix(PunctOf(op)) && Prefix(PunctOf(op)) == op
    ensures !IsUnary(op) ==> Infix(PunctOf(op)) == op
  {
  }

  lemma BracketIsTree(t: Syntax, k: nat)
    requires WellFormed(t)
    ensures var b := Bracket(t, k); WellFormed(b) && AstOf(b) == AstOf(t) && Level(b) <= k
  {
  }

  lemma {:induction false} ShowIsTree(t: Ast)
    requires Printable(t)
    ensures WellFormed(Show(t)) && AstOf(Show(t)) == t
  {
    match t
    case Const(v) => DecimalReads(v);
    case Sym(_) =>
    case Un(op, e) =>
      ShowIsTree(e);
      BracketIsTree(Show(e), 0);
      PunctReadsBack(op);
    case Bin(op, l, r) =>
      ShowIsTree(l);
      ShowIsTree(r);
      var k := Precedence(op);
      BracketIsTree(Show(l), k);
      BracketIsTree(Show(r), k - 1);
      PunctReadsBack(op);
  }

  /** Number of bracket pairs. */
  function Groups(t: Syntax): nat {
    match t
    case Leaf(_) => 0
    case Group(e) => 1 + Groups(e)
    case Pre(_, e) => Groups(e)
    case Inf(_, l, r) => Groups(l) + Groups(r)
  }

  /** No well-formed text of the same tree has fewer brackets. */
  lemma {:induction false} ShowIsMinimal(t: Ast, u: Syntax)
    requires WellFormed(u) && AstOf(u) == t
    ensures Groups(Show(t)) <= Groups(u)
    decreases u, 0
  {
    match u
    case Leaf(_) =>
    case Group(e) => ShowIsMinimal(t, e);
    case Pre(_, e) => BracketIsMinimal(t.arg, e, 0);
    case Inf(_, l, r) =>
      BracketIsMinimal(t.left, l, Level(u));
      BracketIsMinimal(t.right, r, Level(u) - 1);
  }

  lemma {:induction false} BracketIsMinimal(t: Ast, u: Syntax, k: nat)
    requires WellFormed(u) && AstOf(u) == t && Level(u) <= k
    ensures Groups(Bracket(Show(t), k)) <= Groups(u)
    decreases u, 1
  {
    if Level(Show(t)) <= k {
      ShowIsMinimal(t, u);
    } else {
      LevelOfAst(t, u);
      ShowIsMinimal(t, u.inner);
    }
  }

  lemma LevelOfAst(t: Ast, u: Syntax)
    requires WellFormed(u) && AstOf(u) == t
    ensures u.Group? || Level(u) == Level(Show(t))
  {
    if u.Inf? {
      PunctReadsBack(t.bop);
    }
  }

  // ---- the rendered text lexes back into the tokens

  /** n stands in s at position i and a blank follows it. */
  ghost predicate Stands(s: string, i: nat, n: string) {
    i + |n| < |s| && s[i + |n|] == ' ' && forall a :: 0 <= a < |n| ==> s[i + a] == n[a]
  }

  lemma {:induction false} WordShifts(s: string, i: nat, n: string, a: nat)
    requires Stands(s, i, n) && a <= |n|
    ensures WordEnd(s, i + a) == i + WordEnd(n, a)
    decreases |n| - a
  {
    if a < |n| { WordShifts(s, i, n, a + 1); }
  }

  lemma {:induction false} DigitsShift(s: string, i: nat, n: string, a: nat)
    requires Stands(s, i, n) && a <= |n|
    ensures DigitsEnd(s, i + a) == i + DigitsEnd(n, a)
    decreases |n| - a
  {
    if a < |n| { DigitsShift(s, i, n, a + 1); }
  }

  lemma {:induction false} SlicesShift(s: string, i: nat, n: string, a: nat)
    requires Stands(s, i, n) && a <= |n|
    ensures SliceRounds(s, i + a) == i + SliceRounds(n, a)
    decreases |n| - a
  {
    if a + 2 <= |n| { DigitsShift(s, i, n, a + 2); }
    if a < |n| && SliceRound(n, a).Some? {
      SlicesShift(s, i, n, SliceRound(n, a).value);
    }
  }

  function ShiftScan(r: Scan, i: nat): Scan {
    if r.Matched? then Matched(i + r.end) else r
  }

  lemma {:induction false} TailShifts(s: string, i: nat, n: string, a: nat)
    requires Stands(s, i, n) && a <= |n|
    ensures VariableTail(s, i + a) == ShiftScan(VariableTail(n, a), i)
  {
    if a + 1 < |n| {
      WordShifts(s, i, n, a + 1);
      SlicesShift(s, i, n, a + 1);
    }
  }

  lemma {:induction false} TailsShift(s: string, i: nat, n: string, a: nat)
    requires Stands(s, i, n) && a <= |n|
    ensures VariableTails(s, i + a) == ShiftScan(VariableTails(n, a), i)
    decreases |n| - a
  {
    TailShifts(s, i, n, a);
    if VariableTail(n, a).Matched? {
      TailsShift(s, i, n, VariableTail(n, a).end);
    }
  }

  lemma {:induction false} PartShifts(s: string, i: nat, n: string, a: nat)
    requires Stands(s, i, n) && a <= |n|
    ensures Variable2(s, i + a) == ShiftScan(Variable2(n, a), i)
  {
    if a < |n| && IsHead(n[a]) {
      WordShifts(s, i, n, a);
      TailsShift(s, i, n, WordEnd(n, a));
    }
  }

  lemma {:induction false} RestShifts(s: string, i: nat, n: string, a: nat)
    requires Stands(s, i, n) && a <= |n|
    ensures VariableRest(s, i + a) == ShiftScan(VariableRest(n, a), i)
    decreases |n| - a
  {
    if a < |n| && n[a] == '.' {
      PartShifts(s, i, n, a + 1);
      if Variable2(n, a + 1).Matched? {
        RestShifts(s, i, n, Variable2(n, a + 1).end);
      }
    }
  }

  ghost predicate Plain(k: Token) {
    match k
    case Int(x) => x != [] && forall i :: 0 <= i < |x| ==> IsDigit(x[i])
    case Name(x) => IsNameText(x)
    case P(_) => true
    case _ => false
  }

  lemma {:induction false} DigitsToTheEnd(x: string, a: nat)
    requires a <= |x| && forall i :: 0 <= i < |x| ==> IsDigit(x[i])
    ensures DigitsEnd(x, a) == |x|
    decreases |x| - a
  {
    if a < |x| { DigitsToTheEnd(x, a + 1); }
  }

  lemma NumberReads(s: string, i: nat, x: string)
    requires Plain(Int(x)) && Stands(s, i, x)
    ensures NextToken(s, i) == (Int(s[i..i + |x|]), i + |x|)
  {
    DigitsToTheEnd(x, 0);
    DigitsToTheEnd(x, 1);
    DigitsShift(s, i, x, 0);
    DigitsShift(s, i, x, 1);
    assert IsDigit(x[0]) && s[i + 0] == x[0];
  }

  lemma NameReads(s: string, i: nat, x: string)
    requires IsNameText(x) && Stands(s, i, x)
    ensures NextToken(s, i) == (Name(s[i..i + |x|]), i + |x|) && IsHead(s[i])
  {
    NameShifts(s, i, x);
    assert HexEnd(s, i).None?;
  }

  lemma NameShifts(s: string, i: nat, x: string)
    requires IsNameText(x) && Stands(s, i, x)
    ensures Variable(s, i) == Matched(i + |x|) && IsHead(s[i])
  {
    PartShifts(s, i, x, 0);
    RestShifts(s, i, x, Variable2(x, 0).end);
  }

  lemma TokenReads(s: string, i: nat, k: Token)
    requires Plain(k) && Stands(s, i, TokenText(k))
    ensures !IsSpace(s[i]) && NextToken(s, i) == (k, i + |TokenText(k)|)
  {
    var x := TokenText(k);
    assert s[i..i + |x|] == x;
    match k
    case Int(_) =>
      NumberReads(s, i, x);
      assert IsDigit(x[0]) && s[i + 0] == x[0];
    case Name(_) => NameReads(s, i, x);
    case P(p) => PunctReads(s, i, p);
  }

  lemma PunctReads(s: string, i: nat, p: Punct)
    requires Stands(s, i, PunctText(p))
    ensures !IsSpace(s[i]) && NextToken(s, i) == (P(p), i + |PunctText(p)|)
  {
    assert s[i] == PunctText(p)[0];
    assert |PunctText(p)| == 2 ==> s[i + 1] == PunctText(p)[1];
    NextIsPunctuator(s, i);
  }

  lemma FirstStands(s: string, i: nat, x: string, rest: string)
    requires i <= |s| && s[i..] == x + [' '] + rest
    ensures Stands(s, i, x) && s[i + |x| + 1..] == rest
  {
    assert forall a :: 0 <= a <= |x| ==> s[i + a] == s[i..][a];
    assert s[i + |x| + 1..] == s[i..][|x| + 1..];
  }

  lemma LexSkipsBlank(s: string, j: nat)
    requires j < |s| && IsSpace(s[j])
    ensures Lex(s, j) == Lex(s, j + 1)
  {
    assert SkipSpaces(s, j) == SkipSpaces(s, j + 1);
    LexSkips(s, j);
    LexSkips(s, j + 1);
  }

  lemma {:induction false} RenderLexes(s: string, i: nat, ts: seq<Token>)
    requires i <= |s| && s[i..] == Render(ts)
    requires forall k :: k in ts ==> Plain(k)
    ensures Lex(s, i) == ts
    decreases ts
  {
    if ts != [] {
      var more := ts[1..];
      var j := RenderedToken(s, i, ts[0], Render(more));
      RenderLexes(s, j, more);
      assert [ts[0]] + more == ts;
    }
  }

  /** The first rendered token is lexed as such, and what follows is lexed after the blank. */
  lemma RenderedToken(s: string, i: nat, k: Token, rest: string) returns (j: nat)
    requires i <= |s| && s[i..] == TokenText(k) + [' '] + rest && Plain(k)
    ensures j <= |s| && s[j..] == rest && Lex(s, i) == [k] + Lex(s, j)
  {
    hide Lex, Plain;
    j := i + |TokenText(k)| + 1;
    FirstStands(s, i, TokenText(k), rest);
    TokenReads(s, i, k);
    LexThenBlank(s, i, j);
  }

  lemma LexThenBlank(s: string, i: nat, j: nat)
    requires i < |s| && !IsSpace(s[i]) && NextToken(s, i).1 == j - 1 && At(s, j - 1, ' ')
    ensures Lex(s, i) == [NextToken(s, i).0] + Lex(s, j)
  {
    hide NextToken, SkipSpaces;
    LexStep(s, i);
    LexSkipsBlank(s, j - 1);
  }

  lemma {:induction false} ShowIsPlain(t: Ast)
    requires Printable(t)
    ensures forall k :: k in Yield(Show(t)) ==> Plain(k)
  {
    match t
    case Const(v) => DecimalReads(v);
    case Sym(_) =>
    case Un(_, e) =>
      ShowIsPlain(e);
      BracketIsPlain(Show(e), 0);
    case Bin(op, l, r) =>
      ShowIsPlain(l);
      ShowIsPlain(r);
      BracketIsPlain(Show(l), Precedence(op));
      BracketIsPlain(Show(r), Precedence(op) - 1);
  }

  lemma BracketIsPlain(t: Syntax, k: nat)
    requires forall x :: x in Yield(t) ==> Plain(x)
    ensures forall x :: x in Yield(Bracket(t, k)) ==> Plain(x)
  {
  }

  /** Round trip: the printed text is accepted, and parsing it leaves exactly the tree. */
  lemma PrintThenParse(t: Ast)
    requires Printable(t)
    ensures Accepts(Print(t)) && Steps([[]], Parse(Print(t)).log) == Some([[t]])
  {
    ShowIsTree(t);
    ShowIsPlain(t);
    RenderLexes(Print(t), 0, Yield(Show(t)));
    AcceptedLeavesTheTree(Print(t), Show(t));
  }
}
