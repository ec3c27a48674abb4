/** What expressions evaluate to (Expr::eval in src/eval.cc): 64-bit arithmetic and the value of an
    abstract tree, with the laws that fix what each operator computes. */
module ExprValues {
  import opened Common
  import opened Text
  import opened ExprSyntax

  const TWO64: int := 0x1_0000_0000_0000_0000
  const MIN_INT64: int := -0x8000_0000_0000_0000

  /** Reduction of an integer to int64_t, two's complement. */
  function Wrap(x: int): (r: int)
    ensures MIN_INT64 <= r <= MAX_INT64
    ensures (r - x) % TWO64 == 0
  {
    var m := x % TWO64;
    if m <= MAX_INT64 then m else m - TWO64
  }

  function Truth(b: bool): int {
    if b then 1 else 0
  }

  function BitOp(op: Operator, a: nat, b: nat): nat {
    match op
    case BAnd => Truth(a == 1 && b == 1)
    case BOr => Truth(a == 1 || b == 1)
    case _ => Truth(a != b)
  }

  function BitsOp(op: Operator, a: nat, b: nat, width: nat): nat {
    if width == 0 then 0
    else 2 * BitsOp(op, a / 2, b / 2, width - 1) + BitOp(op, a % 2, b % 2)
  }

  /** C division: the quotient is truncated towards zero. */
  function TruncDiv(a: int, b: int): int
    requires b != 0
  {
    if a >= 0 then a / b else -((-a) / b)
  }

  function ApplyUnary(op: Operator, a: int): int {
    match op
    case UMinus => Wrap(-a)
    case Not => Truth(a == 0)
    case Invert => -a - 1
    case _ => a
  }

  /** Binary operators whose operands are both evaluated. None: undefined, because the divisor
      is zero or the quotient does not fit. */
  function ApplyBinary(op: Operator, a: int, b: int): Option<int> {
    match op
    case Add => Some(Wrap(a + b))
    case Minus => Some(Wrap(a - b))
    case Multiply => Some(Wrap(a * b))
    case Divide => if b == 0 || (a == MIN_INT64 && b == -1) then None else Some(TruncDiv(a, b))
    case Mod =>
      if b == 0 || (a == MIN_INT64 && b == -1) then None else Some(a - b * TruncDiv(a, b))
    case LT => Some(Truth(a < b))
    case GT => Some(Truth(a > b))
    case LE => Some(Truth(a <= b))
    case GE => Some(Truth(a >= b))
    case Eq => Some(Truth(a == b))
    case Neq => Some(Truth(a != b))
    case And => Some(Truth(a != 0 && b != 0))
    case Or => Some(Truth(a != 0 || b != 0))
    case _ => Some(Wrap(BitsOp(op, a % TWO64, b % TWO64, 64)))
  }

  /** The value of a tree under an environment; the right operand of a logical operator is
      looked at only when the left one does not decide. */
  function Denote(t: Ast, env: map<string, int>): Option<int> {
    match t
    case Const(v) => Some(v)
    case Sym(n) => Some(if n in env then env[n] else 0)
    case Un(op, e) =>
      (match Denote(e, env)
       case None => None
       case Some(a) => Some(ApplyUnary(op, a)))
    case Bin(op, l, r) =>
      (match Denote(l, env)
       case None => None
       case Some(a) =>
         if op == And && a == 0 then Some(0)
         else if op == Or && a != 0 then Some(1)
         else
           match Denote(r, env)
           case None => None
           case Some(b) => ApplyBinary(op, a, b))
  }

  // ---- arithmetic: the result that fits, congruent to the integer one

  predicate Fits(x: int) { MIN_INT64 <= x <= MAX_INT64 }

  lemma WrapExactly(x: int, r: int)
    ensures Wrap(x) == r <==> Fits(r) && (r - x) % TWO64 == 0
  {
    if Fits(r) && (r - x) % TWO64 == 0 {
      var k, l := (r - x) / TWO64, (Wrap(x) - x) / TWO64;
      assert r - Wrap(x) == TWO64 * (k - l);
    }
  }

  /** Sum, difference and product are the values that fit and are congruent to the integer ones
      modulo 2^64. */
  lemma ArithmeticExactly(a: int, b: int, r: int)
    ensures ApplyBinary(Add, a, b) == Some(r) <==> Fits(r) && (r - (a + b)) % TWO64 == 0
    ensures ApplyBinary(Minus, a, b) == Some(r) <==> Fits(r) && (r - (a - b)) % TWO64 == 0
    ensures ApplyBinary(Multiply, a, b) == Some(r) <==> Fits(r) && (r - a * b) % TWO64 == 0
  {
    hide Wrap;
    WrapExactly(a + b, r);
    WrapExactly(a - b, r);
    WrapExactly(a * b, r);
  }

  /** Subtraction undoes addition and the other way round, and negation is subtraction from 0. */
  lemma SubtractionUndoes(a: int, b: int)
    requires Fits(a)
    ensures ApplyBinary(Minus, ApplyBinary(Add, a, b).value, b) == Some(a)
    ensures ApplyBinary(Add, ApplyBinary(Minus, a, b).value, b) == Some(a)
    ensures ApplyBinary(Minus, 0, a) == Some(ApplyUnary(UMinus, a))
    ensures ApplyUnary(UMinus, ApplyUnary(UMinus, a)) == a && ApplyUnary(UAdd, a) == a
    ensures ApplyUnary(UMinus, a) == a <==> a == 0 || a == MIN_INT64
  {
    hide Wrap;
    Undone(a, b);
    Undone(a, -b);
    NegatedTwice(a);
  }

  lemma Undone(a: int, b: int)
    requires Fits(a)
    ensures Wrap(Wrap(a + b) - b) == a
  {
    hide Wrap;
    WrapExactly(Wrap(a + b) - b, a);
    SameMultiple(Wrap(a + b) - (a + b), a - (Wrap(a + b) - b));
  }

  lemma NegatedTwice(a: int)
    requires Fits(a)
    ensures Wrap(-Wrap(-a)) == a
    ensures Wrap(-a) == a <==> a == 0 || a == MIN_INT64
  {
    hide Wrap;
    WrapExactly(-Wrap(-a), a);
    SameMultiple(Wrap(-a) - (-a), a - (-Wrap(-a)));
    WrapExactly(-a, a);
  }

  lemma SameMultiple(x: int, y: int)
    requires x % TWO64 == 0 && (y == x || y == -x)
    ensures y % TWO64 == 0
  {
  }

  /** Division and remainder meet the C definition: exact, remainder smaller than the divisor
      and of the dividend's sign. */
  lemma DivisionTruncates(a: int, b: int)
    requires b != 0 && !(a == MIN_INT64 && b == -1)
    ensures var q := ApplyBinary(Divide, a, b).value; var m := ApplyBinary(Mod, a, b).value;
      a == b * q + m && -Abs(b) < m < Abs(b) && (a >= 0 ==> m >= 0) && (a <= 0 ==> m <= 0)
  {
    TruncationExact(a, b);
  }

  lemma TruncationExact(a: int, b: int)
    requires b != 0
    ensures var m := a - b * TruncDiv(a, b);
      -Abs(b) < m < Abs(b) && (a >= 0 ==> m >= 0) && (a <= 0 ==> m <= 0)
  {
    Euclid(Abs(a), b);
  }

  lemma Euclid(n: nat, b: int)
    requires b != 0
    ensures n == b * (n / b) + n % b && 0 <= n % b < Abs(b)
  {
  }

  function Abs(x: int): int {
    if x < 0 then -x else x
  }

  // ---- comparison and logic: zero and one

  ghost predicate Holds(op: Operator, a: int, b: int) { ApplyBinary(op, a, b) == Some(1) }

  ghost predicate Refutes(op: Operator, a: int, b: int) { ApplyBinary(op, a, b) == Some(0) }

  /** Something positive leads from a to b. */
  ghost predicate Leads(a: int, d: int, b: int) { d > 0 && a + d == b }

  /** a < b exactly when something positive leads from a to b, a > b is b < a, a == b is what is left,
      and the other three are the negations of these. */
  lemma ComparisonsExactly(a: int, b: int)
    ensures Holds(LT, a, b) <==> exists d :: Leads(a, d, b)
    ensures Holds(GT, a, b) <==> Holds(LT, b, a)
    ensures Holds(Eq, a, b) <==> !Holds(LT, a, b) && !Holds(GT, a, b)
    ensures (Holds(LE, a, b) <==> !Holds(GT, a, b)) && (Holds(GE, a, b) <==> !Holds(LT, a, b))
    ensures Holds(Neq, a, b) <==> !Holds(Eq, a, b)
    ensures forall op :: op in {LT, GT, LE, GE, Eq, Neq} ==> Holds(op, a, b) || Refutes(op, a, b)
  {
    if a < b {
      assert Leads(a, b - a, b);
    }
  }

  /** Anything but zero counts as true. */
  lemma LogicExactly(a: int, b: int)
    ensures (a == 0 ==> ApplyUnary(Not, a) == 1) && (a != 0 ==> ApplyUnary(Not, a) == 0)
    ensures Holds(And, a, b) || Refutes(And, a, b)
    ensures Holds(Or, a, b) || Refutes(Or, a, b)
    ensures Holds(And, a, b) <==> ApplyUnary(Not, a) == 0 && ApplyUnary(Not, b) == 0
    ensures Refutes(Or, a, b) <==> ApplyUnary(Not, a) == 1 && ApplyUnary(Not, b) == 1
  {
  }

  function Bit(x: nat, i: nat): nat {
    if i == 0 then x % 2 else Bit(x / 2, i - 1)
  }

  /** Bitwise operators work bit by bit. */
  lemma {:induction false} BitwiseIsBitwise(op: Operator, a: nat, b: nat, width: nat, i: nat)
    requires i < width
    ensures Bit(BitsOp(op, a, b, width), i) == BitOp(op, Bit(a, i), Bit(b, i))
  {
    var low := BitOp(op, a % 2, b % 2);
    var high := BitsOp(op, a / 2, b / 2, width - 1);
    assert BitsOp(op, a, b, width) == 2 * high + low;
    LowBit(high, low);
    hide BitsOp, BitOp;
    if i > 0 {
      BitwiseIsBitwise(op, a / 2, b / 2, width - 1, i - 1);
    }
  }

  lemma LowBit(high: nat, low: nat)
    requires low < 2
    ensures (2 * high + low) % 2 == low && (2 * high + low) / 2 == high
  {
  }

  /** The bits of the 64-bit word that holds a value. */
  function BitOf(x: int, i: nat): nat { Bit(x % TWO64, i) }

  /** The bitwise operators combine the bits at each place: both set, one of them set, one but not
      both. */
  lemma BitwiseExactly(a: int, b: int, i: nat)
    requires i < 64
    ensures BitOf(ApplyBinary(BAnd, a, b).value, i) == if BitOf(a, i) == 0 then 0 else BitOf(b, i)
    ensures BitOf(ApplyBinary(BOr, a, b).value, i) == if BitOf(a, i) == 0 then BitOf(b, i) else 1
    ensures BitOf(ApplyBinary(Xor, a, b).value, i) == (BitOf(a, i) + BitOf(b, i)) % 2
  {
    hide Wrap, BitsOp, Bit;
    BitIsBit(a % TWO64, i);
    BitIsBit(b % TWO64, i);
    forall op | op in {BAnd, BOr, Xor}
      ensures BitOf(ApplyBinary(op, a, b).value, i) == BitOp(op, BitOf(a, i), BitOf(b, i))
    {
      BitwiseOfWords(op, a, b, i);
    }
  }

  lemma BitwiseOfWords(op: Operator, a: int, b: int, i: nat)
    requires op in {BAnd, BOr, Xor} && i < 64
    ensures BitOf(ApplyBinary(op, a, b).value, i) == BitOp(op, BitOf(a, i), BitOf(b, i))
  {
    hide Wrap, BitsOp, Bit, BitOp;
    var v, w := a % TWO64, b % TWO64;
    BitwiseIsBitwise(op, v, w, 64, i);
    BitsBound(op, v, w, 64);
    PowerOf64();
    WrapKeepsBits(BitsOp(op, v, w, 64));
  }

  lemma WrapKeepsBits(n: nat)
    requires n < TWO64
    ensures Wrap(n) % TWO64 == n
  {
  }

  function Power(n: nat): nat {
    if n == 0 then 1 else 2 * Power(n - 1)
  }

  lemma PowerOf64()
    ensures Power(64) == TWO64
  {
    assert Power(4) == 16;
    PowerDoubled(4);
    PowerDoubled(8);
    PowerDoubled(16);
    PowerDoubled(32);
  }

  lemma PowerDoubled(n: nat)
    ensures Power(2 * n) == Power(n) * Power(n)
  {
    PowerSum(n, n);
  }

  lemma {:induction false} PowerSum(m: nat, n: nat)
    ensures Power(m + n) == Power(m) * Power(n)
  {
    if m > 0 {
      PowerSum(m - 1, n);
      Regroup(Power(m - 1), Power(n));
    }
  }

  lemma Regroup(a: nat, b: nat)
    ensures 2 * (a * b) == (2 * a) * b
  {
  }

  lemma {:induction false} BitsBound(op: Operator, a: nat, b: nat, width: nat)
    ensures BitsOp(op, a, b, width) < Power(width)
  {
    if width > 0 {
      BitsBound(op, a / 2, b / 2, width - 1);
    }
  }

  lemma {:induction false} BitIsBit(x: nat, i: nat)
    ensures Bit(x, i) < 2
  {
    if i > 0 { BitIsBit(x / 2, i - 1); }
  }

  /** Words with the same bits hold the same value. */
  lemma BitsDetermine(x: int, y: int)
    requires Fits(x) && Fits(y) && forall i: nat :: i < 64 ==> BitOf(x, i) == BitOf(y, i)
    ensures x == y
  {
    PowerOf64();
    forall i: nat | i < 64 ensures Bit(x % TWO64, i) == Bit(y % TWO64, i) {
      assert BitOf(x, i) == BitOf(y, i);
    }
    SameBits(x % TWO64, y % TWO64, 64);
  }

  lemma {:induction false} SameBits(x: nat, y: nat, width: nat)
    requires x < Power(width) && y < Power(width)
    requires forall i: nat :: i < width ==> Bit(x, i) == Bit(y, i)
    ensures x == y
  {
    if width > 0 {
      assert Bit(x, 0) == Bit(y, 0);
      forall i: nat | i < width - 1 ensures Bit(x / 2, i) == Bit(y / 2, i) {
        assert Bit(x, i + 1) == Bit(y, i + 1);
      }
      SameBits(x / 2, y / 2, width - 1);
    }
  }

  /** The complement flips every bit. */
  lemma InvertFlips(a: int, i: nat)
    requires i < 64
    ensures BitOf(ApplyUnary(Invert, a), i) == 1 - BitOf(a, i)
    ensures ApplyUnary(Invert, ApplyUnary(Invert, a)) == a
  {
    var n := a % TWO64;
    assert (-a - 1) % TWO64 == TWO64 - 1 - n;
    PowerOf64();
    FlippedBits(n, 64, i);
  }

  lemma {:induction false} FlippedBits(n: nat, width: nat, i: nat)
    requires n < Power(width) && i < width
    ensures Bit(Power(width) - 1 - n, i) == 1 - Bit(n, i)
  {
    var m: nat := Power(width) - 1 - n;
    assert m / 2 == Power(width - 1) - 1 - n / 2 && m % 2 == 1 - n % 2;
    if i > 0 {
      FlippedBits(n / 2, width - 1, i - 1);
    }
  }

  // ---- trees

  ghost predicate ConstantsFit(t: Ast) {
    match t
    case Const(v) => Fits(v)
    case Sym(_) => true
    case Un(_, e) => ConstantsFit(e)
    case Bin(_, l, r) => ConstantsFit(l) && ConstantsFit(r)
  }

  /** Every value of an expression is one of int64_t. */
  lemma {:induction false} ValuesFit(t: Ast, env: map<string, int>)
    requires ConstantsFit(t) && forall n :: n in env ==> Fits(env[n])
    ensures Denote(t, env).Some? ==> Fits(Denote(t, env).value)
  {
    hide Wrap, BitsOp;
    match t
    case Const(_) =>
    case Sym(_) =>
    case Un(_, e) =>
      ValuesFit(e, env);
    case Bin(op, l, r) =>
      ValuesFit(l, env);
      ValuesFit(r, env);
      var a, b := Denote(l, env), Denote(r, env);
      if a.Some? && b.Some? {
        ResultFits(op, a.value, b.value);
      }
  }

  lemma ResultFits(op: Operator, a: int, b: int)
    requires Fits(a) && Fits(b)
    ensures ApplyBinary(op, a, b).Some? ==> Fits(ApplyBinary(op, a, b).value)
  {
    hide Wrap, BitsOp;
    if op in {Divide, Mod} && ApplyBinary(op, a, b).Some? {
      TruncationExact(a, b);
      QuotientFits(a, b);
    }
  }

  lemma QuotientFits(a: int, b: int)
    requires Fits(a) && Fits(b) && b != 0 && !(a == MIN_INT64 && b == -1)
    ensures Fits(TruncDiv(a, b)) && Fits(a - b * TruncDiv(a, b))
  {
    TruncationExact(a, b);
  }

  /** A logical operator with operands that have values is 1 or 0 as both, or one, of them count as
      true; the right operand may even be undefined when the left one decides. */
  lemma LogicalOperators(l: Ast, r: Ast, env: map<string, int>)
    ensures var a := Denote(l, env); var b := Denote(r, env);
      var both := Denote(Bin(And, l, r), env); var either := Denote(Bin(Or, l, r), env);
      && (both == Some(1) <==> a.Some? && a.value != 0 && b.Some? && b.value != 0)
      && (both == Some(0) <==> a == Some(0) || (a.Some? && b == Some(0)))
      && (both == None <==> a == None || (a != Some(0) && b == None))
      && (either == Some(0) <==> a == Some(0) && b == Some(0))
      && (either == Some(1) <==> a.Some? && (a.value != 0 || (b.Some? && b.value != 0)))
      && (either == None <==> a == None || (a == Some(0) && b == None))
  {
  }

  /** All others have a value exactly when their operands have one, except for division by 0 and of
      the smallest value by -1. */
  lemma DefinedExactly(op: Operator, l: Ast, r: Ast, env: map<string, int>)
    requires op != And && op != Or
    ensures var a := Denote(l, env); var b := Denote(r, env);
      && (Denote(Bin(op, l, r), env).Some? <==>
            && a.Some? && b.Some?
            && (op in {Divide, Mod} ==> b.value != 0 && (a.value == MIN_INT64 ==> b.value != -1)))
  {
    hide Wrap, BitsOp;
  }

  // ---- literals

  const LOWER: string := "0123456789abcdef"
  const UPPER: string := "0123456789ABCDEF"

  /** The shortest hexadecimal numeral of a number, in the given digits. */
  function Hexadecimal(v: nat, digits: string): string
    requires |digits| == 16
  {
    if v < 16 then [digits[v]] else Hexadecimal(v / 16, digits) + [digits[v % 16]]
  }

  lemma {:induction false} HexadecimalReads(v: nat, digits: string)
    requires digits == LOWER || digits == UPPER
    ensures Numeral(Hexadecimal(v, digits), 16) == v && Hexadecimal(v, digits) != []
  {
    var t := Hexadecimal(v, digits);
    if v >= 16 {
      HexadecimalReads(v / 16, digits);
    }
    assert t[..|t| - 1] == if v < 16 then [] else Hexadecimal(v / 16, digits);
    DigitsRead(v % 16);
  }

  lemma DigitsRead(d: nat)
    requires d < 16
    ensures DigitValue(LOWER[d]) == d && DigitValue(UPPER[d]) == d
  {
  }

  /** A literal stands for the number its digits denote, or for the largest value if that is larger;
      what is in front of the quote of a hexadecimal one does not matter. */
  lemma LiteralsRead(v: nat, width: string, digits: string)
    requires (digits == LOWER || digits == UPPER) && '\'' !in width
    ensures LeafAst(Int(Decimal(v))) == Const(if v <= MAX_INT64 then v else MAX_INT64)
    ensures LeafAst(Hex(width + "'h" + Hexadecimal(v, digits))) == Const(if v <= MAX_INT64 then v else MAX_INT64)
  {
    DecimalReads(v);
    HexadecimalReads(v, digits);
    BehindQuote(width, Hexadecimal(v, digits));
  }

  lemma {:induction false} BehindQuote(width: string, digits: string)
    requires '\'' !in width
    ensures AfterQuoteH(width + "'h" + digits) == digits
  {
    var text := width + "'h" + digits;
    if width == [] {
      assert text[2..] == digits;
    } else {
      assert text[1..] == width[1..] + "'h" + digits;
      BehindQuote(width[1..], digits);
    }
  }
}
