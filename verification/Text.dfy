/** Characters and numerals, shared by the parts of the system that read and print text. */
module Text {
  predicate IsDigit(c: char) { '0' <= c <= '9' }

  predicate AllDigits(t: string) { forall i :: 0 <= i < |t| ==> IsDigit(t[i]) }

  function DigitValue(c: char): nat {
    if '0' <= c <= '9' then c as nat - '0' as nat
    else if 'a' <= c <= 'f' then c as nat - 'a' as nat + 10
    else if 'A' <= c <= 'F' then c as nat - 'A' as nat + 10
    else 0
  }

  function Numeral(text: string, base: nat): nat {
    if text == [] then 0
    else Numeral(text[..|text| - 1], base) * base + DigitValue(text[|text| - 1])
  }

  function Digit(d: nat): char
    requires d < 10
  {
    (d + '0' as nat) as char
  }

  function Decimal(v: nat): string {
    if v < 10 then [Digit(v)] else Decimal(v / 10) + [Digit(v % 10)]
  }

  lemma {:induction false} DecimalReads(v: nat)
    ensures Numeral(Decimal(v), 10) == v
    ensures Decimal(v) != [] && forall i :: 0 <= i < |Decimal(v)| ==> IsDigit(Decimal(v)[i])
  {
    var d := Decimal(v);
    if v >= 10 {
      DecimalReads(v / 10);
    }
    assert d[..|d| - 1] == if v < 10 then [] else Decimal(v / 10);
  }
}
