/** Recorded bit strings and slices of packed arrays (tools/hgdb-replay/vpi.cc): conversion to
    integers and hexadecimal text, and the bit ranges of array elements. */
module PackedValues {
  import opened Common

  // ---- bit strings, most significant bit first

  predicate IsBit(c: char) { c == '0' || c == '1' }

  predicate IsBits(s: string) { forall i :: 0 <= i < |s| ==> IsBit(s[i]) }

  predicate IsFourState(s: string) {
    forall i :: 0 <= i < |s| ==> IsBit(s[i]) || s[i] == 'x' || s[i] == 'z'
  }

  function Pow2(n: nat): (p: nat)
    ensures p >= 1
  {
    if n == 0 then 1 else 2 * Pow2(n - 1)
  }

  /** The number a bit string stands for; anything but a one counts as zero. */
  function Value(s: string): nat {
    if s == [] then 0
    else 2 * Value(s[..|s| - 1]) + (if s[|s| - 1] == '1' then 1 else 0)
  }

  lemma {:induction false} Pow2Grows(a: nat, b: nat)
    requires a <= b
    ensures Pow2(a) <= Pow2(b)
    decreases b
  {
    if a < b {
      Pow2Grows(a, b - 1);
    }
  }

  lemma {:induction false} ValueBound(s: string)
    ensures Value(s) < Pow2(|s|)
  {
    if s != [] {
      ValueBound(s[..|s| - 1]);
    }
  }

  lemma OneMoreBit(v: nat, p: nat, w: nat, bit: nat)
    ensures 2 * (v * p + w) + bit == v * (2 * p) + (2 * w + bit)
  {
  }

  lemma ValueStep(s: string)
    requires s != []
    ensures Value(s) == 2 * Value(s[..|s| - 1]) + (if s[|s| - 1] == '1' then 1 else 0)
    ensures Pow2(|s|) == 2 * Pow2(|s| - 1)
  {
  }

  lemma ValueEmpty(v: nat)
    ensures Value([]) == 0 && v * Pow2(0) == v
  {
  }

  lemma {:induction false} ValueAppend(a: string, b: string)
    ensures Value(a + b) == Value(a) * Pow2(|b|) + Value(b)
    decreases b
  {
    hide Value;
    hide Pow2;
    if b == [] {
      assert a + b == a;
      ValueEmpty(Value(a));
    } else {
      var c := b[..|b| - 1];
      assert (a + b)[..|a + b| - 1] == a + c;
      ValueAppend(a, c);
      ValueStep(b);
      ValueStep(a + b);
      OneMoreBit(Value(a), Pow2(|c|), Value(c), if b[|b| - 1] == '1' then 1 else 0);
    }
  }

  /** The bits of a number. */
  function Binary(v: nat): string {
    if v < 2 then [if v == 0 then '0' else '1'] else Binary(v / 2) + [if v % 2 == 0 then '0' else '1']
  }

  /** Every number has a bit string. */
  lemma {:induction false} BinaryStandsFor(v: nat)
    ensures IsBits(Binary(v)) && Value(Binary(v)) == v
  {
    var b := Binary(v);
    if v >= 2 { BinaryStandsFor(v / 2); }
    assert b[..|b| - 1] == if v < 2 then [] else Binary(v / 2);
  }

  // ---- convert_value

  const INT_MIN: int := -0x8000_0000

  /** 1 << bit in int: bit 31 is the sign bit, larger shifts are undefined. */
  function Shifted(bit: nat): Option<int> {
    if bit < 31 then Some(Pow2(bit)) else if bit == 31 then Some(INT_MIN) else None
  }

  /** convert_value: None where it shifts too far. Bits are distinct, so or-ing one in adds it. */
  method ConvertValue(raw: string) returns (r: Option<int>)
    ensures r == Converted(raw, 0, 0)
  {
    var result := 0;
    for i := 0 to |raw|
      invariant Converted(raw, i, result) == Converted(raw, 0, 0)
    {
      var bit := |raw| - i - 1;
      if raw[i] == '1' {
        var one := Shifted(bit);
        if one.None? {
          return None;
        }
        result := result + one.value;
      } else if raw[i] == 'z' || raw[i] == 'x' {
        return Some(0);
      }
    }
    r := Some(result);
  }

  function Converted(raw: string, i: nat, sum: int): Option<int>
    requires i <= |raw|
    decreases |raw| - i
  {
    if i == |raw| then Some(sum)
    else if raw[i] == '1' then
      match Shifted(|raw| - i - 1)
      case None => None
      case Some(one) => Converted(raw, i + 1, sum + one)
    else if raw[i] == 'z' || raw[i] == 'x' then Some(0)
    else Converted(raw, i + 1, sum)
  }

  lemma {:induction false} ValueOfTail(raw: string, i: nat)
    requires i < |raw|
    ensures Value(raw[i..]) == (if raw[i] == '1' then Pow2(|raw| - i - 1) else 0) + Value(raw[i + 1..])
  {
    ValueAppend([raw[i]], raw[i + 1..]);
    assert raw[i..] == [raw[i]] + raw[i + 1..];
    assert [raw[i]][..0] == [];
    assert Value([raw[i]]) == if raw[i] == '1' then 1 else 0;
  }

  /** Values of k bits or less that start with a one at bit k - 1. */
  lemma TopBit(bit: nat, rest: nat)
    requires rest < Pow2(bit)
    ensures bit < 31 ==> Pow2(bit) + rest < Pow2(31)
    ensures bit >= 31 ==> Pow2(bit) + rest >= Pow2(31)
  {
    if bit < 31 {
      assert Pow2(bit + 1) == 2 * Pow2(bit);
      Pow2Grows(bit + 1, 31);
    } else {
      Pow2Grows(31, bit);
    }
  }

  /** From position i on, with only bits left, the sum is exact just when the rest is small. */
  lemma {:induction false} ConvertedRest(raw: string, i: nat, sum: int)
    requires i <= |raw| && IsBits(raw)
    ensures Value(raw[i..]) < Pow2(31) ==> Converted(raw, i, sum) == Some(sum + Value(raw[i..]))
    ensures Value(raw[i..]) >= Pow2(31) ==>
      Converted(raw, i, sum).None? || Converted(raw, i, sum).value < sum + Value(raw[i..])
    decreases |raw| - i
  {
    hide Pow2;
    hide Value;
    if i < |raw| {
      var bit := |raw| - i - 1;
      var rest := Value(raw[i + 1..]);
      ValueOfTail(raw, i);
      ValueBound(raw[i + 1..]);
      TopBit(bit, rest);
      if raw[i] == '1' {
        if bit <= 31 {
          ConvertedRest(raw, i + 1, sum + Shifted(bit).value);
        }
      } else {
        ConvertedRest(raw, i + 1, sum);
      }
    } else {
      EmptyValue(raw[i..]);
    }
  }

  lemma EmptyValue(s: string)
    requires s == []
    ensures Value(s) == 0 < Pow2(31)
  {
  }

  /** Integer conversion is exact if and only if the recorded number fits in 31 bits. */
  lemma ConvertExactly(raw: string)
    requires IsBits(raw)
    ensures Converted(raw, 0, 0) == Some(Value(raw)) <==> Value(raw) < Pow2(31)
  {
    hide Pow2;
    hide Value;
    ConvertedRest(raw, 0, 0);
    assert raw[0..] == raw;
  }

  predicate IsUnknown(c: char) { c == 'x' || c == 'z' }

  /** Among the characters before p is a one too far up to be shifted there. */
  predicate OnesTooHigh(raw: string, p: nat)
    requires p <= |raw|
  {
    exists i :: 0 <= i < p && raw[i] == '1' && |raw| - i - 1 > 31
  }

  /** A value with an unknown or high-impedance bit reads as 0, unless a one too far up comes before
      the first of these. */
  lemma UnknownExactly(raw: string, p: nat)
    requires p < |raw| && IsUnknown(raw[p]) && forall i :: 0 <= i < p ==> !IsUnknown(raw[i])
    ensures Converted(raw, 0, 0) == if OnesTooHigh(raw, p) then None else Some(0)
  {
    UnknownBehind(raw, p, 0, 0);
  }

  lemma {:induction false} UnknownBehind(raw: string, p: nat, i: nat, sum: int)
    requires i <= p < |raw| && IsUnknown(raw[p]) && forall j :: 0 <= j < p ==> !IsUnknown(raw[j])
    ensures Converted(raw, i, sum)
      == if exists j :: i <= j < p && raw[j] == '1' && |raw| - j - 1 > 31 then None else Some(0)
    decreases p - i
  {
    if i < p {
      var one := Shifted(|raw| - i - 1);
      if raw[i] == '1' {
        if one.Some? { UnknownBehind(raw, p, i + 1, sum + one.value); }
      } else {
        UnknownBehind(raw, p, i + 1, sum);
      }
    }
  }

  // ---- convert_str_value

  function HexDigit(v: nat): char
    requires v < 16
  {
    if v >= 10 then (v - 10 + 'A' as nat) as char else (v + '0' as nat) as char
  }

  predicate All(s: string, c: char) { forall i :: 0 <= i < |s| ==> s[i] == c }

  predicate Any(s: string, c: char) { exists i :: 0 <= i < |s| && s[i] == c }

  /** One group of up to four bits; unknown and high-impedance bits win over numbers. */
  function Nibble(s: string): char
    requires 0 < |s| <= 4
  {
    if All(s, 'x') then 'x' else if Any(s, 'x') then 'X'
    else if All(s, 'z') then 'z' else if Any(s, 'z') then 'Z'
    else
      ValueBound(s);
      Pow2Grows(|s|, 4);
      assert Pow2(4) == 16;
      HexDigit(Value(s))
  }

  function HexText(s: string): string {
    if s == [] then [] else if |s| <= 4 then [Nibble(s)]
    else HexText(s[..|s| - 4]) + [Nibble(s[|s| - 4..])]
  }

  /** convert_str_value: walks from the right, four bits at a time; buf holds the current group,
      read back to front. */
  method ConvertStrValue(raw: string) returns (result: string)
    requires IsFourState(raw)
    ensures result == HexText(raw)
  {
    hide HexText, Nibble;
    result := [];
    var buf: string := [];
    var i := |raw|;
    assert raw[..i] == raw && raw[i..i] == [];
    while i != 0
      invariant 0 <= i <= |raw| && |buf| < 4 && i + |buf| <= |raw|
      invariant buf == raw[i..i + |buf|]
      invariant HexText(raw[..i + |buf|]) + result == HexText(raw)
      decreases i
    {
      assert raw[i - 1..i + |buf|] == [raw[i - 1]] + buf;
      i := i - 1;
      buf := [raw[i]] + buf;
      if |buf| == 4 {
        assert raw[..i + 4] == raw[..i] + raw[i..i + 4];
        FlushGroup(raw[..i], buf);
        result := [Nibble(buf)] + result;
        buf := [];
        assert raw[..i + |buf|] == raw[..i];
      }
    }
    assert raw[..|buf|] == buf;
    ShortText(buf);
    if buf != [] {
      result := [Nibble(buf)] + result;
    }
  }

  lemma ShortText(s: string)
    requires |s| < 4
    ensures HexText(s) == if s == [] then [] else [Nibble(s)]
  {
  }

  lemma FlushGroup(front: string, group: string)
    requires |group| == 4
    ensures HexText(front + group) == HexText(front) + [Nibble(group)]
  {
    assert (front + group)[..|front|] == front && (front + group)[|front|..] == group;
    if front == [] {
      assert front + group == group;
    }
  }

  function HexDigitValue(c: char): nat {
    if '0' <= c <= '9' then c as nat - '0' as nat
    else if 'A' <= c <= 'F' then c as nat - 'A' as nat + 10 else 0
  }

  function HexValue(s: string): nat {
    if s == [] then 0 else 16 * HexValue(s[..|s| - 1]) + HexDigitValue(s[|s| - 1])
  }

  /** Hexadecimal conversion keeps the value at any length. */
  lemma {:induction false} HexKeepsValue(s: string)
    requires IsBits(s)
    ensures HexValue(HexText(s)) == Value(s)
  {
    if s != [] {
      var cut := if |s| <= 4 then 0 else |s| - 4;
      var front, group := s[..cut], s[cut..];
      assert s == front + group;
      HexKeepsValue(front);
      NibbleValue(group);
      assert HexText(s)[..|HexText(s)| - 1] == HexText(front);
      ValueAppend(front, group);
      if |s| > 4 {
        assert Pow2(4) == 16;
      }
    }
  }

  lemma NibbleValue(s: string)
    requires IsBits(s) && 0 < |s| <= 4
    ensures Value(s) < 16 && Nibble(s) == HexDigit(Value(s))
    ensures HexDigitValue(Nibble(s)) == Value(s)
  {
    assert s[0] != 'x' && s[0] != 'z';
    ValueBound(s);
    Pow2Grows(|s|, 4);
    assert Pow2(4) == 16;
  }

  /** The digit of a group tells what is unknown in it: lower case when all of it is, upper case
      when some of it is, x before z, and a hexadecimal digit only when nothing is. */
  lemma NibbleShowsUnknown(s: string)
    requires IsFourState(s) && 0 < |s| <= 4
    ensures Nibble(s) == 'x' <==> All(s, 'x')
    ensures Nibble(s) == 'X' <==> Any(s, 'x') && !All(s, 'x')
    ensures Nibble(s) == 'z' <==> All(s, 'z')
    ensures Nibble(s) == 'Z' <==> Any(s, 'z') && !All(s, 'z') && !Any(s, 'x')
    ensures Nibble(s) in "0123456789ABCDEF" <==> IsBits(s)
  {
    assert s[0] == s[0];
    if IsBits(s) {
      NibbleValue(s);
      DigitIsHex(Value(s));
    }
  }

  lemma DigitIsHex(v: nat)
    requires v < 16
    ensures HexDigit(v) in "0123456789ABCDEF" && HexDigitValue(HexDigit(v)) == v
  {
    var digits := "0123456789ABCDEF";
    assert HexDigit(v) == digits[v];
  }
}
