/** The order in which local variables are shown: LocalVarNameCompare of src/proto.cc, a comparison
    token by token in which numbers compare by value. */
module VariableOrder {
  import opened Common
  import opened Text
  import opened Tokens

  const U64: nat := 0x1_0000_0000_0000_0000

  /** operator< of strings. */
  predicate TextLess(a: string, b: string) {
    b != "" && (a == "" || a[0] < b[0] || (a[0] == b[0] && TextLess(a[1..], b[1..])))
  }

  /** Comparison of two token lists. None: std::stoul throws on a number that does not fit. */
  function Compare(a: seq<string>, b: seq<string>): Option<bool> {
    if a == [] || b == [] then Some(a == [] && b != [])
    else if AllDigits(a[0]) && AllDigits(b[0]) then
      var v, w := Numeral(a[0], 10), Numeral(b[0], 10);
      if v >= U64 || w >= U64 then None
      else if v != w then Some(v < w)
      else Compare(a[1..], b[1..])
    else if a[0] != b[0] then Some(TextLess(a[0], b[0]))
    else Compare(a[1..], b[1..])
  }

  /** Two tokens that decide nothing: numbers of one value, or else the same text. */
  ghost predicate Alike(x: string, y: string) {
    if AllDigits(x) && AllDigits(y) then Numeral(x, 10) == Numeral(y, 10) < 0x1_0000_0000_0000_0000 else x == y
  }

  /** The first place with tokens that are not alike decides, or the shorter list comes first; only
      numbers of 2^64 or more at that place throw. */
  lemma {:induction false} FirstPlaceDecides(a: seq<string>, b: seq<string>, k: nat)
    requires k <= |a| && k <= |b| && forall j :: 0 <= j < k ==> Alike(a[j], b[j])
    requires k == |a| || k == |b| || !Alike(a[k], b[k])
    ensures k == |a| || k == |b| ==> Compare(a, b) == Some(|a| < |b|)
    ensures k < |a| && k < |b| ==>
      var x, y := a[k], b[k];
      if !AllDigits(x) || !AllDigits(y) then Compare(a, b) == Some(TextLess(x, y))
      else if Numeral(x, 10) >= 0x1_0000_0000_0000_0000 || Numeral(y, 10) >= 0x1_0000_0000_0000_0000 then
        Compare(a, b).None?
      else Compare(a, b) == Some(Numeral(x, 10) < Numeral(y, 10))
    decreases k
  {
    if k > 0 {
      assert Alike(a[0], b[0]);
      FirstPlaceDecides(a[1..], b[1..], k - 1);
    }
  }

  /** The comparator of the map of local values. */
  method LocalVarNameCompare(var1: string, var2: string) returns (r: Option<bool>)
    ensures r == Compare(TokensOf(var1, DELIMITERS), TokensOf(var2, DELIMITERS))
  {
    var tokens1 := GetTokens(var1, DELIMITERS);
    var tokens2 := GetTokens(var2, DELIMITERS);
    var maxSize := if |tokens1| >= |tokens2| then |tokens1| else |tokens2|;
    assert tokens1[0..] == tokens1 && tokens2[0..] == tokens2;
    for i := 0 to maxSize
      invariant i <= |tokens1| && i <= |tokens2|
      invariant Compare(tokens1[i..], tokens2[i..]) == Compare(tokens1, tokens2)
    {
      if i >= |tokens1| {
        return Some(true);
      } else if i >= |tokens2| {
        return Some(false);
      }
      var t1, t2 := tokens1[i], tokens2[i];
      assert tokens1[i..][1..] == tokens1[i + 1..] && tokens2[i..][1..] == tokens2[i + 1..];
      if AllDigits(t1) && AllDigits(t2) {
        var v1, v2 := Numeral(t1, 10), Numeral(t2, 10);
        if v1 >= U64 || v2 >= U64 {
          return None;
        }
        if v1 != v2 {
          return Some(v1 < v2);
        }
      } else if t1 != t2 {
        return Some(TextLess(t1, t2));
      }
    }
    return Some(false);
  }

  // ---- tokens

  /** A token of a name; if it is a number, one that fits. */
  predicate Fits(t: string) {
    IsToken(t, DELIMITERS) && (AllDigits(t) ==> Numeral(t, 10) < U64)
  }

  ghost predicate FitAll(a: seq<string>) {
    forall t :: t in a ==> Fits(t)
  }

  predicate TokenLess(t: string, u: string) {
    if AllDigits(t) && AllDigits(u) then Numeral(t, 10) < Numeral(u, 10) else TextLess(t, u)
  }

  /** Same number, or same word. */
  predicate SameToken(t: string, u: string) {
    if AllDigits(t) && AllDigits(u) then Numeral(t, 10) == Numeral(u, 10) else t == u
  }

  predicate SameTokens(a: seq<string>, b: seq<string>) {
    |a| == |b| && forall i :: 0 <= i < |a| ==> SameToken(a[i], b[i])
  }

  lemma {:induction false} TextTrichotomy(a: string, b: string)
    ensures a == b || TextLess(a, b) || TextLess(b, a)
    ensures !(TextLess(a, b) && TextLess(b, a)) && !(a == b && TextLess(a, b))
  {
    if a != "" && b != "" {
      TextTrichotomy(a[1..], b[1..]);
      assert a[1..] == b[1..] && a[0] == b[0] ==> a == b by {
        assert a == [a[0]] + a[1..] && b == [b[0]] + b[1..];
      }
    }
  }

  lemma {:induction false} TextTransitive(a: string, b: string, c: string)
    requires TextLess(a, b) && TextLess(b, c)
    ensures TextLess(a, c)
  {
    if a != "" && a[0] == b[0] == c[0] {
      TextTransitive(a[1..], b[1..], c[1..]);
    }
  }

  lemma TokenTrichotomy(t: string, u: string)
    ensures SameToken(t, u) || TokenLess(t, u) || TokenLess(u, t)
    ensures !(TokenLess(t, u) && TokenLess(u, t)) && !(SameToken(t, u) && (TokenLess(t, u) || TokenLess(u, t)))
  {
    TextTrichotomy(t, u);
    TextTrichotomy(u, t);
  }

  /** As text the word m stands behind the number b and in front of the number a, although b is
      no smaller than a. */
  predicate Wedge(b: string, m: string, a: string) {
    && AllDigits(b) && AllDigits(a) && !AllDigits(m)
    && TextLess(b, m) && TextLess(m, a) && Numeral(a, 10) <= Numeral(b, 10)
  }

  /** Tokens are ordered as long as no word is wedged between two numbers. */
  lemma TokenTransitive(t: string, u: string, v: string)
    requires TokenLess(t, u) && TokenLess(u, v)
    ensures TokenLess(t, v) || Wedge(t, u, v) || Wedge(u, v, t) || Wedge(v, t, u)
  {
    hide Numeral, TextLess, AllDigits;
    TextTrichotomy(t, v);
    if TextLess(t, u) && TextLess(u, v) {
      TextTransitive(t, u, v);
    }
  }

  /** Tokens that are the same compare alike with every other token, again without a wedge. */
  lemma SameTokensCompareAlike(t: string, u: string, v: string)
    requires SameToken(t, u) && !Wedge(t, v, u) && !Wedge(u, v, t)
    ensures TokenLess(t, v) <==> TokenLess(u, v)
    ensures TokenLess(v, t) <==> TokenLess(v, u)
    ensures SameToken(t, v) <==> SameToken(u, v)
  {
    hide Numeral, TextLess, AllDigits;
    TextTrichotomy(t, v);
    TextTrichotomy(u, v);
  }

  // ---- token lists

  lemma CompareStep(a: seq<string>, b: seq<string>)
    requires FitAll(a) && FitAll(b) && a != [] && b != []
    ensures FitAll(a[1..]) && FitAll(b[1..])
    ensures Compare(a, b) ==
      if SameToken(a[0], b[0]) then Compare(a[1..], b[1..]) else Some(TokenLess(a[0], b[0]))
  {
    assert a[0] in a && b[0] in b;
    assert forall t :: t in a[1..] ==> t in a;
    assert forall t :: t in b[1..] ==> t in b;
  }

  /** When all numbers fit nothing throws, exactly one of less, equivalent and greater holds, and
      equivalent means the same tokens up to the spelling of numbers. */
  lemma {:induction false} Trichotomy(a: seq<string>, b: seq<string>)
    requires FitAll(a) && FitAll(b)
    ensures Compare(a, b).Some? && Compare(b, a).Some?
    ensures !(Compare(a, b).value && Compare(b, a).value)
    ensures !Compare(a, b).value && !Compare(b, a).value <==> SameTokens(a, b)
  {
    hide Fits, SameToken, TokenLess, Compare;
    if a == [] || b == [] {
      CompareEmpty(a, b);
      CompareEmpty(b, a);
    } else {
      CompareStep(a, b);
      CompareStep(b, a);
      TokenTrichotomy(a[0], b[0]);
      SameIsSymmetric(a[0], b[0]);
      Trichotomy(a[1..], b[1..]);
      SameStep(a, b);
    }
  }

  lemma SameIsSymmetric(t: string, u: string)
    ensures SameToken(t, u) <==> SameToken(u, t)
  {
  }

  lemma CompareEmpty(a: seq<string>, b: seq<string>)
    requires a == [] || b == []
    ensures Compare(a, b) == Some(a == [] && b != [])
  {
  }

  lemma SameStep(a: seq<string>, b: seq<string>)
    requires a != [] && b != []
    ensures SameTokens(a, b) <==> SameToken(a[0], b[0]) && SameTokens(a[1..], b[1..])
  {
    if SameToken(a[0], b[0]) && SameTokens(a[1..], b[1..]) {
      forall i | 0 <= i < |a| ensures SameToken(a[i], b[i]) {
        if i > 0 { assert SameToken(a[1..][i - 1], b[1..][i - 1]); }
      }
    }
  }

  // ---- vocabularies

  /** Some word of the vocabulary is wedged between two of its numbers. */
  ghost predicate Wedged(s: iset<string>) {
    exists b, m, a :: b in s && m in s && a in s && Wedge(b, m, a)
  }

  ghost predicate From(a: seq<string>, s: iset<string>) {
    FitAll(a) && forall t :: t in a ==> t in s
  }

  lemma NoWedge(s: iset<string>, b: string, m: string, a: string)
    requires !Wedged(s) && b in s && m in s && a in s
    ensures !Wedge(b, m, a)
  {
  }

  lemma NoWedges(s: iset<string>, t: string, u: string, v: string)
    requires !Wedged(s) && t in s && u in s && v in s
    ensures !Wedge(t, u, v) && !Wedge(u, v, t) && !Wedge(v, t, u)
    ensures !Wedge(t, v, u) && !Wedge(v, u, t) && !Wedge(u, t, v)
  {
    hide Wedge;
    NoWedge(s, t, u, v);
    NoWedge(s, u, v, t);
    NoWedge(s, v, t, u);
    NoWedge(s, t, v, u);
    NoWedge(s, v, u, t);
    NoWedge(s, u, t, v);
  }

  lemma {:induction false} Transitive(s: iset<string>, a: seq<string>, b: seq<string>, c: seq<string>)
    requires !Wedged(s) && From(a, s) && From(b, s) && From(c, s)
    requires Compare(a, b) == Some(true) && Compare(b, c) == Some(true)
    ensures Compare(a, c) == Some(true)
  {
    hide Fits, SameToken, TokenLess, Compare, Wedge, Wedged;
    if a == [] || b == [] || c == [] {
      if a == [] || b == [] { CompareEmpty(a, b); }
      if b == [] || c == [] { CompareEmpty(b, c); }
      if a == [] || c == [] { CompareEmpty(a, c); }
    } else {
      CompareStep(a, b);
      CompareStep(b, c);
      CompareStep(a, c);
      NoWedges(s, a[0], b[0], c[0]);
      if SameToken(a[0], b[0]) {
        SameTokensCompareAlike(a[0], b[0], c[0]);
        if SameToken(b[0], c[0]) { Transitive(s, a[1..], b[1..], c[1..]); }
      } else if SameToken(b[0], c[0]) {
        SameTokensCompareAlike(b[0], c[0], a[0]);
        SameIsSymmetric(a[0], b[0]);
        SameIsSymmetric(a[0], c[0]);
      } else {
        TokenTransitive(a[0], b[0], c[0]);
        TokenTrichotomy(a[0], c[0]);
      }
    }
  }

  lemma SameTransitive(s: iset<string>, a: seq<string>, b: seq<string>, c: seq<string>)
    requires !Wedged(s) && From(a, s) && From(b, s) && From(c, s) && SameTokens(a, b) && SameTokens(b, c)
    ensures SameTokens(a, c)
  {
    hide Fits, SameToken, TokenLess, Wedge, Wedged;
    forall i | 0 <= i < |a| ensures SameToken(a[i], c[i]) {
      assert a[i] in a && b[i] in b && c[i] in c && SameToken(a[i], b[i]) && SameToken(b[i], c[i]);
      NoWedges(s, a[i], b[i], c[i]);
      SameTokensCompareAlike(a[i], b[i], c[i]);
    }
  }

  /** The comparison of names as the map of local values uses it. */
  ghost predicate NameLess(x: string, y: string) {
    Compare(TokensOf(x, DELIMITERS), TokensOf(y, DELIMITERS)) == Some(true)
  }

  /** A name over the vocabulary, with numbers that fit. */
  ghost predicate NameFrom(x: string, s: iset<string>) {
    From(TokensOf(x, DELIMITERS), s)
  }

  /** What a map asks of its comparator, on three keys. */
  ghost predicate Ordered(x: string, y: string, z: string) {
    && !NameLess(x, x)
    && (NameLess(x, y) && NameLess(y, z) ==> NameLess(x, z))
    && (!NameLess(x, y) && !NameLess(y, x) && !NameLess(y, z) && !NameLess(z, y) ==>
          !NameLess(x, z) && !NameLess(z, x))
  }

  /** The names over the vocabulary are in strict weak order. */
  ghost predicate Orders(s: iset<string>) {
    forall x, y, z :: NameFrom(x, s) && NameFrom(y, s) && NameFrom(z, s) ==> Ordered(x, y, z)
  }

  lemma NamesOrdered(s: iset<string>, x: string, y: string, z: string)
    requires !Wedged(s) && NameFrom(x, s) && NameFrom(y, s) && NameFrom(z, s)
    ensures Ordered(x, y, z)
    ensures !NameLess(x, y) && !NameLess(y, x) <==>
      SameTokens(TokensOf(x, DELIMITERS), TokensOf(y, DELIMITERS))
  {
    hide Compare, TokensOf, SameTokens, FitAll, Wedged;
    var a, b, c := TokensOf(x, DELIMITERS), TokensOf(y, DELIMITERS), TokensOf(z, DELIMITERS);
    Trichotomy(a, a);
    Trichotomy(a, b);
    Trichotomy(b, c);
    Trichotomy(a, c);
    if NameLess(x, y) && NameLess(y, z) { Transitive(s, a, b, c); }
    if SameTokens(a, b) && SameTokens(b, c) { SameTransitive(s, a, b, c); }
  }

  lemma OneTokenNames(s: iset<string>, x: string, y: string)
    requires x in s && Fits(x) && Fits(y)
    ensures NameFrom(x, s)
    ensures NameLess(x, y) <==> !SameToken(x, y) && TokenLess(x, y)
  {
    OneToken(x, DELIMITERS);
    OneToken(y, DELIMITERS);
    CompareStep([x], [y]);
  }

  /** A wedge breaks the order: the two numbers and the word go round in a circle, or two
      spellings of one number stand on both sides of the word. */
  lemma WedgeBreaks(s: iset<string>, b: string, m: string, a: string)
    requires b in s && m in s && a in s && Fits(b) && Fits(m) && Fits(a) && Wedge(b, m, a)
    ensures !Orders(s)
  {
    OneTokenNames(s, b, m);
    OneTokenNames(s, m, a);
    OneTokenNames(s, b, a);
    OneTokenNames(s, a, b);
    assert !Ordered(b, m, a);
  }

  /** The names over any vocabulary whose numbers fit are in strict weak order exactly when no
      word of it is wedged between two of its numbers. */
  lemma OrdersExactly(s: iset<string>)
    requires forall t :: t in s ==> Fits(t)
    ensures Orders(s) <==> !Wedged(s)
  {
    if Wedged(s) {
      var b, m, a :| b in s && m in s && a in s && Wedge(b, m, a);
      WedgeBreaks(s, b, m, a);
    } else {
      forall x, y, z | NameFrom(x, s) && NameFrom(y, s) && NameFrom(z, s) ensures Ordered(x, y, z) {
        NamesOrdered(s, x, y, z);
      }
    }
  }

  // ---- numbers and plain words

  /** A number that fits, or a word that does not start with a digit. */
  predicate Lawful(t: string) {
    Fits(t) && (IsDigit(t[0]) ==> AllDigits(t))
  }

  ghost const LAWFUL: iset<string> := iset t | Lawful(t)

  /** A word in front of which, or behind which, all numbers stand is never wedged. */
  lemma LawfulWords(b: string, m: string, a: string)
    requires Lawful(m) && !AllDigits(m) && AllDigits(b) && AllDigits(a) && b != "" && a != ""
    ensures !(TextLess(b, m) && TextLess(m, a))
  {
  }

  lemma LawfulIsNotWedged()
    ensures !Wedged(LAWFUL)
  {
    forall b, m, a | b in LAWFUL && m in LAWFUL && a in LAWFUL ensures !Wedge(b, m, a) {
      if AllDigits(b) && AllDigits(a) && !AllDigits(m) {
        LawfulWords(b, m, a);
      }
    }
  }

  ghost predicate LawfulName(x: string) {
    NameFrom(x, LAWFUL)
  }

  /** Names whose tokens are numbers or words form a strict weak order: irreflexive, transitive,
      with an equivalence that is transitive and means equal tokens up to numeric value. */
  lemma StrictWeakOrder(x: string, y: string, z: string)
    requires LawfulName(x) && LawfulName(y) && LawfulName(z)
    ensures !NameLess(x, x)
    ensures NameLess(x, y) && NameLess(y, z) ==> NameLess(x, z)
    ensures !NameLess(x, y) && !NameLess(y, x) && !NameLess(y, z) && !NameLess(z, y) ==>
      !NameLess(x, z) && !NameLess(z, x)
    ensures !NameLess(x, y) && !NameLess(y, x) <==>
      SameTokens(TokensOf(x, DELIMITERS), TokensOf(y, DELIMITERS))
  {
    hide NameFrom, NameLess, SameTokens, Wedged;
    LawfulIsNotWedged();
    NamesOrdered(LAWFUL, x, y, z);
  }

  // ---- words that start with a digit

  function Repeat(c: char, k: nat): (s: string)
    ensures |s| == k && forall i :: 0 <= i < k ==> s[i] == c
  {
    if k == 0 then "" else [c] + Repeat(c, k - 1)
  }

  function Pow10(k: nat): (p: nat)
    ensures p > 0
  {
    if k == 0 then 1 else 10 * Pow10(k - 1)
  }

  lemma Pow10Of19()
    ensures Pow10(19) == 10_000_000_000_000_000_000 < U64 < 2 * Pow10(19)
  {
    assert Pow10(4) == 10_000;
    assert Pow10(8) == 100_000_000;
    assert Pow10(12) == 1_000_000_000_000;
    assert Pow10(16) == 10_000_000_000_000_000;
  }

  lemma {:induction false} PowGrows(j: nat, k: nat)
    requires j <= k
    ensures Pow10(j) <= Pow10(k)
    decreases k
  {
    if j < k { PowGrows(j, k - 1); }
  }

  lemma TenTimes(d: nat, p: nat, v: nat)
    requires v >= d * p
    ensures v * 10 >= d * (10 * p)
  {
  }

  /** A numeral is worth at least its first digit at its place. */
  lemma {:induction false} NumeralAtLeast(n: string)
    requires n != "" && AllDigits(n)
    ensures Numeral(n, 10) >= DigitValue(n[0]) * Pow10(|n| - 1)
  {
    if |n| > 1 {
      var front := n[..|n| - 1];
      NumeralAtLeast(front);
      assert front[0] == n[0] && Pow10(|n| - 1) == 10 * Pow10(|n| - 2);
      TenTimes(DigitValue(n[0]), Pow10(|n| - 2), Numeral(front, 10));
    } else {
      assert n[..0] == "" && Pow10(0) == 1;
    }
  }

  lemma {:induction false} NumeralOfZeros(zeros: string, n: string)
    requires forall i :: 0 <= i < |zeros| ==> zeros[i] == '0'
    ensures Numeral(zeros + n, 10) == Numeral(n, 10)
    decreases |zeros| + |n|
  {
    var text := zeros + n;
    if n != "" {
      assert text[..|text| - 1] == zeros + n[..|n| - 1];
      NumeralOfZeros(zeros, n[..|n| - 1]);
    } else if zeros != "" {
      assert text[..|text| - 1] == zeros[..|zeros| - 1] + "";
      NumeralOfZeros(zeros[..|zeros| - 1], "");
    } else {
      assert text == n;
    }
  }

  lemma {:induction false} NumeralOfNines(n: string)
    requires forall i :: 0 <= i < |n| ==> n[i] == '9'
    ensures Numeral(n, 10) == Pow10(|n|) - 1
  {
    if n != "" { NumeralOfNines(n[..|n| - 1]); }
  }

  /** As text, 19 nines come last of all numbers that fit into 64 bits. */
  const NINES := Repeat('9', 19)

  lemma NinesFit()
    ensures Fits(NINES) && AllDigits(NINES)
  {
    NumeralOfNines(NINES);
    Pow10Of19();
  }

  lemma {:induction false} NinesAreLast(n: string, k: nat)
    requires AllDigits(n) && (|n| <= k || (n != "" && n[0] < '9' && k > 0))
    ensures n == Repeat('9', k) || TextLess(n, Repeat('9', k))
    decreases k
  {
    if n != "" && n[0] == '9' {
      NinesAreLast(n[1..], k - 1);
      assert n == [n[0]] + n[1..];
    }
  }

  lemma NumbersUpToNines(n: string)
    requires Fits(n) && AllDigits(n)
    ensures n == NINES || TextLess(n, NINES)
  {
    if |n| > 19 && n[0] == '9' {
      NumeralAtLeast(n);
      PowGrows(19, |n| - 1);
      Pow10Of19();
    }
    NinesAreLast(n, 19);
  }

  function LeadingZeros(t: string): (k: nat)
    ensures k <= |t| && (forall i :: 0 <= i < k ==> t[i] == '0') && (k < |t| ==> t[k] != '0')
  {
    if t != "" && t[0] == '0' then 1 + LeadingZeros(t[1..]) else 0
  }

  lemma {:induction false} TextLessAt(a: string, b: string, k: nat)
    requires k < |b| && k <= |a| && a[..k] == b[..k] && (k < |a| ==> a[k] < b[k])
    ensures TextLess(a, b)
  {
    if k > 0 {
      assert a[0] == a[..k][0] == b[..k][0] == b[0];
      assert a[1..][..k - 1] == a[..k][1..] == b[..k][1..] == b[1..][..k - 1];
      TextLessAt(a[1..], b[1..], k - 1);
    }
  }

  /** Leading zeros put a number of any size in front of the word. */
  lemma ZerosInFront(t: string, k: nat)
    requires k == LeadingZeros(t) < |t| && t[k] > '0' && AllDigits(NINES)
    ensures var b := Repeat('0', k + 1) + NINES;
      AllDigits(b) && TextLess(b, t) && Numeral(b, 10) == Numeral(NINES, 10)
  {
    hide Numeral, TextLess;
    NumeralOfZeros(Repeat('0', k + 1), NINES);
    SameZeros(t, k, NINES);
    TextLessAt(Repeat('0', k + 1) + NINES, t, k);
  }

  lemma SameZeros(t: string, k: nat, rest: string)
    requires k == LeadingZeros(t) < |t|
    ensures var b := Repeat('0', k + 1) + rest; b[..k] == t[..k] && b[k] == '0'
    ensures AllDigits(rest) ==> AllDigits(Repeat('0', k + 1) + rest)
  {
  }

  /** Or the word stands between two spellings of zero. */
  lemma BetweenZeros(t: string, k: nat)
    requires k == LeadingZeros(t) < |t| && t[k] < '0' && k > 0
    ensures TextLess("0", t) && TextLess(t, Repeat('0', k + 1))
    ensures Numeral("0", 10) == 0 == Numeral(Repeat('0', k + 1), 10)
  {
    var zeros := Repeat('0', k + 1);
    NumeralOfZeros(zeros, "");
    assert zeros + "" == zeros && "0"[..0] == "";
    TextLessAt("0", t, 1);
    TextLessAt(t, zeros, k);
  }

  /** A word that starts with a digit and stands in front of a number is wedged. */
  lemma MixedIsWedged(t: string) returns (b: string, a: string)
    requires IsToken(t, DELIMITERS) && IsDigit(t[0]) && !AllDigits(t) && TextLess(t, NINES)
    ensures Lawful(a) && Lawful(b) && Wedge(b, t, a)
  {
    hide Numeral, TextLess;
    var k := LeadingZeros(t);
    NinesFit();
    if t[k] > '0' {
      ZerosInFront(t, k);
      b, a := Repeat('0', k + 1) + NINES, NINES;
    } else {
      BetweenZeros(t, k);
      b, a := "0", Repeat('0', k + 1);
    }
  }

  /** Beyond numbers and plain words: a word that starts with a digit can be added to them exactly
      when it stands, as text, behind 19 nines, that is, behind all numbers. */
  lemma MixedTokenExactly(t: string)
    requires IsToken(t, DELIMITERS) && IsDigit(t[0]) && !AllDigits(t)
    ensures Orders(LAWFUL + iset{t}) <==> !TextLess(t, NINES)
    ensures TextLess(t, NINES) <==> exists n :: Fits(n) && AllDigits(n) && TextLess(t, n)
  {
    hide TextLess, Wedge, AllDigits, Numeral, IsToken, Orders;
    var s := LAWFUL + iset{t};
    OrdersExactly(s);
    NinesFit();
    if TextLess(t, NINES) {
      var b, a := MixedIsWedged(t);
      assert b in s && t in s && a in s;
    } else {
      forall n | Fits(n) && AllDigits(n) ensures !TextLess(t, n) {
        BehindAllNumbers(t, n);
      }
      forall b, m, a | b in s && m in s && a in s ensures !Wedge(b, m, a) {
        BehindIsNoWedge(t, b, m, a);
      }
    }
  }

  lemma BehindAllNumbers(t: string, n: string)
    requires Fits(n) && AllDigits(n) && !TextLess(t, NINES)
    ensures !TextLess(t, n)
  {
    hide TextLess, AllDigits, Numeral;
    NumbersUpToNines(n);
    if TextLess(t, n) && n != NINES { TextTransitive(t, n, NINES); }
  }

  lemma BehindIsNoWedge(t: string, b: string, m: string, a: string)
    requires Fits(t) && !AllDigits(t) && !TextLess(t, NINES)
    requires (Lawful(b) || b == t) && (Lawful(m) || m == t) && (Lawful(a) || a == t)
    ensures !Wedge(b, m, a)
  {
    hide TextLess, AllDigits, Numeral;
    if AllDigits(b) && AllDigits(a) && !AllDigits(m) {
      if m == t {
        BehindAllNumbers(t, a);
      } else {
        LawfulWords(b, m, a);
      }
    }
  }

  /** So 10 comes before 1a, 1a before 9, and 9 before 10; but 9a is behind all numbers. */
  lemma MixedTokensMakeACycle()
    ensures NameLess("10", "1a") && NameLess("1a", "9") && NameLess("9", "10")
    ensures Orders(LAWFUL + iset{"9a"})
  {
    OneToken("10", DELIMITERS);
    OneToken("1a", DELIMITERS);
    OneToken("9", DELIMITERS);
    assert !IsDigit("1a"[1]);
    assert "10"[1..] == "0" && "1a"[1..] == "a";
    assert TextLess("0", "a");
    assert "10"[..1] == "1" && "1"[..0] == "" && "9"[..0] == "";
    assert Numeral("1", 10) == 1 && Numeral("9", 10) == 9;
    NineIsBehind();
  }

  lemma NineIsBehind()
    ensures Orders(LAWFUL + iset{"9a"})
  {
    assert !IsDigit("9a"[1]) && "9a"[1..] == "a" && NINES[0] == '9' && NINES[1] == '9';
    assert NINES[1..][0] == '9';
    MixedTokenExactly("9a");
  }
}
