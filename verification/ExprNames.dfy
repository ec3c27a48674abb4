/** The names and numbers of the expression grammar of src/eval.cc, described as texts: what the
    lexical rules match, and where. */
module ExprNames {
  import opened Common
  import opened Text
  import opened ExprGrammar

  // ---- characters

  const SMALL: string := "abcdefghijklmnopqrstuvwxyz"
  const LARGE: string := "ABCDEFGHIJKLMNOPQRSTUVWXYZ"

  lemma LettersAre(c: char)
    ensures IsHead(c) <==> c in SMALL || c in LARGE || c == '_' || c == '$'
  {
    SmallAre(c);
    LargeAre(c);
  }

  lemma SmallAre(c: char)
    ensures c in SMALL <==> 'a' <= c <= 'z'
  {
    if 'a' <= c <= 'z' { assert SMALL[c as int - 'a' as int] == c; }
  }

  lemma LargeAre(c: char)
    ensures c in LARGE <==> 'A' <= c <= 'Z'
  {
    if 'A' <= c <= 'Z' { assert LARGE[c as int - 'A' as int] == c; }
  }

  lemma DigitsAre(c: char)
    ensures IsDigit(c) <==> c in "0123456789"
    ensures IsXDigit(c) <==> c in "0123456789abcdefABCDEF"
  {
  }

  /** text stands in s at position i. */
  ghost predicate Sits(s: string, i: nat, text: string) {
    i + |text| <= |s| && s[i..i + |text|] == text
  }

  lemma SitsAt(s: string, i: nat, text: string)
    requires Sits(s, i, text)
    ensures forall k :: 0 <= k < |text| ==> s[i + k] == text[k]
  {
  }

  lemma SliceSitsThere(s: string, i: nat, j: nat)
    requires i <= j <= |s|
    ensures Sits(s, i, s[i..j])
  {
  }

  lemma CharSits(s: string, i: nat, c: char)
    ensures Sits(s, i, [c]) <==> At(s, i, c)
  {
    if Sits(s, i, [c]) { assert s[i..i + 1][0] == c; }
  }

  lemma NothingSits(s: string, i: nat)
    requires i <= |s|
    ensures Sits(s, i, "")
  {
  }

  lemma SitsFits(s: string, i: nat, text: string)
    requires Sits(s, i, text)
    ensures i + |text| <= |s|
  {
  }

  lemma SitsApart(s: string, i: nat, a: string, b: string)
    ensures Sits(s, i, a + b) <==> Sits(s, i, a) && Sits(s, i + |a|, b)
  {
    if i + |a| + |b| <= |s| {
      assert s[i..i + |a| + |b|] == s[i..i + |a|] + s[i + |a|..i + |a| + |b|];
      assert (a + b)[..|a|] == a && (a + b)[|a|..] == b;
    }
  }

  // ---- words and numbers

  predicate IsWordChar(c: char) { IsHead(c) || IsDigit(c) }

  predicate IsWord(w: string) {
    w != "" && IsHead(w[0]) && forall k :: 0 <= k < |w| ==> IsWordChar(w[k])
  }

  predicate IsNumber(w: string) { w != "" && forall k :: 0 <= k < |w| ==> IsDigit(w[k]) }

  predicate IsHexNumber(w: string) { w != "" && forall k :: 0 <= k < |w| ==> IsXDigit(w[k]) }

  /** The longest run of word characters, or of digits, from i on. */
  lemma {:induction false} WordEndExactly(s: string, i: nat, j: nat)
    requires i <= j <= |s|
    ensures j == WordEnd(s, i)
      <==> (forall k :: i <= k < j ==> IsWordChar(s[k])) && (j < |s| ==> !IsWordChar(s[j]))
    decreases |s| - i
  {
    if i < |s| {
      if i < j && IsWordChar(s[i]) { WordEndExactly(s, i + 1, j); }
    }
  }

  lemma {:induction false} DigitsEndExactly(s: string, i: nat, j: nat)
    requires i <= j <= |s|
    ensures j == DigitsEnd(s, i)
      <==> (forall k :: i <= k < j ==> IsDigit(s[k])) && (j < |s| ==> !IsDigit(s[j]))
    decreases |s| - i
  {
    if i < |s| {
      if i < j && IsDigit(s[i]) { DigitsEndExactly(s, i + 1, j); }
    }
  }

  lemma {:induction false} XDigitsEndExactly(s: string, i: nat, j: nat)
    requires i <= j <= |s|
    ensures j == XDigitsEnd(s, i)
      <==> (forall k :: i <= k < j ==> IsXDigit(s[k])) && (j < |s| ==> !IsXDigit(s[j]))
    decreases |s| - i
  {
    if i < |s| {
      if i < j && IsXDigit(s[i]) { XDigitsEndExactly(s, i + 1, j); }
    }
  }

  ghost predicate IsHexText(t: string) {
    exists w, h :: IsHex(t, w, h)
  }

  ghost predicate IsHex(t: string, w: string, h: string) {
    t == w + ("'h" + h) && IsNumber(w) && IsHexNumber(h)
  }

  /** A hexadecimal number: a width, 'h, and as many hexadecimal digits as follow. */
  lemma HexExactly(s: string, i: nat, j: nat)
    requires i <= j <= |s|
    ensures HexEnd(s, i) == Some(j) <==> IsHexText(s[i..j]) && (j < |s| ==> !IsXDigit(s[j]))
  {
    if HexEnd(s, i) == Some(j) {
      HexTaken(s, i, j);
    }
    if w, h :| IsHex(s[i..j], w, h) {
      HexSits(s, i, j, w, h);
      XDigitsEndExactly(s, i + |w| + 2, j);
    }
  }

  lemma HexTaken(s: string, i: nat, j: nat)
    requires i <= j <= |s| && HexEnd(s, i) == Some(j)
    ensures IsHexText(s[i..j]) && (j < |s| ==> !IsXDigit(s[j]))
  {
    var d := DigitsEnd(s, i);
    DigitsEndExactly(s, i, d);
    XDigitsEndExactly(s, d + 2, j);
    var w, h := s[i..d], s[d + 2..j];
    assert s[d..j] == "'h" + h;
    assert s[i..j] == w + s[d..j];
    assert IsHex(s[i..j], w, h);
  }

  /** A width in front of 'h ends there. */
  lemma HexSits(s: string, i: nat, j: nat, w: string, h: string)
    requires i <= j <= |s| && IsHex(s[i..j], w, h)
    ensures DigitsEnd(s, i) == i + |w| && At(s, i + |w|, '\'') && At(s, i + |w| + 1, 'h')
    ensures j == i + |w| + 2 + |h| && forall k :: i + |w| + 2 <= k < j ==> IsXDigit(s[k])
  {
    assert Sits(s, i, w + ("'h" + h));
    SitsApart(s, i, w, "'h" + h);
    SitsApart(s, i + |w|, "'h", h);
    SitsAt(s, i, w);
    SitsAt(s, i + |w|, "'h");
    SitsAt(s, i + |w| + 2, h);
    forall k | i <= k < i + |w| ensures IsDigit(s[k]) {
      assert s[k] == w[k - i];
    }
    forall k | i + |w| + 2 <= k < j ensures IsXDigit(s[k]) {
      assert s[k] == h[k - (i + |w| + 2)];
    }
    DigitsEndExactly(s, i, i + |w|);
  }

  // ---- names

  /** What may stand in brackets: a word, a bit, or a slice. */
  datatype Select = Field(word: string) | Bits(number: string) | Slice(high: string, low: string)

  predicate IsSelect(x: Select) {
    match x
    case Field(w) => IsWord(w)
    case Bits(n) => IsNumber(n)
    case Slice(h, l) => IsNumber(h) && IsNumber(l)
  }

  function SelectText(x: Select): string {
    match x
    case Field(w) => "[" + (w + "]")
    case Bits(n) => "[" + (n + "]")
    case Slice(h, l) => "[" + (h + (":" + (l + "]")))
  }

  /** Rounds of a digit and perhaps a colon with digits: the rest of a number, or of a slice. */
  lemma {:induction false} RoundsExactly(s: string, i: nat)
    requires i <= |s|
    ensures var d := DigitsEnd(s, i);
      SliceRounds(s, i) ==
        if d > i && At(s, d, ':') && DigitsEnd(s, d + 1) > d + 1 then DigitsEnd(s, d + 1) else d
    decreases |s| - i
  {
    if i < |s| && IsDigit(s[i]) {
      if At(s, i + 1, ':') && DigitsEnd(s, i + 2) > i + 2 {
        var e := DigitsEnd(s, i + 2);
        assert DigitsEnd(s, i) == i + 1;
        DigitsEndExactly(s, i + 2, e);
      } else {
        RoundsExactly(s, i + 1);
      }
    }
  }

  /** A select is matched from its bracket to its bracket, and anything else in an open bracket makes
      the rule fail for good. */
  lemma SelectExactly(s: string, i: nat, j: nat)
    requires i <= |s|
    ensures VariableTail(s, i) == Matched(j) <==>
      exists x :: IsSelect(x) && Sits(s, i, SelectText(x)) && j == i + |SelectText(x)|
    ensures VariableTail(s, i) == NoMatch <==> !At(s, i, '[')
  {
    if VariableTail(s, i) == Matched(j) {
      var x := TakenSelect(s, i, j);
    }
    if x :| IsSelect(x) && Sits(s, i, SelectText(x)) && j == i + |SelectText(x)| {
      SelectTaken(s, i, x);
    }
  }

  lemma TakenSelect(s: string, i: nat, j: nat) returns (x: Select)
    requires i <= |s| && VariableTail(s, i) == Matched(j)
    ensures IsSelect(x) && Sits(s, i, SelectText(x)) && j == i + |SelectText(x)|
  {
    if IsHead(s[i + 1]) {
      var e := WordEnd(s, i + 1);
      WordEndExactly(s, i + 1, e);
      x := Field(s[i + 1..e]);
      SliceSitsThere(s, i + 1, e);
      Bracketed(s, i, s[i + 1..e]);
    } else {
      x := TakenNumbers(s, i, j);
    }
  }

  lemma Bracketed(s: string, i: nat, w: string)
    requires At(s, i, '[') && Sits(s, i + 1, w) && At(s, i + 1 + |w|, ']')
    ensures Sits(s, i, "[" + (w + "]"))
  {
    hide Sits;
    CharSits(s, i, '[');
    CharSits(s, i + 1 + |w|, ']');
    SitsApart(s, i + 1, w, "]");
    SitsApart(s, i, "[", w + "]");
  }

  lemma TakenNumbers(s: string, i: nat, j: nat) returns (x: Select)
    requires i <= |s| && VariableTail(s, i) == Matched(j) && !IsHead(s[i + 1])
    ensures IsSelect(x) && Sits(s, i, SelectText(x)) && j == i + |SelectText(x)|
  {
    hide DigitsEnd, SliceRounds, Sits;
    var d := DigitsEnd(s, i + 1);
    SliceSitsThere(s, i + 1, d);
    DigitsEndExactly(s, i + 1, d);
    RoundsExactly(s, i + 1);
    assert d > i + 1 by { assert IsDigit(s[i + 1]); }
    if At(s, d, ':') && DigitsEnd(s, d + 1) > d + 1 {
      var e := DigitsEnd(s, d + 1);
      DigitsEndExactly(s, d + 1, e);
      x := Slice(s[i + 1..d], s[d + 1..e]);
      SliceSits(s, i, d, e);
    } else {
      x := Bits(s[i + 1..d]);
      Bracketed(s, i, s[i + 1..d]);
    }
  }

  lemma SliceSits(s: string, i: nat, d: nat, e: nat)
    requires i + 1 <= d < e < |s| && s[i] == '[' && s[d] == ':' && s[e] == ']'
    ensures var h, l := s[i + 1..d], s[d + 1..e]; Sits(s, i, "[" + (h + (":" + (l + "]"))))
  {
    var h, l := s[i + 1..d], s[d + 1..e];
    hide Sits;
    CharSits(s, i, '[');
    CharSits(s, d, ':');
    CharSits(s, e, ']');
    SliceSitsThere(s, i + 1, d);
    SliceSitsThere(s, d + 1, e);
    SitsApart(s, d + 1, l, "]");
    SitsApart(s, d, ":", l + "]");
    SitsApart(s, i + 1, h, ":" + (l + "]"));
    SitsApart(s, i, "[", h + (":" + (l + "]")));
  }

  lemma SelectTaken(s: string, i: nat, x: Select)
    requires IsSelect(x) && Sits(s, i, SelectText(x))
    ensures VariableTail(s, i) == Matched(i + |SelectText(x)|)
  {
    hide WordEnd, DigitsEnd, SliceRounds, Sits;
    match x
    case Field(w) => FieldTaken(s, i, w);
    case Bits(n) => BitsTaken(s, i, n);
    case Slice(h, l) => SliceEnds(s, i, h, l);
  }

  lemma FieldTaken(s: string, i: nat, w: string)
    requires IsWord(w) && Sits(s, i, "[" + (w + "]"))
    ensures VariableTail(s, i) == Matched(i + 2 + |w|)
  {
    hide WordEnd, Sits;
    Opened(s, i, w, "]");
    WordEndExactly(s, i + 1, i + 1 + |w|);
  }

  lemma BitsTaken(s: string, i: nat, n: string)
    requires IsNumber(n) && Sits(s, i, "[" + (n + "]"))
    ensures VariableTail(s, i) == Matched(i + 2 + |n|)
  {
    hide DigitsEnd, SliceRounds, Sits;
    Opened(s, i, n, "]");
    DigitsEndExactly(s, i + 1, i + 1 + |n|);
    RoundsExactly(s, i + 1);
  }

  lemma SliceEnds(s: string, i: nat, h: string, l: string)
    requires IsNumber(h) && IsNumber(l) && Sits(s, i, "[" + (h + (":" + (l + "]"))))
    ensures At(s, i, '[') && i + 1 < |s| && IsDigit(s[i + 1]) && At(s, i + 2 + |h| + |l|, ']')
    ensures SliceRounds(s, i + 1) == i + 2 + |h| + |l|
  {
    hide DigitsEnd, SliceRounds, Sits;
    var d := i + 1 + |h|;
    Opened(s, i, h, ":" + (l + "]"));
    SitsApart(s, d, ":", l + "]");
    SitsApart(s, d + 1, l, "]");
    SitsAt(s, d + 1, l);
    SitsAt(s, d + 1 + |l|, "]");
    SitsFits(s, d + 1 + |l|, "]");
    assert s[d + 1 + |l| + 0] == ']';
    forall k | d + 1 <= k < d + 1 + |l| ensures IsDigit(s[k]) {
      assert s[k] == l[k - d - 1];
    }
    DigitsEndExactly(s, i + 1, d);
    DigitsEndExactly(s, d + 1, d + 1 + |l|);
    RoundsExactly(s, i + 1);
  }

  /** Behind the bracket comes w, and behind that rest. */
  lemma Opened(s: string, i: nat, w: string, rest: string)
    requires Sits(s, i, "[" + (w + rest)) && rest != "" && w != ""
    ensures s[i] == '[' && s[i + 1] == w[0] && i + 1 + |w| < |s| && s[i + 1 + |w|] == rest[0]
    ensures Sits(s, i + 1 + |w|, rest) && forall k :: i + 1 <= k < i + 1 + |w| ==> s[k] == w[k - i - 1]
  {
    SitsApart(s, i, "[", w + rest);
    SitsApart(s, i + 1, w, rest);
    SitsAt(s, i, "[");
    SitsAt(s, i + 1, w);
    SitsAt(s, i + 1 + |w|, rest);
    assert s[i + 1] == w[0];
    forall k | i + 1 <= k < i + 1 + |w| ensures s[k] == w[k - i - 1] {
      var m := k - i - 1;
      assert s[i + 1 + m] == w[m];
    }
  }

  // ---- whole names

  /** A part of a dotted name: a word with its selects. */
  datatype Part = Part(word: string, selects: seq<Select>)

  predicate AreSelects(xs: seq<Select>) { forall k :: 0 <= k < |xs| ==> IsSelect(xs[k]) }

  predicate IsPart(p: Part) { IsWord(p.word) && AreSelects(p.selects) }

  predicate AreParts(ps: seq<Part>) { forall k :: 0 <= k < |ps| ==> IsPart(ps[k]) }

  function SelectsText(xs: seq<Select>): string {
    if xs == [] then "" else SelectText(xs[0]) + SelectsText(xs[1..])
  }

  function PartText(p: Part): string { p.word + SelectsText(p.selects) }

  /** The parts behind the first one, each after a dot. */
  function RestText(ps: seq<Part>): string {
    if ps == [] then "" else "." + (PartText(ps[0]) + RestText(ps[1..]))
  }

  function NameText(ps: seq<Part>): string
    requires ps != []
  {
    PartText(ps[0]) + RestText(ps[1..])
  }

  /** The name in parts. */
  ghost predicate Spells(t: string, ps: seq<Part>) { ps != [] && AreParts(ps) && t == NameText(ps) }

  ghost predicate IsName(t: string) { exists ps :: Spells(t, ps) }

  predicate WordCharAt(s: string, k: nat) { k < |s| && IsWordChar(s[k]) }

  /** Behind a part without selects the word must end. */
  predicate WordOver(s: string, p: Part, k: nat) { p.selects == [] ==> !WordCharAt(s, k) }

  /** What the rule goes on with once the parts up to k are matched. */
  function Onwards(s: string, k: nat): Scan
    requires k <= |s|
  {
    match VariableTails(s, k)
    case Matched(j) => VariableRest(s, j)
    case _ => Raised
  }

  lemma {:induction false} TailsGoOn(s: string, i: nat, xs: seq<Select>)
    requires AreSelects(xs) && Sits(s, i, SelectsText(xs))
    ensures VariableTails(s, i) == VariableTails(s, i + |SelectsText(xs)|)
    decreases |xs|
  {
    hide SelectText, VariableTail, IsSelect, Sits;
    if xs != [] {
      var n, more := |SelectText(xs[0])|, SelectsText(xs[1..]);
      SitsApart(s, i, SelectText(xs[0]), more);
      SelectTaken(s, i, xs[0]);
      SitsFits(s, i + n, more);
      TailsGoOn(s, i + n, xs[1..]);
    }
  }

  lemma SelectsOpen(xs: seq<Select>)
    requires xs != []
    ensures SelectsText(xs) != "" && SelectsText(xs)[0] == '['
  {
  }

  lemma NoSelects()
    ensures SelectsText([]) == "" && AreSelects([])
  {
  }

  lemma PartGoesOn(s: string, i: nat, p: Part)
    requires IsPart(p) && Sits(s, i, PartText(p)) && WordOver(s, p, i + |PartText(p)|)
    ensures Variable2(s, i) == VariableTails(s, i + |PartText(p)|)
  {
    hide SelectText, VariableTails, WordEnd, SelectsText, Sits;
    var e := i + |p.word|;
    SitsApart(s, i, p.word, SelectsText(p.selects));
    SitsAt(s, i, p.word);
    SitsFits(s, i, p.word);
    SitsFits(s, e, SelectsText(p.selects));
    forall k | i <= k < e ensures IsWordChar(s[k]) {
      assert s[k] == p.word[k - i];
    }
    assert s[i] == p.word[0];
    if p.selects != [] {
      SelectsOpen(p.selects);
      SitsAt(s, e, SelectsText(p.selects));
      assert s[e] == '[';
    }
    if p.selects == [] { NoSelects(); }
    WordEndExactly(s, i, e);
    TailsGoOn(s, e, p.selects);
  }

  lemma {:induction false} RestGoesOn(s: string, i: nat, ps: seq<Part>)
    requires ps != [] && AreParts(ps) && Sits(s, i, RestText(ps))
    requires WordOver(s, ps[|ps| - 1], i + |RestText(ps)|)
    ensures VariableRest(s, i) == Onwards(s, i + |RestText(ps)|)
    decreases |ps|
  {
    hide PartText, SelectsText, VariableTails, Variable2, Sits;
    var more := RestText(ps[1..]);
    SitsApart(s, i, ".", PartText(ps[0]) + more);
    CharSits(s, i, '.');
    SitsFits(s, i + 1, PartText(ps[0]) + more);
    SitsApart(s, i + 1, PartText(ps[0]), more);
    var k := i + 1 + |PartText(ps[0])|;
    if |ps| > 1 {
      DotEndsPart(s, k, ps[1..]);
      PartGoesOn(s, i + 1, ps[0]);
      RestGoesOn(s, k, ps[1..]);
    } else {
      PartGoesOn(s, i + 1, ps[0]);
      VariableTailsEnd(s, k);
    }
  }

  lemma VariableTailsEnd(s: string, k: nat)
    requires k <= |s|
    ensures VariableTails(s, k).Matched? || VariableTails(s, k).Raised?
  {
  }

  /** Where more parts follow, a dot ends the part before. */
  lemma DotEndsPart(s: string, k: nat, ps: seq<Part>)
    requires ps != [] && Sits(s, k, RestText(ps))
    ensures At(s, k, '.') && !WordCharAt(s, k) && VariableTails(s, k) == Matched(k)
  {
    SitsAt(s, k, RestText(ps));
    assert s[k] == '.';
  }

  lemma NameGoesOn(s: string, i: nat, ps: seq<Part>)
    requires ps != [] && AreParts(ps) && Sits(s, i, NameText(ps))
    requires WordOver(s, ps[|ps| - 1], i + |NameText(ps)|)
    ensures Variable(s, i) == Onwards(s, i + |NameText(ps)|)
  {
    hide PartText, VariableTails, Variable2;
    var k := i + |PartText(ps[0])|;
    SitsApart(s, i, PartText(ps[0]), RestText(ps[1..]));
    VariableTailsEnd(s, k);
    if |ps| > 1 {
      DotEndsPart(s, k, ps[1..]);
      PartGoesOn(s, i, ps[0]);
      RestGoesOn(s, k, ps[1..]);
    } else {
      PartGoesOn(s, i, ps[0]);
    }
  }

  // ---- what was matched

  lemma {:induction false} TailsTaken(s: string, i: nat) returns (k: nat, xs: seq<Select>)
    requires i <= |s|
    ensures i <= k <= |s| && AreSelects(xs) && Sits(s, i, SelectsText(xs)) && k == i + |SelectsText(xs)|
    ensures VariableTails(s, i) == match VariableTail(s, k) case Raised => Raised case _ => Matched(k)
    ensures VariableTails(s, i).Matched? ==> !At(s, k, '[')
    decreases |s| - i
  {
    hide SelectText, IsSelect;
    NothingSits(s, i);
    hide Sits;
    match VariableTail(s, i)
    case NoMatch => k, xs := i, [];
    case Raised => k, xs := i, [];
    case Matched(j) =>
      hide VariableTail;
      var x := TakenSelect(s, i, j);
      var more;
      k, more := TailsTaken(s, j);
      xs := [x] + more;
      assert xs[1..] == more;
      SitsApart(s, i, SelectText(x), SelectsText(more));
  }

  lemma PartTaken(s: string, i: nat) returns (k: nat, p: Part)
    requires i < |s| && IsHead(s[i])
    ensures i < k <= |s| && IsPart(p) && Sits(s, i, PartText(p)) && k == i + |PartText(p)| && WordOver(s, p, k)
    ensures Variable2(s, i) == match VariableTail(s, k) case Raised => Raised case _ => Matched(k)
    ensures Variable2(s, i).Matched? ==> !At(s, k, '[')
  {
    hide VariableTail, SelectsText, AreSelects, Sits;
    var e := WordEnd(s, i);
    WordEndExactly(s, i, e);
    SliceSitsThere(s, i, e);
    NoSelects();
    var xs;
    k, xs := TailsTaken(s, e);
    p := Part(s[i..e], xs);
    SitsApart(s, i, s[i..e], SelectsText(xs));
  }

  /** The parts the rule takes from a dot on, and how it ends there. */
  lemma {:induction false} RestTaken(s: string, i: nat) returns (k: nat, ps: seq<Part>)
    requires i <= |s|
    ensures i <= k <= |s| && AreParts(ps) && Sits(s, i, RestText(ps)) && k == i + |RestText(ps)|
    ensures ps != [] ==> WordOver(s, ps[|ps| - 1], k)
    ensures VariableRest(s, i) == (if ps != [] && VariableTail(s, k) == Raised then Raised else Matched(k))
    ensures VariableRest(s, i).Matched? ==> !DotHead(s, k) && (ps != [] ==> !At(s, k, '['))
    decreases |s| - i
  {
    hide PartText, Variable2, VariableTail, IsPart, WordOver, Sits;
    NothingSits(s, i);
    if DotHead(s, i) {
      var e, p := PartTaken(s, i + 1);
      CharSits(s, i, '.');
      var more: seq<Part>;
      if Variable2(s, i + 1) == Raised {
        NothingSits(s, e);
        k, more := e, [];
      } else {
        k, more := RestTaken(s, e);
      }
      ps := [p] + more;
      assert ps[1..] == more;
      SitsApart(s, i + 1, PartText(p), RestText(more));
      SitsApart(s, i, ".", PartText(p) + RestText(more));
    } else {
      k, ps := i, [];
    }
  }

  predicate DotHead(s: string, k: nat) { At(s, k, '.') && k + 1 < |s| && IsHead(s[k + 1]) }

  /** The parts of the name at i, and how the rule ends behind them. */
  lemma NameTaken(s: string, i: nat) returns (k: nat, ps: seq<Part>)
    requires i < |s| && IsHead(s[i])
    ensures i < k <= |s| && Spells(s[i..k], ps) && WordOver(s, ps[|ps| - 1], k)
    ensures Variable(s, i) == if VariableTail(s, k) == Raised then Raised else Matched(k)
    ensures Variable(s, i).Matched? ==> !DotHead(s, k) && !At(s, k, '[')
  {
    hide PartText, Variable2, VariableTail, WordOver, IsPart;
    var e, p := PartTaken(s, i);
    var more: seq<Part>;
    if Variable2(s, i) == Raised {
      k, more := e, [];
    } else {
      k, more := RestTaken(s, e);
    }
    ps := [p] + more;
    assert ps[1..] == more;
    hide Sits;
    SitsApart(s, i, PartText(p), RestText(more));
    SitsIs(s, i, k, NameText(ps));
  }

  lemma SitsIs(s: string, i: nat, k: nat, text: string)
    requires i <= k <= |s| && k == i + |text|
    ensures Sits(s, i, text) <==> s[i..k] == text
  {
  }

  /** A name ends where no bracket, no dot with a name behind it and, unless it ends in a bracket, no
      character of a word follows. */
  predicate NameStops(s: string, i: nat, j: nat)
    requires i < j <= |s|
  {
    !At(s, j, '[') && !DotHead(s, j) && (s[j - 1] != ']' ==> !WordCharAt(s, j))
  }

  /** The rule for variables takes exactly the dotted names with selects, as far as they go. */
  lemma NameExactly(s: string, i: nat, j: nat)
    requires i < j <= |s|
    ensures Variable(s, i) == Matched(j) <==> IsName(s[i..j]) && NameStops(s, i, j)
  {
    hide Variable, NameText, AreParts, VariableTail;
    if Variable(s, i) == Matched(j) {
      VariableStarts(s, i);
      var k, ps := NameTaken(s, i);
      LastOfName(s, i, j, ps);
    }
    if IsName(s[i..j]) && NameStops(s, i, j) {
      var ps :| Spells(s[i..j], ps);
      LastOfName(s, i, j, ps);
      SitsIs(s, i, j, NameText(ps));
      NameGoesOn(s, i, ps);
      StopsThere(s, j);
    }
  }

  /** It fails for good exactly behind a name with an open bracket that is not a select. */
  lemma NameRaisesExactly(s: string, i: nat)
    requires i <= |s|
    ensures Variable(s, i) == Raised <==> exists k :: OpensBadly(s, i, k)
  {
    hide Variable, OpensBadly;
    if Variable(s, i) == Raised {
      var k := BracketOfRaised(s, i);
    }
    if k :| OpensBadly(s, i, k) {
      BadBracketRaises(s, i, k);
    }
  }

  lemma BracketOfRaised(s: string, i: nat) returns (k: nat)
    requires i <= |s| && Variable(s, i) == Raised
    ensures OpensBadly(s, i, k)
  {
    hide Variable, NameText, AreParts, SelectText, IsSelect;
    VariableStarts(s, i);
    var ps;
    k, ps := NameTaken(s, i);
    forall x | IsSelect(x) ensures !Sits(s, k, SelectText(x)) {
      if Sits(s, k, SelectText(x)) { SelectTaken(s, k, x); }
    }
    hide VariableTail;
    SelectExactly(s, k, k);
  }

  lemma BadBracketRaises(s: string, i: nat, k: nat)
    requires i <= |s| && OpensBadly(s, i, k)
    ensures Variable(s, i) == Raised
  {
    hide Variable, NameText, AreParts, SelectText, IsSelect;
    var ps :| Spells(s[i..k], ps);
    SitsIs(s, i, k, NameText(ps));
    NameGoesOn(s, i, ps);
    TailRaises(s, k);
  }

  ghost predicate OpensBadly(s: string, i: nat, k: nat) {
    i < k < |s| && IsName(s[i..k]) && s[k] == '[' && forall x :: IsSelect(x) ==> !Sits(s, k, SelectText(x))
  }

  lemma TailRaises(s: string, k: nat)
    requires At(s, k, '[') && forall x :: IsSelect(x) ==> !Sits(s, k, SelectText(x))
    ensures Onwards(s, k) == Raised
  {
    hide SelectText, IsSelect, Sits;
    SelectExactly(s, k, k);
    match VariableTail(s, k)
    case Matched(j) => SelectExactly(s, k, j);
    case _ =>
  }

  lemma VariableStarts(s: string, i: nat)
    requires i <= |s| && Variable(s, i) != NoMatch
    ensures i < |s| && IsHead(s[i])
  {
  }

  lemma StopsThere(s: string, j: nat)
    requires j <= |s| && !At(s, j, '[') && !DotHead(s, j)
    ensures Onwards(s, j) == Matched(j)
  {
  }

  /** A name ends in a bracket exactly when its last part has selects. */
  lemma LastOfName(s: string, i: nat, j: nat, ps: seq<Part>)
    requires i < j <= |s| && Spells(s[i..j], ps)
    ensures s[j - 1] == ']' <==> ps[|ps| - 1].selects != []
  {
    LastChar(ps);
    assert s[j - 1] == s[i..j][|s[i..j]| - 1];
  }

  lemma {:induction false} LastChar(ps: seq<Part>)
    requires ps != [] && AreParts(ps)
    ensures NameText(ps) != "" && PartText(ps[0]) != ""
    ensures NameText(ps)[|NameText(ps)| - 1] == ']' <==> ps[|ps| - 1].selects != []
    decreases |ps|
  {
    hide PartText;
    LastOfPart(ps[0]);
    if |ps| > 1 {
      LastChar(ps[1..]);
      var more := NameText(ps[1..]);
      assert RestText(ps[1..]) == "." + more;
      assert NameText(ps) == PartText(ps[0]) + ("." + more);
    } else {
      assert NameText(ps) == PartText(ps[0]);
    }
  }

  lemma LastOfPart(p: Part)
    requires IsPart(p)
    ensures PartText(p) != "" && (PartText(p)[|PartText(p)| - 1] == ']' <==> p.selects != [])
  {
    if p.selects != [] {
      LastOfSelects(p.selects);
    } else {
      assert PartText(p) == p.word && IsWordChar(p.word[|p.word| - 1]);
    }
  }

  lemma {:induction false} LastOfSelects(xs: seq<Select>)
    requires xs != []
    ensures SelectsText(xs) != "" && SelectsText(xs)[|SelectsText(xs)| - 1] == ']'
  {
    LastOfSelect(xs[0]);
    if |xs| > 1 { LastOfSelects(xs[1..]); }
  }

  lemma LastOfSelect(x: Select)
    ensures SelectText(x) != "" && SelectText(x)[|SelectText(x)| - 1] == ']'
  {
  }
}
