/** How array elements are spelled (build_array_table and reconstruct_fullname of
    tools/hgdb-replay/vpi.cc): the bus by its words, the indices in brackets or behind dots. */
module ElementNames {
  import opened Common
  import opened Text
  import opened Tokens
  import opened ArrayTable

  function InBrackets(idx: seq<nat>): (s: string)
    ensures s != "" ==> s[0] in DELIMITERS
  {
    if idx == [] then "" else "[" + Decimal(idx[0]) + "]" + InBrackets(idx[1..])
  }

  function BehindDots(idx: seq<nat>): (s: string)
    ensures s != "" ==> s[0] in DELIMITERS
  {
    if idx == [] then "" else "." + Decimal(idx[0]) + BehindDots(idx[1..])
  }

  function Decimals(idx: seq<nat>): (ts: seq<string>)
    ensures |ts| == |idx| && forall k :: 0 <= k < |ts| ==> ts[k] == Decimal(idx[k])
  {
    if idx == [] then [] else [Decimal(idx[0])] + Decimals(idx[1..])
  }

  /** Words of the name of a bus. */
  ghost predicate AreBusWords(words: seq<string>) {
    words != [] && forall k :: 0 <= k < |words| ==> IsToken(words[k], DELIMITERS) && !AllDigits(words[k])
  }

  lemma DecimalIsToken(v: nat)
    ensures IsToken(Decimal(v), DELIMITERS) && AllDigits(Decimal(v))
  {
    DecimalReads(v);
  }

  lemma {:induction false} IndexTokens(idx: seq<nat>)
    ensures TokensOf(InBrackets(idx), DELIMITERS) == Decimals(idx)
    ensures TokensOf(BehindDots(idx), DELIMITERS) == Decimals(idx)
  {
    if idx == [] {
      assert TokensOf("", DELIMITERS) == [];
    } else {
      hide TokensOf, IsToken;
      IndexTokens(idx[1..]);
      DecimalIsToken(idx[0]);
      IndexedStep(Decimal(idx[0]), InBrackets(idx[1..]));
      IndexedStep(Decimal(idx[0]), BehindDots(idx[1..]));
    }
  }

  /** The words of a bus, joined by dots, with something behind them. */
  lemma {:induction false} BusTokens(words: seq<string>, tail: string)
    requires words != [] && forall k :: 0 <= k < |words| ==> IsToken(words[k], DELIMITERS)
    requires tail == "" || tail[0] in DELIMITERS
    ensures TokensOf(Join(words, '.') + tail, DELIMITERS) == words + TokensOf(tail, DELIMITERS)
    decreases |words|
  {
    hide TokensOf, IsToken;
    if |words| == 1 {
      WordFirst(words[0], tail, DELIMITERS);
      assert words == [words[0]];
    } else {
      var more := Join(words[1..], '.') + tail;
      BusTokens(words[1..], tail);
      assert Join(words, '.') + tail == words[0] + (['.'] + more);
      WordFirst(words[0], ['.'] + more, DELIMITERS);
      DelimiterFirst('.', more, DELIMITERS);
      assert words == [words[0]] + words[1..];
      assert [words[0]] + (words[1..] + TokensOf(tail, DELIMITERS)) == words + TokensOf(tail, DELIMITERS);
    }
  }

  lemma {:induction false} NumbersBack(idx: seq<nat>)
    ensures Numbers(Decimals(idx)) == idx
  {
    if idx != [] {
      DecimalReads(idx[0]);
      NumbersBack(idx[1..]);
    }
  }

  /** The last word of the bus is found behind the indices. */
  lemma BusLength(words: seq<string>, idx: seq<nat>)
    requires AreBusWords(words)
    ensures RootLength(words + Decimals(idx)) == |words|
  {
    hide RootLength, AllDigits, IsToken, Decimal;
    var ts := words + Decimals(idx);
    assert !AllDigits(ts[|words| - 1]);
    forall k | |words| <= k < |ts| ensures AllDigits(ts[k]) {
      DecimalIsToken(idx[k - |words|]);
    }
  }

  lemma {:induction false} IndexedDecimals(idx: seq<nat>)
    ensures Indexed(Decimals(idx)) == InBrackets(idx)
  {
    if idx != [] {
      DecimalIsToken(idx[0]);
      IndexedDecimals(idx[1..]);
    }
  }

  lemma {:induction false} FullNameIs(words: seq<string>, idx: seq<nat>)
    requires AreBusWords(words)
    ensures FullName(words + Decimals(idx)) == Join(words, '.') + InBrackets(idx)
    decreases |words|
  {
    var ts := words + Decimals(idx);
    assert ts[1..] == words[1..] + Decimals(idx);
    if |words| == 1 {
      assert ts[1..] == Decimals(idx);
      IndexedDecimals(idx);
    } else {
      FullNameIs(words[1..], idx);
      assert FullName(ts[1..]) == words[1] + Indexed(ts[2..]);
      assert ts[1] == words[1] && ts[1..][1..] == ts[2..];
      assert Indexed(ts[1..]) == "." + words[1] + Indexed(ts[2..]);
      assert words[0] + ("." + words[1] + Indexed(ts[2..])) == words[0] + ['.'] + (words[1] + Indexed(ts[2..]));
      assert words[0] + ['.'] + (Join(words[1..], '.') + InBrackets(idx)) == Join(words, '.') + InBrackets(idx);
    }
  }

  /** Spelled either way, a name stands for the bus and the indices; its full name is the spelling
      with brackets; and it is among the names of interest if it has an index. */
  lemma SpellingsStandForPlace(words: seq<string>, idx: seq<nat>, name: string)
    requires AreBusWords(words)
    requires name == Join(words, '.') + InBrackets(idx) || name == Join(words, '.') + BehindDots(idx)
    ensures PlaceOf(name) == Some(Place(Join(words, '.'), idx))
    ensures FullName(TokensOf(name, DELIMITERS)) == Join(words, '.') + InBrackets(idx)
    ensures idx != [] ==> NamesElement(name)
  {
    hide TokensOf, RootLength, FullName, NamesElement;
    IndexTokens(idx);
    BusTokens(words, InBrackets(idx));
    BusTokens(words, BehindDots(idx));
    BusLength(words, idx);
    FullNameIs(words, idx);
    NumbersBack(idx);
    var ts := words + Decimals(idx);
    assert ts[..|words|] == words && ts[|words|..] == Decimals(idx);
    if idx != [] { IsOfInterest(Join(words, '.'), idx, name); }
  }

  lemma IsOfInterest(bus: string, idx: seq<nat>, name: string)
    requires idx != [] && (name == bus + InBrackets(idx) || name == bus + BehindDots(idx))
    ensures NamesElement(name)
  {
    DecimalReads(idx[0]);
    var i := |bus|;
    assert name[i] == '[' || name[i] == '.';
    assert name[i + 1] == Decimal(idx[0])[0];
  }

  /** A plain name, whose words do not start with digits, is not of interest. */
  lemma PlainIsNot(words: seq<string>)
    requires words != [] && forall k :: 0 <= k < |words| ==> IsToken(words[k], DELIMITERS) && !IsDigit(words[k][0])
    ensures !NamesElement(Join(words, '.'))
  {
    var name := Join(words, '.');
    forall i | 0 <= i < |name| - 1 ensures name[i] != '[' && (name[i] == '.' ==> !IsDigit(name[i + 1])) {
      NoDigitBehindDot(words, i);
    }
  }

  lemma {:induction false} NoDigitBehindDot(words: seq<string>, i: nat)
    requires words != [] && forall k :: 0 <= k < |words| ==> IsToken(words[k], DELIMITERS) && !IsDigit(words[k][0])
    requires i < |Join(words, '.')| - 1
    ensures Join(words, '.')[i] != '[' && (Join(words, '.')[i] == '.' ==> !IsDigit(Join(words, '.')[i + 1]))
    decreases |words|
  {
    var n := |words[0]|;
    if i < n {
      assert Join(words, '.')[i] == words[0][i] && words[0][i] in words[0];
    } else {
      var more := Join(words[1..], '.');
      assert Join(words, '.') == words[0] + ['.'] + more;
      StartsWithWord(words[1..]);
      if i > n { NoDigitBehindDot(words[1..], i - n - 1); }
    }
  }

  lemma StartsWithWord(words: seq<string>)
    requires words != [] && words[0] != ""
    ensures Join(words, '.') != "" && Join(words, '.')[0] == words[0][0]
  {
  }
}
