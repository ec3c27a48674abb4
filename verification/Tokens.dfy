/** get_tokens of src/util.cc: the longest runs of characters that are not delimiters. */
module Tokens {
  /** What separates the parts of a hierarchical name with array indices. */
  const DELIMITERS: string := ".[]"

  /** find_first_of: the first delimiter at or after from, or the end of the line. */
  function FirstOf(line: string, delims: string, from: nat): (pos: nat)
    requires from <= |line|
    ensures from <= pos <= |line|
    ensures forall i :: from <= i < pos ==> line[i] !in delims
    ensures pos < |line| ==> line[pos] in delims
    decreases |line| - from
  {
    if from == |line| || line[from] in delims then from else FirstOf(line, delims, from + 1)
  }

  /** The tokens of a line, read off from the left. */
  function TokensOf(line: string, delims: string): seq<string>
    decreases |line|
  {
    if line == "" then []
    else if line[0] in delims then TokensOf(line[1..], delims)
    else
      var n := FirstOf(line, delims, 0);
      [line[..n]] + TokensOf(line[n..], delims)
  }

  predicate IsToken(t: string, delims: string) {
    t != "" && forall c :: c in t ==> c !in delims
  }

  /** Every token is a non-empty word without delimiters. */
  lemma {:induction false} TokensAreWords(line: string, delims: string)
    ensures forall t :: t in TokensOf(line, delims) ==> IsToken(t, delims)
    decreases |line|
  {
    if line != "" {
      if line[0] in delims {
        TokensAreWords(line[1..], delims);
      } else {
        TokensAreWords(line[FirstOf(line, delims, 0)..], delims);
      }
    }
  }

  lemma {:induction false} FirstIs(line: string, delims: string, from: nat, n: nat)
    requires from <= n <= |line| && forall i :: from <= i < n ==> line[i] !in delims
    requires n < |line| ==> line[n] in delims
    ensures FirstOf(line, delims, from) == n
    decreases n - from
  {
    if from < n { FirstIs(line, delims, from + 1, n); }
  }

  /** A word up to a delimiter or the end is the next token. */
  lemma WordFirst(word: string, rest: string, delims: string)
    requires IsToken(word, delims) && (rest == "" || rest[0] in delims)
    ensures TokensOf(word + rest, delims) == [word] + TokensOf(rest, delims)
  {
    var line := word + rest;
    forall i | 0 <= i < |word| ensures line[i] !in delims {
      assert word[i] in word;
    }
    FirstIs(line, delims, 0, |word|);
    assert line[..|word|] == word && line[|word|..] == rest;
  }

  /** A word alone is its only token. */
  lemma OneToken(x: string, delims: string)
    requires IsToken(x, delims)
    ensures TokensOf(x, delims) == [x]
  {
    WordFirst(x, "", delims);
    assert x + "" == x;
  }

  lemma DelimiterFirst(d: char, rest: string, delims: string)
    requires d in delims
    ensures TokensOf([d] + rest, delims) == TokensOf(rest, delims)
  {
    assert ([d] + rest)[1..] == rest;
  }

  /** From prev to the next delimiter at pos: a token, unless nothing is in between. */
  lemma NextRun(line: string, delims: string, prev: nat)
    requires prev <= |line|
    ensures var pos := FirstOf(line, delims, prev);
      TokensOf(line[prev..], delims) ==
        (if pos > prev then [line[prev..pos]] else [])
        + if pos < |line| then TokensOf(line[pos + 1..], delims) else []
  {
    hide TokensOf;
    var pos := FirstOf(line, delims, prev);
    var run, rest := line[prev..pos], line[pos..];
    assert line[prev..] == run + rest;
    RestAfter(line, delims, pos);
    if pos > prev {
      WordFirst(run, rest, delims);
    } else {
      assert run + rest == rest;
    }
  }

  lemma RestAfter(line: string, delims: string, pos: nat)
    requires pos <= |line| && (pos < |line| ==> line[pos] in delims)
    ensures TokensOf(line[pos..], delims) == if pos < |line| then TokensOf(line[pos + 1..], delims) else []
  {
    if pos < |line| {
      assert line[pos..][1..] == line[pos + 1..];
    }
  }

  method GetTokens(line: string, delims: string) returns (result: seq<string>)
    ensures result == TokensOf(line, delims)
  {
    hide TokensOf;
    var tokens: seq<string> := [];
    var prev := 0;
    assert line[0..] == line;
    while true
      invariant prev <= |line| && tokens + TokensOf(line[prev..], delims) == TokensOf(line, delims)
      decreases |line| - prev
    {
      NextRun(line, delims, prev);
      var pos := FirstOf(line, delims, prev);
      ghost var run := if pos > prev then [line[prev..pos]] else [];
      if pos == |line| {
        Regroup(tokens, run, []);
        break;
      }
      Regroup(tokens, run, TokensOf(line[pos + 1..], delims));
      if pos > prev {
        tokens := tokens + [line[prev..pos]];
      }
      prev := pos + 1;
    }
    if prev < |line| {
      assert line[prev..|line|] == line[prev..];
      tokens := tokens + [line[prev..]];
    }
    assert tokens == TokensOf(line, delims);
    TokensAreWords(line, delims);
    result := NonEmpty(tokens);
  }

  lemma Regroup(a: seq<string>, b: seq<string>, c: seq<string>)
    ensures a + (b + c) == (a + b) + c && (a + b) + [] == a + b && a + [] == a
  {
  }

  /** The clean-up at the end; the split has left no empty token. */
  method NonEmpty(tokens: seq<string>) returns (result: seq<string>)
    requires forall t :: t in tokens ==> t != ""
    ensures result == tokens
  {
    result := [];
    for i := 0 to |tokens|
      invariant result == tokens[..i]
    {
      assert tokens[i] in tokens;
      if tokens[i] != "" {
        result := result + [tokens[i]];
      }
    }
  }

  /** util::join with a one-character separator. */
  function Join(words: seq<string>, sep: char): string {
    if words == [] then ""
    else if |words| == 1 then words[0]
    else words[0] + [sep] + Join(words[1..], sep)
  }

  /** Splitting what was joined gives the words back. */
  lemma {:induction false} SplitOfJoin(words: seq<string>, sep: char)
    requires forall w :: w in words ==> IsToken(w, [sep])
    ensures TokensOf(Join(words, sep), [sep]) == words
  {
    if |words| == 1 {
      WordFirst(words[0], "", [sep]);
      assert words[0] + "" == words[0];
    } else if |words| > 1 {
      SplitOfJoin(words[1..], sep);
      WordFirst(words[0], [sep] + Join(words[1..], sep), [sep]);
      DelimiterFirst(sep, Join(words[1..], sep), [sep]);
      assert words[0] + [sep] + Join(words[1..], sep) == words[0] + ([sep] + Join(words[1..], sep));
    }
  }
}
