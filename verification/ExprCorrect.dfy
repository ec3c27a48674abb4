/** The PEG accepts exactly the token sequences of well-formed syntax trees, and on an accepted
    input the actions it fired, abandoned alternatives included, are those of that tree. */
module ExprCorrect {
  import opened Text
  import opened ExprSyntax
  import opened ExprGrammar

  /** The actions of a syntax tree: operands first, then the operator. */
  function Actions(t: Syntax): seq<Action> {
    match t
    case Leaf(k) => [PushLeaf(k)]
    case Group(e) => [Open] + Actions(e) + [Close]
    case Pre(p, e) => Actions(e) + [Apply(if IsPrefix(p) then Prefix(p) else Not)]
    case Inf(p, l, r) => Actions(l) + Actions(r) + [Apply(Infix(p))]
  }

  // ---- tokens and actions of a tree in front of more of them

  lemma YieldInfix(p: Punct, l: Syntax, r: Syntax, rest: seq<Token>)
    ensures Yield(l) + ([P(p)] + (Yield(r) + rest)) == Yield(Inf(p, l, r)) + rest
  {
  }

  lemma YieldGroup(e: Syntax, rest: seq<Token>)
    ensures [P(LParen)] + (Yield(e) + ([P(RParen)] + rest)) == Yield(Group(e)) + rest
  {
  }

  lemma YieldPrefix(p: Punct, e: Syntax, rest: seq<Token>)
    ensures [P(p)] + (Yield(e) + rest) == Yield(Pre(p, e)) + rest
  {
  }

  lemma ActionsPrefix(p: Punct, e: Syntax)
    requires IsPrefix(p)
    ensures Actions(Pre(p, e)) == Actions(e) + [Apply(Prefix(p))]
  {
  }

  lemma ActionsInfix(p: Punct, l: Syntax, r: Syntax, log: seq<Action>)
    ensures Actions(l) + (Actions(r) + [Apply(Infix(p))] + log) == Actions(Inf(p, l, r)) + log
  {
  }

  // ---- white space and single characters

  lemma LexSkips(s: string, i: nat)
    requires i <= |s|
    ensures Lex(s, SkipSpaces(s, i)) == Lex(s, i)
  {
  }

  /** A value starts with a digit, a name or an opening bracket. */
  predicate StartsValue(s: string, i: nat) {
    i < |s| && (IsDigit(s[i]) || IsHead(s[i]) || s[i] == '(')
  }

  /** Without such a start a value fails before any action. */
  lemma NoValue(s: string, i: nat)
    requires i <= |s| && !StartsValue(s, SkipSpaces(s, i))
    ensures Value(s, i) == Run(Fail, [])
  {
    var p := SkipSpaces(s, i);
    assert HexEnd(s, p).None?;
    assert Bracketed(s, p) == Run(Fail, []);
    assert Atom(s, p) == Run(Fail, []);
  }

  /** An operand starts with a value or a prefix operator; otherwise every level fails before
      any action. */
  lemma {:induction false} NoStart(k: nat, s: string, i: nat)
    requires i <= |s| && !StartsValue(s, SkipSpaces(s, i))
    requires SkipSpaces(s, i) < |s| ==> !IsUnaryChar(s[SkipSpaces(s, i)])
    ensures Binary(k, s, i) == Run(Fail, [])
  {
    if k > 0 {
      NoStart(k - 1, s, i);
    } else {
      NoValue(s, i);
      assert Unary0(s, SkipSpaces(s, i)) == Run(Fail, []);
    }
  }

  lemma AtomOfWord(s: string, i: nat)
    requires i < |s| && (IsDigit(s[i]) || IsHead(s[i]))
    ensures Atom(s, i).out.Ok? <==> !NextToken(s, i).0.Bad?
    ensures Atom(s, i).out.Ok? ==>
      && Atom(s, i) == Run(Ok(NextToken(s, i).1), [PushLeaf(NextToken(s, i).0)])
      && (NextToken(s, i).0.Hex? || NextToken(s, i).0.Int? || NextToken(s, i).0.Name?)
  {
  }

  lemma AtomOfBracket(s: string, i: nat)
    requires i < |s| && s[i] == '('
    ensures Atom(s, i) == Bracketed(s, i) && NextToken(s, i) == (P(LParen), i + 1)
  {
    assert Variable(s, i).NoMatch?;
  }

  /** Tokens and the characters they start with. */
  lemma TokenStart(s: string, i: nat)
    requires i < |s|
    ensures var t := NextToken(s, i).0;
      && (t.Int? || t.Hex? || t.Name? ==> IsDigit(s[i]) || IsHead(s[i]))
      && (t == P(LParen) <==> s[i] == '(')
      && (t == P(RParen) <==> s[i] == ')')
      && (t.P? && IsPrefix(t.punct) ==>
            IsUnaryChar(s[i]) && UnaryPushed(s[i]) == Prefix(t.punct) && NextToken(s, i).1 == i + 1)
      && (IsUnaryChar(s[i]) && !At(s, i + 1, '=') ==> t.P? && IsPrefix(t.punct))
      && (t == P(RParen) ==> NextToken(s, i).1 == i + 1)
  {
  }

  lemma LexStep(s: string, i: nat)
    requires i < |s| && !IsSpace(s[i])
    ensures Lex(s, i) == [NextToken(s, i).0] + Lex(s, NextToken(s, i).1)
    ensures Lex(s, i)[0] == NextToken(s, i).0 && Lex(s, i)[1..] == Lex(s, NextToken(s, i).1)
  {
  }

  lemma NextIsPunctuator(s: string, i: nat)
    requires i < |s| && !IsDigit(s[i]) && !IsHead(s[i])
    ensures NextToken(s, i) == Punctuator(s, i)
  {
  }

  /** Characters against tokens: an operator of level k that is not the first half of a doubled
      one is the punctuator at i. */
  lemma OperatorChars(k: nat, s: string, i: nat)
    requires 1 <= k <= 9 && i < |s| && OpLength(k, s, i) > 0
    requires !At(s, i + OpLength(k, s, i), '&') && !At(s, i + OpLength(k, s, i), '|')
    ensures !IsSpace(s[i]) && s[i] != ')'
    ensures var (t, j) := Punctuator(s, i);
      t.P? && InfixLevel(t.punct) == k && j == i + OpLength(k, s, i) && OpPushed(k, s, i) == Infix(t.punct)
  {
    if k <= 4 {
      EarlyOperatorChars(k, s, i);
    } else {
      LateOperatorChars(k, s, i);
    }
  }

  lemma EarlyOperatorChars(k: nat, s: string, i: nat)
    requires 1 <= k <= 4 && i < |s| && OpLength(k, s, i) > 0
    ensures !IsSpace(s[i]) && s[i] != ')'
    ensures var (t, j) := Punctuator(s, i);
      t.P? && InfixLevel(t.punct) == k && j == i + OpLength(k, s, i) && OpPushed(k, s, i) == Infix(t.punct)
  {
    match k
    case 1 => case 2 => case 3 => case 4 =>
  }

  lemma LateOperatorChars(k: nat, s: string, i: nat)
    requires 5 <= k <= 9 && i < |s| && OpLength(k, s, i) > 0
    requires !At(s, i + OpLength(k, s, i), '&') && !At(s, i + OpLength(k, s, i), '|')
    ensures !IsSpace(s[i]) && s[i] != ')'
    ensures var (t, j) := Punctuator(s, i);
      t.P? && InfixLevel(t.punct) == k && j == i + OpLength(k, s, i) && OpPushed(k, s, i) == Infix(t.punct)
  {
    match k
    case 5 => case 6 => case 7 => case 8 => case 9 =>
  }

  lemma OneLevelOnly(k: nat, m: nat, s: string, i: nat)
    requires 1 <= k < m <= 9 && i < |s| && OpLength(k, s, i) > 0
    requires !At(s, i + OpLength(k, s, i), '&') && !At(s, i + OpLength(k, s, i), '|')
    ensures OpLength(m, s, i) == 0
  {
  }

  lemma PunctuatorChars(k: nat, s: string, i: nat)
    requires 1 <= k <= 9 && i < |s|
    requires Punctuator(s, i).0.P? && InfixLevel(Punctuator(s, i).0.punct) == k
    ensures OpLength(k, s, i) > 0 && i + OpLength(k, s, i) == Punctuator(s, i).1
    ensures OpPushed(k, s, i) == Infix(Punctuator(s, i).0.punct)
  {
  }

  lemma OperatorIsNoWord(k: nat, s: string, i: nat)
    requires i < |s| && OpLength(k, s, i) > 0
    ensures !IsDigit(s[i]) && !IsHead(s[i])
  {
  }

  /** Where the lexer sees no operator of level k, the repetition of level k stops silently. */
  lemma TailStops(k: nat, s: string, i: nat)
    requires 1 <= k <= 9 && i <= |s|
    requires i < |s| && NextToken(s, i).0.P? ==> InfixLevel(NextToken(s, i).0.punct) != k
    ensures Tail(k, s, i) == Run(Ok(i), [])
  {
    var n := OpLength(k, s, i);
    if n > 0 {
      OperatorIsNoWord(k, s, i);
      NextIsPunctuator(s, i);
      if At(s, i + n, '&') || At(s, i + n, '|') {
        NoStart(k - 1, s, i + n);
      } else {
        OperatorChars(k, s, i);
      }
    }
  }

  /** Where the lexer sees an operator of level k, the rule of level k takes it whole. */
  lemma TailTakes(k: nat, s: string, i: nat)
    requires 1 <= k <= 9 && i < |s|
    requires NextToken(s, i).0.P? && InfixLevel(NextToken(s, i).0.punct) == k
    ensures OpLength(k, s, i) > 0 && i + OpLength(k, s, i) == NextToken(s, i).1
    ensures OpPushed(k, s, i) == Infix(NextToken(s, i).0.punct)
  {
    NextIsPunctuator(s, i);
    PunctuatorChars(k, s, i);
  }

  lemma TailRound(k: nat, s: string, i: nat)
    requires 1 <= k <= 9 && i < |s| && OpLength(k, s, i) > 0
    requires Binary(k - 1, s, i + OpLength(k, s, i)).out.Ok?
    ensures var e := Binary(k - 1, s, i + OpLength(k, s, i)); var t := Tail(k, s, e.out.end);
      Tail(k, s, i) == Run(t.out, e.log + [Apply(OpPushed(k, s, i))] + t.log)
  {
  }

  /** Conversely, an operator taken with an operand behind it is the token of the lexer. */
  lemma OperatorToken(k: nat, s: string, i: nat)
    requires 1 <= k <= 9 && i < |s| && OpLength(k, s, i) > 0
    requires Binary(k - 1, s, i + OpLength(k, s, i)) != Run(Fail, [])
    ensures !IsSpace(s[i]) && s[i] != ')' && NextToken(s, i).0.P?
    ensures InfixLevel(NextToken(s, i).0.punct) == k
    ensures i + OpLength(k, s, i) == NextToken(s, i).1
    ensures OpPushed(k, s, i) == Infix(NextToken(s, i).0.punct)
    ensures forall m :: k < m <= 9 ==> OpLength(m, s, i) == 0
  {
    var n := OpLength(k, s, i);
    if At(s, i + n, '&') || At(s, i + n, '|') {
      NoStart(k - 1, s, i + n);
    }
    OperatorChars(k, s, i);
    NextIsPunctuator(s, i);
    forall m | k < m <= 9 ensures OpLength(m, s, i) == 0 {
      OneLevelOnly(k, m, s, i);
    }
  }

  /** An operand that is no value goes to the prefix operators. */
  lemma UnaryOfPrefix(s: string, i: nat)
    requires i <= |s| && SkipSpaces(s, i) < |s| && IsUnaryChar(s[SkipSpaces(s, i)])
    ensures Value(s, i) == Run(Fail, []) && Unary(s, i) == Pad(s, Unary0(s, SkipSpaces(s, i)))
  {
    NoValue(s, i);
  }

  lemma UnaryOfOthers(s: string, i: nat)
    requires i <= |s|
    ensures Unary(s, i).out.Ok? && Value(s, i).out.Fail? ==>
      SkipSpaces(s, i) < |s| && IsUnaryChar(s[SkipSpaces(s, i)])
  {
    var p := SkipSpaces(s, i);
    if p == |s| || !IsUnaryChar(s[p]) {
      assert Unary0(s, p) == Run(Fail, []);
    }
  }

  /** "!=" is one token to the lexer, but no operand starts with an equality sign. */
  lemma EqualsStartsNothing(s: string, i: nat)
    requires i <= |s|
    ensures At(s, i, '=') ==> !Value(s, i).out.Ok? && !Unary(s, i).out.Ok?
  {
    if At(s, i, '=') {
      NoValue(s, i);
      UnaryOfOthers(s, i);
    }
  }

  /** The two alternatives of unary_expression0. */
  lemma PrefixOperand(s: string, p: nat)
    requires p < |s| && IsUnaryChar(s[p])
    ensures var v := Value(s, p + 1); var e := Unary(s, p + 1); var op := Apply(UnaryPushed(s[p]));
      && (v.out.Ok? ==> Unary0(s, p) == Run(v.out, v.log + [op]))
      && (v.out.Raise? ==> Unary0(s, p).out.Raise?)
      && (v.out.Fail? && e.out.Ok? ==> Unary0(s, p) == Run(e.out, v.log + e.log + [op]))
      && (v.out.Fail? && !e.out.Ok? ==> !Unary0(s, p).out.Ok?)
  {
  }

  // ---- soundness

  /** The run consumed exactly the tokens of t and fired exactly the actions of t. */
  ghost predicate Derives(k: nat, s: string, i: nat, r: Run, t: Syntax)
    requires i <= |s|
  {
    && r.out.Ok? && r.out.end <= |s|
    && WellFormed(t) && Level(t) <= k
    && r.log == Actions(t)
    && Lex(s, i) == Yield(t) + Lex(s, r.out.end)
  }

  /** The run succeeded by giving up an operator at level k or below whose operand failed
      halfway. No enclosing rule can consume that operator, so the input is lost. */
  ghost predicate Stuck(k: nat, s: string, r: Run) {
    && r.out.Ok? && r.out.end < |s|
    && !IsSpace(s[r.out.end]) && s[r.out.end] != ')'
    && forall m :: k < m <= 9 ==> OpLength(m, s, r.out.end) == 0
  }

  lemma {:induction false} SoundAtom(s: string, i: nat) returns (t: Syntax)
    requires i < |s| && !IsSpace(s[i]) && Atom(s, i).out.Ok?
    ensures Derives(0, s, i, Atom(s, i), t)
    decreases |s| - i, 1
  {
    LexStep(s, i);
    if IsDigit(s[i]) || IsHead(s[i]) {
      AtomOfWord(s, i);
      t := Leaf(NextToken(s, i).0);
    } else {
      assert Atom(s, i) == Bracketed(s, i);
      AtomOfBracket(s, i);
      t := SoundBracketed(s, i);
    }
  }

  lemma {:induction false} SoundBracketed(s: string, i: nat) returns (t: Syntax)
    requires i < |s| && Bracketed(s, i).out.Ok?
    ensures Derives(0, s, i, Bracketed(s, i), t)
    decreases |s| - i, 0
  {
    var b := SkipSpaces(s, i + 1);
    var e := Binary(9, s, b);
    var d := SoundBinary(9, s, b);
    var c := SkipSpaces(s, e.out.end);
    assert At(s, c, ')');
    assert !Stuck(9, s, e);
    t := Group(d);
    AtomOfBracket(s, i);
    LexStep(s, i);
    LexSkips(s, i + 1);
    LexSkips(s, e.out.end);
    TokenStart(s, c);
    LexStep(s, c);
    YieldGroup(d, Lex(s, c + 1));
  }

  lemma {:induction false} SoundValue(s: string, i: nat) returns (t: Syntax)
    requires i <= |s| && Value(s, i).out.Ok?
    ensures Derives(0, s, i, Value(s, i), t)
    decreases |s| - i, 2
  {
    var p := SkipSpaces(s, i);
    if p == |s| {
      NoValue(s, i);
    }
    t := SoundAtom(s, p);
    LexSkips(s, i);
    LexSkips(s, Atom(s, p).out.end);
  }

  lemma {:induction false} SoundUnary(s: string, i: nat) returns (t: Syntax)
    requires i <= |s| && Unary(s, i).out.Ok?
    ensures Derives(0, s, i, Unary(s, i), t)
    decreases |s| - i, 4
  {
    if Value(s, i).out.Ok? {
      t := SoundValue(s, i);
    } else {
      var p := SkipSpaces(s, i);
      assert Unary0(s, p).out.Ok?;
      assert IsUnaryChar(s[p]);
      NoValue(s, i);
      t := SoundUnary0(s, p);
      LexSkips(s, i);
      LexSkips(s, Unary0(s, p).out.end);
    }
  }

  lemma {:induction false} SoundUnary0(s: string, p: nat) returns (t: Syntax)
    requires p < |s| && IsUnaryChar(s[p]) && Unary0(s, p).out.Ok?
    ensures Derives(0, s, p, Unary0(s, p), t)
    decreases |s| - p, 3
  {
    hide Lex, NextToken, Value, Unary, Actions, Yield;
    PrefixOperand(s, p);
    EqualsStartsNothing(s, p + 1);
    UnaryOfOthers(s, p + 1);
    var e;
    if Value(s, p + 1).out.Ok? {
      e := SoundValue(s, p + 1);
    } else {
      UnaryOfPrefix(s, p + 1);
      e := SoundUnary(s, p + 1);
    }
    TokenStart(s, p);
    LexStep(s, p);
    t := Pre(NextToken(s, p).0.punct, e);
    YieldPrefix(t.p, e, Lex(s, Unary0(s, p).out.end));
    ActionsPrefix(t.p, e);
  }

  lemma {:induction false} SoundBinary(k: nat, s: string, i: nat) returns (t: Syntax)
    requires k <= 9 && i <= |s| && Binary(k, s, i).out.Ok?
    ensures Stuck(k, s, Binary(k, s, i)) || Derives(k, s, i, Binary(k, s, i), t)
    decreases |s| - i, 5 + k
  {
    if k == 0 {
      t := SoundUnary(s, i);
    } else {
      var l := Binary(k - 1, s, i);
      var tl := SoundBinary(k - 1, s, i);
      if Stuck(k - 1, s, l) {
        t := tl;
        assert OpLength(k, s, l.out.end) == 0;
      } else {
        t := SoundTail(k, s, i, l.out.end, tl);
      }
    }
  }

  /** One round of the repetition: no operator, an operand lost, or operator and operand taken. */
  lemma {:induction false} SoundRound(k: nat, s: string, i: nat)
    returns (p: Punct, te: Syntax, j: nat)
    requires 1 <= k <= 9 && i <= |s| && Tail(k, s, i).out.Ok?
    ensures var r := Tail(k, s, i);
      || r == Run(Ok(i), [])
      || Stuck(k, s, r)
      || (&& i < j <= |s| && (j < |s| ==> !IsSpace(s[j]))
          && WellFormed(te) && InfixLevel(p) == k && Level(te) < k
          && Lex(s, i) == [P(p)] + (Yield(te) + Lex(s, j))
          && r == Run(Tail(k, s, j).out, Actions(te) + [Apply(Infix(p))] + Tail(k, s, j).log))
    decreases |s| - i, 0
  {
    p, te, j := LParen, Leaf(Bad(' ')), i;
    var n := OpLength(k, s, i);
    if n > 0 && Binary(k - 1, s, i + n) != Run(Fail, []) {
      OperatorToken(k, s, i);
      var e := Binary(k - 1, s, i + n);
      if e.out.Ok? {
        te := SoundBinary(k - 1, s, i + n);
        p, j := NextToken(s, i).0.punct, e.out.end;
        if Stuck(k - 1, s, e) {
          assert Tail(k, s, j) == Run(Ok(j), []);
        }
        TailRound(k, s, i);
        LexStep(s, i);
      }
    }
  }

  /** Left association: the repetition extends the tree it is given on the left. */
  lemma {:induction false} SoundTail(k: nat, s: string, i0: nat, i: nat, t0: Syntax) returns (t: Syntax)
    requires 1 <= k <= 9 && i0 < i <= |s|
    requires Tail(k, s, i).out.Ok?
    requires WellFormed(t0) && Level(t0) <= k && Lex(s, i0) == Yield(t0) + Lex(s, i)
    ensures var r := Tail(k, s, i);
      Stuck(k, s, r) || Derives(k, s, i0, Run(r.out, Actions(t0) + r.log), t)
    decreases |s| - i, 1
  {
    t := t0;
    var r := Tail(k, s, i);
    var p, te, j := SoundRound(k, s, i);
    if r != Run(Ok(i), []) && !Stuck(k, s, r) {
      YieldInfix(p, t0, te, Lex(s, j));
      t := SoundTail(k, s, i0, j, Inf(p, t0, te));
      ActionsInfix(p, t0, te, Tail(k, s, j).log);
    } else {
      assert Actions(t0) + [] == Actions(t0);
    }
  }

  // ---- completeness

  /** What may come after an expression of level k: nothing that extends it. */
  ghost predicate Follows(k: nat, rest: seq<Token>) {
    rest != [] && rest[0].P? ==> InfixLevel(rest[0].punct) == 0 || InfixLevel(rest[0].punct) > k
  }

  /** The run at i took exactly t and stopped, at the next token, in front of rest. */
  ghost predicate Takes(s: string, r: Run, t: Syntax, rest: seq<Token>) {
    && r.out.Ok? && r.out.end <= |s|
    && (r.out.end < |s| ==> !IsSpace(s[r.out.end]))
    && r.log == Actions(t) && Lex(s, r.out.end) == rest
  }

  /** If the tokens from i on start with a given one, it stands right after the white space. */
  lemma FirstToken(s: string, i: nat, tok: Token, rest: seq<Token>)
    requires i <= |s| && Lex(s, i) == [tok] + rest
    ensures var p := SkipSpaces(s, i);
      p < |s| && NextToken(s, p).0 == tok && Lex(s, NextToken(s, p).1) == rest
  {
    var p := SkipSpaces(s, i);
    LexStep(s, p);
    LexSkips(s, i);
    assert rest == Lex(s, i)[1..];
  }

  lemma {:induction false} CompleteValue(s: string, i: nat, t: Syntax, rest: seq<Token>)
    requires i <= |s| && WellFormed(t) && (t.Leaf? || t.Group?)
    requires Lex(s, i) == Yield(t) + rest
    ensures Takes(s, Value(s, i), t, rest)
    decreases t, 0
  {
    var p := SkipSpaces(s, i);
    if t.Leaf? {
      FirstToken(s, i, t.token, rest);
      TokenStart(s, p);
      AtomOfWord(s, p);
      LexSkips(s, NextToken(s, p).1);
    } else {
      var inside := Yield(t.inner) + ([P(RParen)] + rest);
      assert Yield(t) + rest == [P(LParen)] + inside;
      FirstToken(s, i, P(LParen), inside);
      TokenStart(s, p);
      AtomOfBracket(s, p);
      CompleteBracketed(s, p, t.inner, rest);
      LexSkips(s, Bracketed(s, p).out.end);
    }
  }

  lemma {:induction false} CompleteBracketed(s: string, p: nat, e: Syntax, rest: seq<Token>)
    requires p < |s| && s[p] == '(' && WellFormed(e)
    requires Lex(s, p + 1) == Yield(e) + ([P(RParen)] + rest)
    ensures var r := Bracketed(s, p);
      r.out.Ok? && r.log == [Open] + Actions(e) + [Close] && Lex(s, r.out.end) == rest
    decreases e, 99
  {
    hide Lex, NextToken, Binary, Yield, Actions;
    var b := SkipSpaces(s, p + 1);
    LexSkips(s, p + 1);
    var after := [P(RParen)] + rest;
    assert Follows(9, after);
    CompleteBinary(9, s, b, e, after);
    ClosesBracket(s, Binary(9, s, b).out.end, rest);
    BracketedTakes(s, p);
  }

  lemma BracketedTakes(s: string, p: nat)
    requires At(s, p, '(')
    ensures var e := Binary(9, s, SkipSpaces(s, p + 1));
      e.out.Ok? && At(s, e.out.end, ')') ==>
        Bracketed(s, p) == Run(Ok(e.out.end + 1), [Open] + e.log + [Close])
  {
  }

  lemma ClosesBracket(s: string, c: nat, rest: seq<Token>)
    requires c <= |s| && (c < |s| ==> !IsSpace(s[c])) && Lex(s, c) == [P(RParen)] + rest
    ensures At(s, c, ')') && Lex(s, c + 1) == rest
  {
    FirstToken(s, c, P(RParen), rest);
    TokenStart(s, c);
  }

  lemma {:induction false} CompleteUnary(s: string, i: nat, t: Syntax, rest: seq<Token>)
    requires i <= |s| && WellFormed(t) && Level(t) == 0
    requires Lex(s, i) == Yield(t) + rest
    ensures Takes(s, Unary(s, i), t, rest)
    decreases t, 1
  {
    if t.Leaf? || t.Group? {
      CompleteValue(s, i, t, rest);
    } else {
      var p := SkipSpaces(s, i);
      YieldPrefix(t.p, t.arg, rest);
      FirstToken(s, i, P(t.p), Yield(t.arg) + rest);
      TokenStart(s, p);
      UnaryOfPrefix(s, i);
      CompleteUnary0(s, p, t, rest);
      LexSkips(s, Unary0(s, p).out.end);
    }
  }

  lemma {:induction false} CompleteUnary0(s: string, p: nat, t: Syntax, rest: seq<Token>)
    requires p < |s| && WellFormed(t) && t.Pre?
    requires IsUnaryChar(s[p]) && UnaryPushed(s[p]) == Prefix(t.p)
    requires Lex(s, p + 1) == Yield(t.arg) + rest
    ensures Takes(s, Unary0(s, p), t, rest)
    decreases t, 0
  {
    PrefixOperand(s, p);
    if t.arg.Pre? {
      YieldPrefix(t.arg.p, t.arg.arg, rest);
      FirstToken(s, p + 1, P(t.arg.p), Yield(t.arg.arg) + rest);
      TokenStart(s, SkipSpaces(s, p + 1));
      UnaryOfPrefix(s, p + 1);
      CompleteUnary(s, p + 1, t.arg, rest);
    } else {
      CompleteValue(s, p + 1, t.arg, rest);
    }
  }

  /** The level-k rule on a tree of level k amounts to its repetition after that tree. */
  lemma {:induction false} CompletePrefix(k: nat, s: string, i: nat, t: Syntax, rest: seq<Token>)
    returns (j: nat)
    requires 1 <= k <= 9 && i <= |s| && WellFormed(t) && Level(t) <= k
    requires Lex(s, i) == Yield(t) + rest && Follows(k - 1, rest)
    ensures j <= |s| && Takes(s, Run(Ok(j), Actions(t)), t, rest)
    ensures Binary(k, s, i) == Run(Tail(k, s, j).out, Actions(t) + Tail(k, s, j).log)
    decreases t, 2 * k + 1
  {
    if Level(t) < k {
      CompleteBinary(k - 1, s, i, t, rest);
      j := Binary(k - 1, s, i).out.end;
    } else {
      var right := Yield(t.right) + rest;
      YieldInfix(t.p, t.left, t.right, rest);
      var h := CompletePrefix(k, s, i, t.left, [P(t.p)] + right);
      j := CompleteRound(k, s, h, t.p, t.right, rest);
      ActionsInfix(t.p, t.left, t.right, Tail(k, s, j).log);
    }
  }

  /** One round of the repetition takes an operator and its right operand. */
  lemma {:induction false} CompleteRound(k: nat, s: string, h: nat, p: Punct, r: Syntax, rest: seq<Token>)
    returns (j: nat)
    requires 1 <= k <= 9 && h <= |s| && (h < |s| ==> !IsSpace(s[h]))
    requires InfixLevel(p) == k && WellFormed(r) && Level(r) < k
    requires Lex(s, h) == [P(p)] + (Yield(r) + rest) && Follows(k - 1, rest)
    ensures j <= |s| && (j < |s| ==> !IsSpace(s[j])) && Lex(s, j) == rest
    ensures Tail(k, s, h) == Run(Tail(k, s, j).out, Actions(r) + [Apply(Infix(p))] + Tail(k, s, j).log)
    decreases r, 2 * k + 1
  {
    hide Lex, NextToken, Tail, Binary, WellFormed, Yield, Actions;
    var right := Yield(r) + rest;
    FirstToken(s, h, P(p), right);
    TailTakes(k, s, h);
    var m := NextToken(s, h).1;
    CompleteBinary(k - 1, s, m, r, rest);
    j := Binary(k - 1, s, m).out.end;
    TailRound(k, s, h);
  }

  lemma {:induction false} CompleteBinary(k: nat, s: string, i: nat, t: Syntax, rest: seq<Token>)
    requires k <= 9 && i <= |s| && WellFormed(t) && Level(t) <= k
    requires Lex(s, i) == Yield(t) + rest && Follows(k, rest)
    ensures Takes(s, Binary(k, s, i), t, rest)
    decreases t, 2 * k + 2
  {
    if k == 0 {
      CompleteUnary(s, i, t, rest);
    } else {
      var j := CompletePrefix(k, s, i, t, rest);
      if j < |s| {
        LexStep(s, j);
      }
      TailStops(k, s, j);
      assert Actions(t) + [] == Actions(t);
    }
  }

  // ---- the parser as a whole

  /** The parser accepts an input exactly when its tokens are those of a well-formed tree. */
  lemma AcceptsExactly(s: string)
    ensures Accepts(s) <==> exists t :: WellFormed(t) && Yield(t) == Lex(s, 0)
  {
    if Accepts(s) {
      var t := SoundBinary(9, s, 0);
      assert Lex(s, |s|) == [];
      assert Yield(t) == Lex(s, 0);
    }
    if t :| WellFormed(t) && Yield(t) == Lex(s, 0) {
      FiresExactly(s, t);
    }
  }

  /** On such an input the actions fired over the whole run, with those of every abandoned
      alternative, are the actions of the tree. */
  lemma FiresExactly(s: string, t: Syntax)
    requires WellFormed(t) && Yield(t) == Lex(s, 0)
    ensures Parse(s) == Run(Ok(|s|), Actions(t))
  {
    assert Yield(t) + [] == Yield(t);
    CompleteBinary(9, s, 0, t, []);
  }
}
