/** What the semantic actions of src/eval.cc do on an input the grammar does not accept.

    An operator given up because its bracketed operand failed does not take back the group that
    operand opened, so a looser operator that was waiting is then applied on the wrong stack and
    pops an empty one. Which inputs do this is decided by one scan over the tokens. */
module ExprRejected {
  import opened Text
  import opened ExprSyntax
  import opened ExprGrammar
  import opened ExprCorrect
  import opened ExprActions

  // ---- the scan

  /** What stands in front of an open bracket in its own group: the loosest binary operator so
      far, and whether the bracket is in the operand of one that binds tighter than that. */
  datatype Bracket = Bracket(loosest: nat, waiting: bool)

  predicate Endangered(outer: seq<Bracket>) {
    exists i :: 0 <= i < |outer| && outer[i].waiting
  }

  /** The scan in front of an operand. True: it stops inside a bracket in front of which an
      operator waits for an operand of a tighter operator. */
  function AtOperand(ts: seq<Token>, loosest: nat, waiting: bool, outer: seq<Bracket>): bool
    decreases |ts|, 1
  {
    if ts == [] then Endangered(outer)
    else
      match ts[0]
      case Bad(c) => !IsHead(c) && Endangered(outer)
      case P(p) =>
        if p == LParen then AtOperand(ts[1..], 0, false, outer + [Bracket(loosest, waiting)])
        else if IsPrefix(p) then AtOperand(ts[1..], loosest, waiting, outer)
        else Endangered(outer)
      case _ => AtOperator(ts[1..], loosest, outer)
  }

  /** The scan behind an operand. */
  function AtOperator(ts: seq<Token>, loosest: nat, outer: seq<Bracket>): bool
    decreases |ts|, 0
  {
    if ts == [] || !ts[0].P? then Endangered(outer)
    else
      var k := InfixLevel(ts[0].punct);
      if k > 0 then AtOperand(ts[1..], Max(loosest, k), k < loosest, outer)
      else if ts[0].punct == RParen && outer != [] then
        AtOperator(ts[1..], outer[|outer| - 1].loosest, outer[..|outer| - 1])
      else Endangered(outer)
  }

  function Max(a: nat, b: nat): nat {
    if a < b then b else a
  }

  /** The first token that cannot continue the expression, or the end, comes while some bracket
      is open that belongs to the operand of a binary operator with a looser operator in front
      of it in the same group. A name with a malformed select stops the parser by an exception. */
  predicate StopsBehindWaiting(ts: seq<Token>) {
    AtOperand(ts, 0, false, [])
  }

  // ---- what a run leaves on the stacks

  /** Some action of the log applies an operator to a stack with too few expressions. */
  ghost predicate Pops(st: Stacks, log: seq<Action>)
    decreases log
  {
    log != [] &&
    match Step(st, log[0])
    case None => log[0].Apply?
    case Some(next) => Pops(next, log[1..])
  }

  lemma {:induction false} PopsFails(st: Stacks, log: seq<Action>)
    requires Pops(st, log)
    ensures Steps(st, log).None?
    decreases log
  {
    if Step(st, log[0]).Some? {
      PopsFails(Step(st, log[0]).value, log[1..]);
    }
  }

  lemma {:induction false} PopsAppend(st: Stacks, a: seq<Action>, b: seq<Action>)
    ensures Pops(st, a) ==> Pops(st, a + b)
    ensures Steps(st, a).Some? ==> Pops(st, a + b) == Pops(Steps(st, a).value, b)
    ensures Steps(st, a).Some? ==> Steps(st, a + b) == Steps(Steps(st, a).value, b)
    decreases a
  {
    if a == [] {
      assert a + b == b;
    } else {
      assert (a + b)[0] == a[0] && (a + b)[1..] == a[1..] + b;
      if Step(st, a[0]).Some? {
        PopsAppend(Step(st, a[0]).value, a[1..], b);
      }
    }
  }

  /** The log runs and adds n expressions to the top stack. */
  ghost predicate Adds(st: Stacks, log: seq<Action>, n: nat) {
    Steps(st, log).Some? &&
    var x := Steps(st, log).value;
    st != [] && |x| == |st| && x[..|x| - 1] == st[..|st| - 1]
    && |x[|x| - 1]| == |st[|st| - 1]| + n
  }

  /** The log left a group open with at most one expression in it, or popped an empty stack. */
  ghost predicate Breaks(st: Stacks, log: seq<Action>, waiting: bool, scan: bool) {
    || (Pops(st, log) && scan)
    || (Steps(st, log).Some? && TopIsShort(Steps(st, log).value) && scan == waiting)
  }

  ghost predicate TopIsShort(st: Stacks) {
    st != [] && |st[|st| - 1]| <= 1
  }

  /** A binary operator turns two expressions on top into one. */
  lemma AddsOperator(st: Stacks, log: seq<Action>, n: nat, op: Operator)
    requires Adds(st, log, n) && n > 0 && (IsUnary(op) || |st[|st| - 1]| + n >= 2)
    ensures Adds(st, log + [Apply(op)], if IsUnary(op) then n else n - 1)
  {
    StepsAppend(st, log, [Apply(op)]);
    var x := Steps(st, log).value;
    assert [Apply(op)][1..] == [];
    assert Steps(x, [Apply(op)]) == Step(x, Apply(op));
  }

  lemma PopsThen(st: Stacks, a: seq<Action>, b: seq<Action>, waiting: bool)
    requires Pops(st, a)
    ensures Breaks(st, a + b, waiting, true)
  {
    PopsAppend(st, a, b);
  }

  /** A binary operator that waited for an operand which broke pops an empty stack. */
  lemma BreaksOperator(st: Stacks, log: seq<Action>, op: Operator, scan: bool)
    requires !IsUnary(op) && Breaks(st, log, true, scan)
    ensures Pops(st, log + [Apply(op)]) && scan
  {
    PopsAppend(st, log, [Apply(op)]);
    assert [Apply(op)][0] == Apply(op);
  }

  /** An operand that broke in an open group leaves that group open as well. */
  lemma OpensThen(st: Stacks, log: seq<Action>)
    requires st != []
    ensures Steps(st, [Open] + log) == Steps(st + [[]], log)
    ensures Pops(st, [Open] + log) == Pops(st + [[]], log)
  {
    assert ([Open] + log)[0] == Open && ([Open] + log)[1..] == log;
  }

  /** A group of one expression is closed: one more expression below it. */
  lemma ClosesGroup(st: Stacks, log: seq<Action>)
    requires st != [] && Adds(st + [[]], log, 1)
    ensures Adds(st, [Open] + log + [Close], 1)
  {
    OpensThen(st, log);
    StepsAppend(st, [Open] + log, [Close]);
    var x := Steps(st + [[]], log).value;
    assert [Close][1..] == [] && (st + [[]])[..|st|] == st;
    assert Steps(x, [Close]) == Step(x, Close);
  }

  // ---- what each rule does, next to what the scan says

  ghost predicate Fails(st: Stacks, log: seq<Action>, waiting: bool, outer: seq<Bracket>, scan: bool) {
    || (log == [] && scan == Endangered(outer))
    || Breaks(st, log, Endangered(outer) || waiting, scan)
  }

  /** A rule for an operand that started on st, with scan the verdict of the scan there. */
  ghost predicate OperandRun(s: string, r: Run, st: Stacks, m: nat, waiting: bool,
                             outer: seq<Bracket>, scan: bool)
  {
    match r.out
    case Raise => Steps(st, r.log).Some? && !scan
    case Fail => Fails(st, r.log, waiting, outer, scan)
    case Ok(j) => j <= |s| && Adds(st, r.log, 1) && scan == AtOperator(Lex(s, j), m, outer)
  }

  lemma EndangeredBy(outer: seq<Bracket>, b: Bracket)
    ensures Endangered(outer + [b]) <==> Endangered(outer) || b.waiting
  {
    assert (outer + [b])[|outer|] == b;
    forall i | 0 <= i < |outer| ensures (outer + [b])[i] == outer[i] {
    }
  }

  lemma PushesLeaf(st: Stacks, k: Token)
    requires st != []
    ensures Adds(st, [PushLeaf(k)], 1)
  {
    assert [PushLeaf(k)][1..] == [];
    assert Steps(st, [PushLeaf(k)]) == Step(st, PushLeaf(k));
  }

  lemma WordRun(s: string, i: nat, st: Stacks, m: nat, waiting: bool, outer: seq<Bracket>)
    requires i < |s| && (IsDigit(s[i]) || IsHead(s[i])) && !IsSpace(s[i]) && st != []
    ensures OperandRun(s, Atom(s, i), st, m, waiting, outer, AtOperand(Lex(s, i), m, waiting, outer))
  {
    AtomOfWord(s, i);
    LexStep(s, i);
    if Atom(s, i).out.Ok? {
      PushesLeaf(st, NextToken(s, i).0);
    }
  }

  predicate StartsNotEqual(s: string, i: nat) {
    At(s, i, '!') && At(s, i + 1, '=')
  }

  lemma NoOperandToken(s: string, p: nat)
    requires p < |s| && !StartsValue(s, p) && (IsUnaryChar(s[p]) ==> StartsNotEqual(s, p))
    ensures var t := NextToken(s, p).0;
      || (t.P? && t.punct != LParen && !IsPrefix(t.punct))
      || (t.Bad? && !IsHead(t.c))
  {
    hide HexEnd, Variable;
    NextIsPunctuator(s, p);
  }

  /** Where no operand starts the scan stops as well. */
  lemma NoOperand(s: string, i: nat, m: nat, waiting: bool, outer: seq<Bracket>)
    requires i <= |s| && !StartsValue(s, SkipSpaces(s, i))
    requires var p := SkipSpaces(s, i); p < |s| && IsUnaryChar(s[p]) ==> StartsNotEqual(s, p)
    ensures AtOperand(Lex(s, i), m, waiting, outer) == Endangered(outer)
  {
    hide NextToken, HexEnd, Variable, Punctuator, StartsValue, Endangered;
    var p := SkipSpaces(s, i);
    LexSkips(s, i);
    if p < |s| {
      LexStep(s, p);
      NoOperandToken(s, p);
    } else {
      EmptyLex(s);
    }
  }

  lemma EmptyLex(s: string)
    ensures Lex(s, |s|) == []
  {
  }

  // ---- operands

  lemma {:induction false} GroupRun(s: string, i: nat, st: Stacks, m: nat, waiting: bool, outer: seq<Bracket>)
    requires i < |s| && s[i] == '(' && st != []
    ensures OperandRun(s, Bracketed(s, i), st, m, waiting, outer, AtOperand(Lex(s, i), m, waiting, outer))
    decreases |s| - i, 0
  {
    hide Adds, Breaks, AtOperator, Steps, Lex, Binary, Endangered;
    var b := SkipSpaces(s, i + 1);
    var e := Binary(9, s, b);
    var inner := outer + [Bracket(m, waiting)];
    AtomOfBracket(s, i);
    LexStep(s, i);
    LexSkips(s, i + 1);
    EndangeredBy(outer, Bracket(m, waiting));
    OpensThen(st, e.log);
    var scan := AtOperand(Lex(s, b), 0, false, inner);
    var top := BinaryLevel(9, s, b, st + [[]], 0, false, inner);
    if e.out.Ok? && Whole(9, s, e, st + [[]], 1, 0, inner, scan, top) {
      var c := e.out.end;
      GroupEnds(s, c, top, inner);
      if At(s, c, ')') {
        ClosesGroup(st, e.log);
      } else {
        OneLeft(st, e.log, Endangered(inner));
      }
    } else if e.out.Ok? {
      StuckGroup(s, e, st, inner, scan);
    } else {
      FailedGroup(st, e, inner, scan);
    }
  }

  /** Behind a complete expression comes no operator: the group ends or the scan stops. */
  lemma GroupEnds(s: string, c: nat, m: nat, outer: seq<Bracket>)
    requires c <= |s| && (c < |s| ==> !IsSpace(s[c])) && NoOperator(9, s, c)
    ensures At(s, c, ')') && outer != [] ==>
      AtOperator(Lex(s, c), m, outer) == AtOperator(Lex(s, c + 1), outer[|outer| - 1].loosest, outer[..|outer| - 1])
    ensures !(At(s, c, ')') && outer != []) ==> AtOperator(Lex(s, c), m, outer) == Endangered(outer)
  {
    if c < |s| {
      LexStep(s, c);
      TokenStart(s, c);
    }
  }

  lemma OneLeft(st: Stacks, log: seq<Action>, scan: bool)
    requires st != [] && Adds(st + [[]], log, 1)
    ensures Breaks(st, [Open] + log, scan, scan)
  {
    OpensThen(st, log);
  }

  lemma StuckGroup(s: string, e: Run, st: Stacks, inner: seq<Bracket>, scan: bool)
    requires st != [] && Lost(9, s, e, st + [[]], 1, 0, inner, scan)
    ensures Breaks(st, [Open] + e.log, Endangered(inner), scan)
  {
    OpensThen(st, e.log);
  }

  lemma FailedGroup(st: Stacks, e: Run, inner: seq<Bracket>, scan: bool)
    requires st != [] && !e.out.Ok?
    requires e.out.Raise? ==> Steps(st + [[]], e.log).Some? && !scan
    requires e.out.Fail? ==> Fails(st + [[]], e.log, false, inner, scan)
    ensures e.out.Raise? ==> Steps(st, [Open] + e.log).Some? && !scan
    ensures e.out.Fail? ==> Breaks(st, [Open] + e.log, Endangered(inner), scan)
  {
    OpensThen(st, e.log);
  }

  // ---- levels

  /** The lexer sees no operator of levels 1 to k at i. */
  ghost predicate NoOperator(k: nat, s: string, i: nat) {
    i < |s| && NextToken(s, i).0.P? ==>
      var level := InfixLevel(NextToken(s, i).0.punct);
      level == 0 || level > k
  }

  /** A rule of level k took a whole expression; m is the loosest operator of the group before,
      m2 after it. */
  ghost predicate Whole(k: nat, s: string, r: Run, st: Stacks, n: nat, m: nat, outer: seq<Bracket>,
                        scan: bool, m2: nat)
  {
    && r.out.Ok? && r.out.end <= |s| && (r.out.end < |s| ==> !IsSpace(s[r.out.end]))
    && NoOperator(k, s, r.out.end)
    && Adds(st, r.log, n)
    && (if m > k then m2 == m else m2 <= k)
    && scan == AtOperator(Lex(s, r.out.end), m2, outer)
  }

  /** A rule of level k gave up an operator nobody can take any more. */
  ghost predicate Lost(k: nat, s: string, r: Run, st: Stacks, n: nat, m: nat, outer: seq<Bracket>, scan: bool) {
    Stuck(k, s, r) &&
    (|| (Adds(st, r.log, n) && scan == Endangered(outer))
     || Breaks(st, r.log, Endangered(outer) || m > k, scan))
  }

  ghost predicate LevelRun(k: nat, s: string, r: Run, st: Stacks, m: nat, waiting: bool,
                           outer: seq<Bracket>, scan: bool, m2: nat)
  {
    match r.out
    case Raise => Steps(st, r.log).Some? && !scan
    case Fail => Fails(st, r.log, waiting, outer, scan)
    case Ok(_) => Whole(k, s, r, st, 1, m, outer, scan, m2) || Lost(k, s, r, st, 1, m, outer, scan)
  }

  lemma {:induction false} BinaryLevel(k: nat, s: string, i: nat, st: Stacks, m: nat, waiting: bool, outer: seq<Bracket>)
    returns (m2: nat)
    requires k <= 9 && i <= |s| && st != [] && (m == 0 || m > k)
    ensures LevelRun(k, s, Binary(k, s, i), st, m, waiting, outer, AtOperand(Lex(s, i), m, waiting, outer), m2)
    decreases |s| - i, 5 + k
  {
    hide Lex, AtOperand, AtOperator, Unary, Adds, Lost, Steps, Tail, Binary, Fails;
    m2 := m;
    var scan := AtOperand(Lex(s, i), m, waiting, outer);
    if k == 0 {
      UnaryRun(s, i, st, m, waiting, outer);
      LevelZero(s, i, st, m, waiting, outer, scan);
    } else {
      var l := Binary(k - 1, s, i);
      m2 := BinaryLevel(k - 1, s, i, st, m, waiting, outer);
      BinaryUnfolds(k, s, i);
      if l.out.Ok? {
        if Lost(k - 1, s, l, st, 1, m, outer, scan) {
          StaysLost(k, s, l, st, m, outer, scan);
        } else {
          var m1 := m2;
          AddsSome(st, l.log, 1);
          m2 := TailLevel(k, s, l.out.end, Steps(st, l.log).value, m1, outer);
          LevelJoins(k, s, l, st, m, m1, outer, scan, m2);
        }
      }
    }
  }

  lemma BinaryUnfolds(k: nat, s: string, i: nat)
    requires k > 0 && i <= |s|
    ensures var l := Binary(k - 1, s, i);
      Binary(k, s, i) ==
        if l.out.Ok? then Run(Tail(k, s, l.out.end).out, l.log + Tail(k, s, l.out.end).log) else l
  {
  }

  lemma AddsSome(st: Stacks, log: seq<Action>, n: nat)
    requires Adds(st, log, n)
    ensures Steps(st, log).Some? && Steps(st, log).value != []
    ensures var x := Steps(st, log).value; |x[|x| - 1]| >= n
  {
  }

  lemma LevelZero(s: string, i: nat, st: Stacks, m: nat, waiting: bool, outer: seq<Bracket>, scan: bool)
    requires i <= |s| && OperandRun(s, Unary(s, i), st, m, waiting, outer, scan)
    ensures LevelRun(0, s, Binary(0, s, i), st, m, waiting, outer, scan, m)
  {
  }

  /** An operator given up at a tighter level is nothing the next level takes. */
  lemma StaysLost(k: nat, s: string, l: Run, st: Stacks, m: nat, outer: seq<Bracket>, scan: bool)
    requires 1 <= k <= 9 && (m == 0 || m > k) && Lost(k - 1, s, l, st, 1, m, outer, scan)
    ensures var t := Tail(k, s, l.out.end);
      t.out.Ok? && Lost(k, s, Run(t.out, l.log + t.log), st, 1, m, outer, scan)
  {
    assert Tail(k, s, l.out.end) == Run(Ok(l.out.end), []);
    assert l.log + [] == l.log;
  }

  /** The repetition of level k, started behind an operand that is on top of st. */
  ghost predicate TailRun(k: nat, s: string, r: Run, st: Stacks, m: nat, outer: seq<Bracket>, scan: bool, m2: nat) {
    && !r.out.Fail?
    && (r.out.Raise? ==> Steps(st, r.log).Some? && !scan)
    && (r.out.Ok? ==> Whole(k, s, r, st, 0, m, outer, scan, m2) || Lost(k, s, r, st, 0, m, outer, scan))
  }

  lemma LevelJoins(k: nat, s: string, l: Run, st: Stacks, m: nat, m1: nat, outer: seq<Bracket>, scan: bool, m2: nat)
    requires 1 <= k <= 9 && (m == 0 || m > k) && Whole(k - 1, s, l, st, 1, m, outer, scan, m1)
    requires TailRun(k, s, Tail(k, s, l.out.end), Steps(st, l.log).value, m1, outer, scan, m2)
    ensures var t := Tail(k, s, l.out.end);
      LevelRun(k, s, Run(t.out, l.log + t.log), st, m, false, outer, scan, m2) && !t.out.Fail?
  {
    var t := Tail(k, s, l.out.end);
    StepsAppend(st, l.log, t.log);
    PopsAppend(st, l.log, t.log);
  }

  /** The operator token of level k at i, seen by the parser and by the scan. */
  lemma OperatorSeen(k: nat, s: string, i: nat, m: nat, outer: seq<Bracket>)
    requires 1 <= k <= 9 && i < |s| && !IsSpace(s[i])
    requires NextToken(s, i).0.P? && InfixLevel(NextToken(s, i).0.punct) == k
    ensures OpLength(k, s, i) > 0 && i + OpLength(k, s, i) == NextToken(s, i).1
    ensures AtOperator(Lex(s, i), m, outer)
      == AtOperand(Lex(s, i + OpLength(k, s, i)), Max(m, k), k < m, outer)
    ensures !IsUnary(OpPushed(k, s, i)) && s[i] != ')'
    ensures forall u :: k < u <= 9 ==> OpLength(u, s, i) == 0
  {
    TailTakes(k, s, i);
    LexStep(s, i);
    TokenStart(s, i);
    OperatorIsNoWord(k, s, i);
    NextIsPunctuator(s, i);
    forall u | k < u <= 9 ensures OpLength(u, s, i) == 0 {
      TokenOfOneLevel(k, u, s, i);
    }
  }

  lemma TokenOfOneLevel(k: nat, u: nat, s: string, i: nat)
    requires 1 <= k < u <= 9 && i < |s|
    requires Punctuator(s, i).0.P? && InfixLevel(Punctuator(s, i).0.punct) == k
    ensures OpLength(u, s, i) == 0
  {
  }

  lemma {:induction false} TailLevel(k: nat, s: string, i: nat, st: Stacks, m: nat, outer: seq<Bracket>)
    returns (m2: nat)
    requires 1 <= k <= 9 && i <= |s| && (i < |s| ==> !IsSpace(s[i])) && NoOperator(k - 1, s, i)
    requires st != [] && |st[|st| - 1]| >= 1
    ensures TailRun(k, s, Tail(k, s, i), st, m, outer, AtOperator(Lex(s, i), m, outer), m2)
    decreases |s| - i, 0
  {
    hide Lex, AtOperand, Adds, Lost, Tail, Binary, Steps;
    m2 := m;
    if NoOperator(k, s, i) {
      TailEnds(k, s, i, st, m, outer);
    } else {
      OperatorSeen(k, s, i, m, outer);
      var h := i + OpLength(k, s, i);
      var scan := AtOperator(Lex(s, i), m, outer);
      var e := Binary(k - 1, s, h);
      m2 := BinaryLevel(k - 1, s, h, st, Max(m, k), k < m, outer);
      if e.out.Ok? && Whole(k - 1, s, e, st, 1, Max(m, k), outer, scan, m2) {
        TailRound(k, s, i);
        var op := OpPushed(k, s, i);
        AddsOperator(st, e.log, 1, op);
        var x, m1 := Steps(st, e.log + [Apply(op)]).value, m2;
        m2 := TailLevel(k, s, e.out.end, x, m1, outer);
        TailJoins(k, s, i, st, e.log + [Apply(op)], e.out.end, m, m1, outer, scan, m2);
      } else if e.out.Ok? {
        TailRound(k, s, i);
        LostOperand(k, s, i, e, st, m, outer, scan, m2);
      } else {
        NoRightOperand(k, s, i, st, m, outer, scan, m2);
      }
    }
  }

  lemma TailEnds(k: nat, s: string, i: nat, st: Stacks, m: nat, outer: seq<Bracket>)
    requires 1 <= k <= 9 && i <= |s| && (i < |s| ==> !IsSpace(s[i])) && st != [] && NoOperator(k, s, i)
    ensures TailRun(k, s, Tail(k, s, i), st, m, outer, AtOperator(Lex(s, i), m, outer), m)
  {
    TailStops(k, s, i);
  }

  /** The right operand is missing, or an exception ended the parse in it. */
  lemma NoRightOperand(k: nat, s: string, i: nat, st: Stacks, m: nat, outer: seq<Bracket>, scan: bool, m2: nat)
    requires 1 <= k <= 9 && i < |s| && !IsSpace(s[i]) && s[i] != ')' && st != []
    requires OpLength(k, s, i) > 0 && forall u :: k < u <= 9 ==> OpLength(u, s, i) == 0
    requires var e := Binary(k - 1, s, i + OpLength(k, s, i));
      !e.out.Ok? && LevelRun(k - 1, s, e, st, Max(m, k), k < m, outer, scan, m2)
    ensures TailRun(k, s, Tail(k, s, i), st, m, outer, scan, m2)
  {
    var e := Binary(k - 1, s, i + OpLength(k, s, i));
    if e.out.Fail? {
      assert Tail(k, s, i) == Run(Ok(i), e.log);
    } else {
      assert Tail(k, s, i) == e;
    }
  }

  lemma TailJoins(k: nat, s: string, i: nat, st: Stacks, log: seq<Action>, j: nat, m: nat, m1: nat,
                  outer: seq<Bracket>, scan: bool, m2: nat)
    requires 1 <= k <= 9 && i <= |s| && j <= |s| && Adds(st, log, 0)
    requires Tail(k, s, i) == Run(Tail(k, s, j).out, log + Tail(k, s, j).log)
    requires (m > k ==> m1 == m) && (m <= k ==> m1 <= k)
    requires TailRun(k, s, Tail(k, s, j), Steps(st, log).value, m1, outer, scan, m2)
    ensures TailRun(k, s, Tail(k, s, i), st, m, outer, scan, m2)
  {
    StepsAppend(st, log, Tail(k, s, j).log);
    PopsAppend(st, log, Tail(k, s, j).log);
  }

  /** The right operand was given up halfway: the operator is applied all the same. */
  lemma LostOperand(k: nat, s: string, i: nat, e: Run, st: Stacks, m: nat, outer: seq<Bracket>, scan: bool, m2: nat)
    requires 1 <= k <= 9 && i < |s| && OpLength(k, s, i) > 0 && !IsUnary(OpPushed(k, s, i))
    requires e == Binary(k - 1, s, i + OpLength(k, s, i))
    requires Lost(k - 1, s, e, st, 1, Max(m, k), outer, scan) && st != [] && |st[|st| - 1]| >= 1
    ensures TailRun(k, s, Tail(k, s, i), st, m, outer, scan, m2)
  {
    var op := OpPushed(k, s, i);
    TailRound(k, s, i);
    assert Tail(k, s, e.out.end) == Run(Ok(e.out.end), []);
    assert e.log + [Apply(op)] + [] == e.log + [Apply(op)];
    if Adds(st, e.log, 1) && scan == Endangered(outer) {
      AddsOperator(st, e.log, 1, op);
    } else {
      BreaksOperator(st, e.log, op, scan);
    }
  }

  lemma {:induction false} ValueRun(s: string, i: nat, st: Stacks, m: nat, waiting: bool, outer: seq<Bracket>)
    requires i <= |s| && st != []
    ensures OperandRun(s, Value(s, i), st, m, waiting, outer, AtOperand(Lex(s, i), m, waiting, outer))
      || (!StartsValue(s, SkipSpaces(s, i)) && Value(s, i) == Run(Fail, []))
    decreases |s| - i, 2
  {
    var p := SkipSpaces(s, i);
    LexSkips(s, i);
    if !StartsValue(s, p) {
      NoValue(s, i);
    } else {
      if s[p] == '(' {
        AtomOfBracket(s, p);
        GroupRun(s, p, st, m, waiting, outer);
      } else {
        WordRun(s, p, st, m, waiting, outer);
      }
      if Atom(s, p).out.Ok? {
        LexSkips(s, Atom(s, p).out.end);
      }
    }
  }

  lemma {:induction false} UnaryRun(s: string, i: nat, st: Stacks, m: nat, waiting: bool, outer: seq<Bracket>)
    requires i <= |s| && st != []
    ensures OperandRun(s, Unary(s, i), st, m, waiting, outer, AtOperand(Lex(s, i), m, waiting, outer))
    decreases |s| - i, 4
  {
    var p := SkipSpaces(s, i);
    ValueRun(s, i, st, m, waiting, outer);
    if StartsValue(s, p) {
      assert Unary0(s, p) == Run(Fail, []);
      assert Value(s, i).log + [] == Value(s, i).log;
    } else {
      LexSkips(s, i);
      if p < |s| && IsUnaryChar(s[p]) {
        UnaryOfPrefix(s, i);
        PrefixRun(s, p, st, m, waiting, outer);
        if Unary0(s, p).out.Ok? {
          LexSkips(s, Unary0(s, p).out.end);
        }
      } else {
        NoStart(0, s, i);
        NoOperand(s, i, m, waiting, outer);
      }
    }
  }

  /** A prefix operator tries its operand twice; a bracket that failed is opened twice. */
  lemma {:induction false} PrefixRun(s: string, p: nat, st: Stacks, m: nat, waiting: bool, outer: seq<Bracket>)
    requires p < |s| && IsUnaryChar(s[p]) && !IsSpace(s[p]) && st != []
    ensures OperandRun(s, Unary0(s, p), st, m, waiting, outer, AtOperand(Lex(s, p), m, waiting, outer))
    decreases |s| - p, 3
  {
    hide OperandRun, Fails, Lex, AtOperand, Value, Unary, Unary0, NextToken, Endangered;
    if StartsNotEqual(s, p) {
      NotEqualRun(s, p, st, m, waiting, outer);
    } else {
      PrefixSeen(s, p, m, waiting, outer);
      var scan := AtOperand(Lex(s, p + 1), m, waiting, outer);
      if StartsValue(s, SkipSpaces(s, p + 1)) {
        ValueRun(s, p + 1, st, m, waiting, outer);
        if Value(s, p + 1).out.Fail? {
          TwiceFailed(s, p, st, m, waiting, outer);
        }
        PrefixOnValue(s, p, st, m, waiting, outer, scan);
      } else {
        UnaryRun(s, p + 1, st, m, waiting, outer);
        PrefixOnPrefix(s, p, st, m, waiting, outer, scan);
      }
    }
  }

  lemma PrefixSeen(s: string, p: nat, m: nat, waiting: bool, outer: seq<Bracket>)
    requires p < |s| && IsUnaryChar(s[p]) && !IsSpace(s[p]) && !StartsNotEqual(s, p)
    ensures AtOperand(Lex(s, p), m, waiting, outer) == AtOperand(Lex(s, p + 1), m, waiting, outer)
  {
    hide NextToken, HexEnd, Variable;
    LexStep(s, p);
    NextIsPunctuator(s, p);
  }

  /** "!=" starts no operand. */
  lemma NotEqualRun(s: string, p: nat, st: Stacks, m: nat, waiting: bool, outer: seq<Bracket>)
    requires p < |s| && !IsSpace(s[p]) && StartsNotEqual(s, p)
    ensures OperandRun(s, Unary0(s, p), st, m, waiting, outer, AtOperand(Lex(s, p), m, waiting, outer))
  {
    NoValue(s, p + 1);
    NoStart(0, s, p + 1);
    NoOperand(s, p, m, waiting, outer);
    assert Unary0(s, p) == Run(Fail, []);
  }

  lemma PrefixOnValue(s: string, p: nat, st: Stacks, m: nat, waiting: bool, outer: seq<Bracket>, scan: bool)
    requires p < |s| && IsUnaryChar(s[p]) && StartsValue(s, SkipSpaces(s, p + 1))
    requires OperandRun(s, Value(s, p + 1), st, m, waiting, outer, scan)
    requires var v := Value(s, p + 1); v.out.Fail? ==> Fails(st, v.log + v.log, waiting, outer, scan)
    ensures OperandRun(s, Unary0(s, p), st, m, waiting, outer, scan)
  {
    var v := Value(s, p + 1);
    if v.out.Ok? {
      AddsOperator(st, v.log, 1, UnaryPushed(s[p]));
    } else if v.out.Fail? {
      assert Unary0(s, SkipSpaces(s, p + 1)) == Run(Fail, []);
      assert v.log + [] == v.log;
      assert Unary(s, p + 1) == v;
    }
  }

  lemma PrefixOnPrefix(s: string, p: nat, st: Stacks, m: nat, waiting: bool, outer: seq<Bracket>, scan: bool)
    requires p < |s| && IsUnaryChar(s[p]) && !StartsValue(s, SkipSpaces(s, p + 1))
    requires OperandRun(s, Unary(s, p + 1), st, m, waiting, outer, scan)
    ensures OperandRun(s, Unary0(s, p), st, m, waiting, outer, scan)
  {
    var e := Unary(s, p + 1);
    NoValue(s, p + 1);
    assert [] + e.log == e.log;
    if e.out.Ok? {
      AddsOperator(st, e.log, 1, UnaryPushed(s[p]));
    }
  }

  lemma {:induction false} TwiceFailed(s: string, p: nat, st: Stacks, m: nat, waiting: bool, outer: seq<Bracket>)
    requires p + 1 <= |s| && StartsValue(s, SkipSpaces(s, p + 1)) && st != [] && Value(s, p + 1).out.Fail?
    ensures var v := Value(s, p + 1);
      Fails(st, v.log + v.log, waiting, outer, AtOperand(Lex(s, p + 1), m, waiting, outer))
    decreases |s| - p, 2
  {
    hide Lex, AtOperand, Value, Steps, Pops, Endangered, StartsValue;
    var log := Value(s, p + 1).log;
    var scan := AtOperand(Lex(s, p + 1), m, waiting, outer);
    ValueRun(s, p + 1, st, m, waiting, outer);
    if Pops(st, log) {
      PopsFails(st, log);
      PopsThen(st, log, log, Endangered(outer) || waiting);
    } else if log != [] {
      ValueRun(s, p + 1, Steps(st, log).value, m, waiting, outer);
      PopsAppend(st, log, log);
    } else {
      assert log + log == [];
    }
  }

  // ---- the parser as a whole

  /** The actions of a parse apply an operator to a stack with too few expressions, which pops
      an empty stack, exactly when the scan says so; otherwise they run to their end. */
  lemma PopsEmptyStackExactly(s: string)
    ensures Pops([[]], Parse(s).log) <==> StopsBehindWaiting(Lex(s, 0))
    ensures Steps([[]], Parse(s).log).None? <==> StopsBehindWaiting(Lex(s, 0))
  {
    var r := Binary(9, s, 0);
    var m2 := BinaryLevel(9, s, 0, [[]], 0, false, []);
    if r.out.Ok? && r.out.end <= |s| && NoOperator(9, s, r.out.end) && !Stuck(9, s, r) {
      GroupEnds(s, r.out.end, m2, []);
    }
    if Pops([[]], r.log) {
      PopsFails([[]], r.log);
    }
  }

  const UNCLOSED := "a+b*(c"

  lemma LettersLex(s: string, i: nat)
    requires i < |s| && IsHead(s[i])
    requires i + 1 < |s| ==>
      !IsHead(s[i + 1]) && !IsDigit(s[i + 1]) && s[i + 1] != '[' && s[i + 1] != '.'
    ensures Lex(s, i) == [Name(s[i..i + 1])] + Lex(s, i + 1)
  {
    assert WordEnd(s, i) == i + 1;
    assert Variable2(s, i) == Matched(i + 1);
    assert Variable(s, i) == Matched(i + 1);
    LexStep(s, i);
  }

  lemma UnclosedTokens()
    ensures Lex(UNCLOSED, 0) ==
      [Name("a"), P(Plus), Name("b"), P(Star), P(LParen), Name("c")]
  {
    hide Lex, NextToken, HexEnd, Variable;
    var s := UNCLOSED;
    LettersLex(s, 0);
    SignLex(s, 1);
    LettersLex(s, 2);
    SignLex(s, 3);
    SignLex(s, 4);
    LettersLex(s, 5);
    EmptyLex(s);
    assert s[0..1] == "a" && s[2..3] == "b" && s[5..6] == "c";
  }

  lemma SignLex(s: string, i: nat)
    requires i < |s| && (s[i] == '+' || s[i] == '*' || s[i] == '(')
    ensures Lex(s, i)
      == [P(if s[i] == '+' then Plus else if s[i] == '*' then Star else LParen)] + Lex(s, i + 1)
  {
    hide Lex, NextToken, HexEnd, Variable;
    LexStep(s, i);
    NextIsPunctuator(s, i);
  }

  /** On "a+b*(c" the addition waits for the product and is applied with only c on top. */
  lemma RejectedInputCanUnderflow()
    ensures StopsBehindWaiting(Lex(UNCLOSED, 0)) && !Accepts(UNCLOSED)
    ensures Steps([[]], Parse(UNCLOSED).log).None?
  {
    hide Lex, Parse, Steps;
    UnclosedTokens();
    UnclosedScan();
    PopsEmptyStackExactly(UNCLOSED);
    AcceptedRuns(UNCLOSED);
  }

  lemma ScanSteps(t: Token, rest: seq<Token>, m: nat, waiting: bool, outer: seq<Bracket>)
    ensures t.Name? ==> AtOperand([t] + rest, m, waiting, outer) == AtOperator(rest, m, outer)
    ensures t == P(LParen) ==>
      AtOperand([t] + rest, m, waiting, outer) == AtOperand(rest, 0, false, outer + [Bracket(m, waiting)])
    ensures t.P? && InfixLevel(t.punct) > 0 ==>
      AtOperator([t] + rest, m, outer)
        == AtOperand(rest, Max(m, InfixLevel(t.punct)), InfixLevel(t.punct) < m, outer)
  {
    assert ([t] + rest)[1..] == rest;
  }

  lemma UnclosedScan()
    ensures StopsBehindWaiting([Name("a"), P(Plus), Name("b"), P(Star), P(LParen), Name("c")])
  {
    hide AtOperand;
    hide AtOperator;
    var last: seq<Token> := [];
    var c := [Name("c")] + last;
    var group := [P(LParen)] + c;
    var product := [P(Star)] + group;
    var second := [Name("b")] + product;
    var sum := [P(Plus)] + second;
    ScanSteps(Name("a"), sum, 0, false, []);
    ScanSteps(P(Plus), second, 0, false, []);
    ScanSteps(Name("b"), product, 2, false, []);
    ScanSteps(P(Star), group, 2, false, []);
    ScanSteps(P(LParen), c, 2, true, []);
    ScanSteps(Name("c"), last, 0, false, [] + [Bracket(2, true)]);
    ScanEnds([] + [Bracket(2, true)], 0);
    assert [Name("a")] + sum == [Name("a"), P(Plus), Name("b"), P(Star), P(LParen), Name("c")];
  }

  lemma ScanEnds(outer: seq<Bracket>, m: nat)
    ensures AtOperator([], m, outer) == Endangered(outer)
    ensures outer != [] && outer[0].waiting ==> Endangered(outer)
  {
  }

  lemma AcceptedRuns(s: string)
    ensures Accepts(s) ==> Steps([[]], Parse(s).log).Some?
  {
    if Accepts(s) {
      AcceptsExactly(s);
      var t :| WellFormed(t) && Yield(t) == Lex(s, 0);
      AcceptedLeavesTheTree(s, t);
    }
  }
}
