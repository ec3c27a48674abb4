/** Batches of breakpoints, as positions in the ordered list the scheduler keeps: what one
    forward or reverse step hands out, and what whole sweeps amount to (src/scheduler.cc). */
module SchedulerBatches {

  /** The fields of a DebugBreakPoint that scheduling looks at; the last three are the bits of
      its type. */
  datatype Entry = Entry(
    id: nat, instance: nat, enable: string,
    filename: string, line: nat, column: nat,
    normal: bool, data: bool, asserts: bool)

  predicate OnlyNormal(e: Entry) { e.normal && !e.data && !e.asserts }

  predicate OnlyData(e: Entry) { e.data && !e.normal && !e.asserts }

  predicate SameSpot(a: Entry, b: Entry) {
    a.line == b.line && a.filename == b.filename && a.column == b.column
  }

  /** b joins the batch of its reference: not pure data, another instance, same condition. */
  predicate Joins(ref: Entry, b: Entry) {
    !OnlyData(b) && b.instance != ref.instance && b.enable == ref.enable
  }

  function Last<T>(s: seq<T>): T
    requires s != []
  {
    s[|s| - 1]
  }

  /** Positions a forward scan from i collects for the reference at r. */
  function Forward(bps: seq<Entry>, r: nat, i: nat): (ms: seq<nat>)
    requires r < |bps| && i <= |bps|
    ensures ms != [] ==> i <= Last(ms) < |bps|
    ensures forall m :: m in ms ==> m < |bps|
    decreases |bps| - i
  {
    if i == |bps| || !SameSpot(bps[i], bps[r]) then []
    else (if Joins(bps[r], bps[i]) then [i] else []) + Forward(bps, r, i + 1)
  }

  /** Positions a backward scan from i - 1 down collects for the reference at r. */
  function Backward(bps: seq<Entry>, r: nat, i: nat): (ms: seq<nat>)
    requires r < |bps| && i <= |bps|
    ensures ms != [] ==> Last(ms) < i
    ensures forall m :: m in ms ==> m < |bps|
  {
    if i == 0 || !SameSpot(bps[i - 1], bps[r]) then []
    else (if Joins(bps[r], bps[i - 1]) then [i - 1] else []) + Backward(bps, r, i - 1)
  }

  /** What next_normal_breakpoints hands out when it starts at position i. */
  function Batch(bps: seq<Entry>, single: bool, i: nat): (b: seq<nat>)
    requires i < |bps|
    ensures b != [] && b[0] == i && i <= Last(b) < |bps|
    ensures forall m :: m in b ==> m < |bps|
  {
    if single || !OnlyNormal(bps[i]) then [i] else [i] + Forward(bps, i, i)
  }

  /** What next_reverse_breakpoints hands out when it starts at position i. */
  function ReverseBatch(bps: seq<Entry>, single: bool, i: nat): (b: seq<nat>)
    requires i < |bps|
    ensures b != [] && b[0] == i && Last(b) <= i
    ensures forall m :: m in b ==> m < |bps|
  {
    if single || bps[i].data then [i] else [i] + Backward(bps, i, i)
  }

  /** All batches of a forward cycle from position i on. */
  function Cycle(bps: seq<Entry>, single: bool, i: nat): (bs: seq<seq<nat>>)
    requires i <= |bps|
    decreases |bps| - i
  {
    if i == |bps| then []
    else
      var b := Batch(bps, single, i);
      [b] + Cycle(bps, single, Last(b) + 1)
  }

  /** All batches of a reverse sweep from position i down. */
  function ReverseCycle(bps: seq<Entry>, single: bool, i: nat): seq<seq<nat>>
    requires i < |bps|
    decreases i
  {
    var b := ReverseBatch(bps, single, i);
    if Last(b) == 0 then [b] else [b] + ReverseCycle(bps, single, Last(b) - 1)
  }

  function Flatten<T>(bs: seq<seq<T>>): seq<T> {
    if bs == [] then [] else bs[0] + Flatten(bs[1..])
  }

  // ---- a forward cycle

  /** f is strictly ascending and stays within lo .. hi - 1. */
  ghost predicate Ascends(f: seq<nat>, lo: nat, hi: nat) {
    if f == [] then lo <= hi else lo <= f[0] < hi && Ascends(f[1..], f[0] + 1, hi)
  }

  lemma {:induction false} AscendsAppend(f: seq<nat>, g: seq<nat>, lo: nat, mid: nat, hi: nat)
    requires Ascends(f, lo, mid) && Ascends(g, mid, hi)
    ensures Ascends(f + g, lo, hi)
    decreases f
  {
    AscendsOver(g, mid, hi);
    if f == [] {
      assert f + g == g;
      AscendsFrom(g, lo, mid, hi);
    } else {
      assert (f + g)[1..] == f[1..] + g;
      AscendsOver(f[1..], f[0] + 1, mid);
      AscendsAppend(f[1..], g, f[0] + 1, mid, hi);
    }
  }

  lemma {:induction false} AscendsOver(f: seq<nat>, lo: nat, hi: nat)
    requires Ascends(f, lo, hi)
    ensures lo <= hi
    decreases f
  {
    if f != [] {
      AscendsOver(f[1..], f[0] + 1, hi);
    }
  }

  lemma AscendsFrom(f: seq<nat>, lo: nat, mid: nat, hi: nat)
    requires Ascends(f, mid, hi) && lo <= mid <= hi
    ensures Ascends(f, lo, hi)
  {
  }

  /** Ascending means: in bounds, and every later position is a larger one. */
  lemma {:induction false} AscendsMeans(f: seq<nat>, lo: nat, hi: nat)
    requires Ascends(f, lo, hi)
    ensures forall k :: 0 <= k < |f| ==> lo <= f[k] < hi
    ensures forall k, l :: 0 <= k < l < |f| ==> f[k] < f[l]
    decreases f
  {
    if f != [] {
      AscendsMeans(f[1..], f[0] + 1, hi);
      assert forall k :: 1 <= k < |f| ==> f[k] == f[1..][k - 1];
    }
  }

  lemma {:induction false} ForwardAscends(bps: seq<Entry>, r: nat, i: nat)
    requires r < |bps| && i <= |bps|
    ensures var f := Forward(bps, r, i); Ascends(f, i, if f == [] then i else Last(f) + 1)
    decreases |bps| - i
  {
    if i < |bps| && SameSpot(bps[i], bps[r]) {
      ForwardAscends(bps, r, i + 1);
      var rest := Forward(bps, r, i + 1);
      if Joins(bps[r], bps[i]) {
        assert ([i] + rest)[1..] == rest;
      } else {
        assert [] + rest == rest;
        AscendsFrom(rest, i, i + 1, if rest == [] then i + 1 else Last(rest) + 1);
      }
    }
  }

  lemma BatchAscends(bps: seq<Entry>, single: bool, i: nat)
    requires i < |bps|
    ensures var b := Batch(bps, single, i); Ascends(b, i, Last(b) + 1)
  {
    var f := Forward(bps, i, i + 1);
    ForwardAscends(bps, i, i + 1);
    LeaderStaysOut(bps, i);
    AscendsCons(i, f, if f == [] then i + 1 else Last(f) + 1);
    AscendsCons(i, [], i + 1);
    hide Ascends;
    assert [i] + [] == [i];
  }

  lemma AscendsCons(i: nat, f: seq<nat>, end: nat)
    requires Ascends(f, i + 1, end)
    ensures Ascends([i] + f, i, end)
  {
    AscendsOver(f, i + 1, end);
    assert ([i] + f)[1..] == f;
  }

  /** A reference does not join its own batch. */
  lemma LeaderStaysOut(bps: seq<Entry>, i: nat)
    requires i < |bps|
    ensures Forward(bps, i, i) == Forward(bps, i, i + 1)
  {
    assert [] + Forward(bps, i, i + 1) == Forward(bps, i, i + 1);
  }

  /** Positions are handed out in strictly ascending order: none twice. */
  lemma {:induction false} CycleAscends(bps: seq<Entry>, single: bool, i: nat)
    requires i <= |bps|
    ensures Ascends(Flatten(Cycle(bps, single, i)), i, |bps|)
    decreases |bps| - i
  {
    if i < |bps| {
      var b := Batch(bps, single, i);
      var rest := Cycle(bps, single, Last(b) + 1);
      CycleAscends(bps, single, Last(b) + 1);
      FlattenCons(b, rest);
      BatchAscends(bps, single, i);
      AscendsAppend(b, Flatten(rest), i, Last(b) + 1, |bps|);
    }
  }

  lemma FlattenCons<T>(b: seq<T>, rest: seq<seq<T>>)
    ensures Flatten([b] + rest) == b + Flatten(rest)
  {
    assert ([b] + rest)[1..] == rest;
  }

  lemma {:induction false} CycleIsShort(bps: seq<Entry>, single: bool, i: nat)
    requires i <= |bps|
    ensures |Cycle(bps, single, i)| <= |bps| - i
    decreases |bps| - i
  {
    if i < |bps| {
      CycleIsShort(bps, single, Last(Batch(bps, single, i)) + 1);
    }
  }

  /** In single-thread mode every breakpoint is handed out, alone, in list order. */
  lemma {:induction false} SingleThreadMissesNone(bps: seq<Entry>, i: nat)
    requires i <= |bps|
    ensures var c := Cycle(bps, true, i);
      |c| == |bps| - i && forall k :: 0 <= k < |c| ==> c[k] == [i + k]
    decreases |bps| - i
  {
    if i < |bps| {
      SingleThreadMissesNone(bps, i + 1);
    }
  }

  /** m is skipped by the batch b: inside it, at the leader's location, and kept out by its
      instance, its condition or its kind. */
  ghost predicate Skips(bps: seq<Entry>, b: seq<nat>, m: nat) {
    && b != [] && b[0] < m < Last(b) < |bps|
    && SameSpot(bps[m], bps[b[0]])
    && (bps[m].instance == bps[b[0]].instance || bps[m].enable != bps[b[0]].enable
        || OnlyData(bps[m]))
  }

  /** What a forward cycle misses: exactly the entries some batch of it skips. */
  lemma {:induction false} CycleMisses(bps: seq<Entry>, single: bool, i: nat, m: nat)
    requires i <= m < |bps|
    ensures m !in Flatten(Cycle(bps, single, i)) <==> Skipped(bps, Cycle(bps, single, i), m)
    decreases |bps| - i
  {
    var b := Batch(bps, single, i);
    var next := Last(b) + 1;
    var rest := Cycle(bps, single, next);
    FlattenCons(b, rest);
    CycleAscends(bps, single, next);
    AscendsMeans(Flatten(rest), next, |bps|);
    BatchAscends(bps, single, i);
    AscendsMeans(b, i, next);
    SkippedCons(bps, b, rest, m);
    if m < next {
      BatchMisses(bps, single, i, m);
      forall k | 0 <= k < |rest| ensures !Skips(bps, rest[k], m) {
        CycleLeaders(bps, single, next, k);
      }
    } else {
      CycleMisses(bps, single, next, m);
    }
  }

  ghost predicate Skipped(bps: seq<Entry>, c: seq<seq<nat>>, m: nat) {
    exists k :: 0 <= k < |c| && Skips(bps, c[k], m)
  }

  lemma SkippedCons(bps: seq<Entry>, b: seq<nat>, rest: seq<seq<nat>>, m: nat)
    ensures Skipped(bps, [b] + rest, m) <==> Skips(bps, b, m) || Skipped(bps, rest, m)
  {
    var c := [b] + rest;
    if Skips(bps, b, m) {
      assert Skips(bps, c[0], m);
    }
    if k :| 0 <= k < |rest| && Skips(bps, rest[k], m) {
      assert Skips(bps, c[k + 1], m);
    }
  }

  lemma {:induction false} CycleLeaders(bps: seq<Entry>, single: bool, i: nat, k: nat)
    requires i <= |bps| && k < |Cycle(bps, single, i)|
    ensures Cycle(bps, single, i)[k] != [] && i <= Cycle(bps, single, i)[k][0]
    decreases |bps| - i
  {
    var next := Last(Batch(bps, single, i)) + 1;
    if k > 0 {
      CycleLeaders(bps, single, next, k - 1);
    }
  }

  lemma BatchMisses(bps: seq<Entry>, single: bool, i: nat, m: nat)
    requires i < |bps| && i <= m <= Last(Batch(bps, single, i))
    ensures m !in Batch(bps, single, i) <==> Skips(bps, Batch(bps, single, i), m)
  {
    var b := Batch(bps, single, i);
    if !single && OnlyNormal(bps[i]) && |b| > 1 {
      ForwardReach(bps, i, i, m);
      if m != i {
        assert m in b <==> m in Forward(bps, i, i);
      }
    }
  }

  // ---- batches in the fields of the breakpoints

  /** At one line and column of one file, from position i to position j. */
  ghost predicate OnePlace(bps: seq<Entry>, i: nat, j: nat)
    requires j < |bps|
  {
    forall k :: i <= k <= j ==>
      bps[k].line == bps[j].line && bps[k].column == bps[j].column && bps[k].filename == bps[j].filename
  }

  /** m can be handed out with the leader r: not a data breakpoint only, in another instance, under
      the same enable condition. */
  ghost predicate GoesWith(bps: seq<Entry>, r: nat, m: nat)
    requires r < |bps| && m < |bps|
  {
    && (bps[m].data ==> bps[m].normal || bps[m].asserts)
    && bps[m].instance != bps[r].instance && bps[m].enable == bps[r].enable
  }

  lemma {:induction false} ForwardMembers(bps: seq<Entry>, r: nat, i: nat, m: nat)
    requires r <= i <= |bps| && r < |bps| && m < |bps| && forall k :: r <= k < i ==> SameSpot(bps[k], bps[r])
    ensures m in Forward(bps, r, i) <==> i <= m && OnePlace(bps, r, m) && GoesWith(bps, r, m)
    decreases |bps| - i
  {
    if i < |bps| {
      if SameSpot(bps[i], bps[r]) {
        ForwardMembers(bps, r, i + 1, m);
      } else if i <= m {
        assert !OnePlace(bps, r, m);
      }
    }
  }

  /** Which breakpoints a forward step hands out with the one at i. */
  lemma BatchExactly(bps: seq<Entry>, i: nat, m: nat)
    requires i < m < |bps|
    ensures m in Batch(bps, false, i) <==>
      && bps[i].normal && !bps[i].data && !bps[i].asserts
      && OnePlace(bps, i, m) && GoesWith(bps, i, m)
  {
    ForwardMembers(bps, i, i, m);
  }

  lemma {:induction false} BackwardMembers(bps: seq<Entry>, r: nat, i: nat, m: nat)
    requires i <= r < |bps| && m < |bps| && OnePlace(bps, i, r)
    ensures m in Backward(bps, r, i) <==> m < i && OnePlace(bps, m, r) && GoesWith(bps, r, m)
    decreases i
  {
    if i > 0 {
      if SameSpot(bps[i - 1], bps[r]) {
        BackwardMembers(bps, r, i - 1, m);
      } else if m < i {
        assert !OnePlace(bps, m, r);
      }
    }
  }

  /** Which breakpoints a reverse step hands out with the one at i: mixed types and assertions do not
      hinder it, as they do a forward step. */
  lemma ReverseBatchExactly(bps: seq<Entry>, i: nat, m: nat)
    requires m < i < |bps|
    ensures m in ReverseBatch(bps, false, i) <==> !bps[i].data && OnePlace(bps, m, i) && GoesWith(bps, i, m)
  {
    BackwardMembers(bps, i, i, m);
  }

  ghost predicate Descends(ms: seq<nat>) { forall k, l :: 0 <= k < l < |ms| ==> ms[l] < ms[k] }

  lemma {:induction false} BackwardDescends(bps: seq<Entry>, r: nat, i: nat)
    requires r < |bps| && i <= |bps|
    ensures Descends(Backward(bps, r, i))
  {
    hide Joins, SameSpot, Descends, Backward;
    BackwardStep(bps, r, i);
    DescendsNothing();
    if i > 0 && SameSpot(bps[i - 1], bps[r]) {
      BackwardDescends(bps, r, i - 1);
      BackwardBelow(bps, r, i - 1);
      var rest := Backward(bps, r, i - 1);
      DescendsCons(i - 1, rest);
      assert [] + rest == rest;
    }
  }

  lemma BackwardStep(bps: seq<Entry>, r: nat, i: nat)
    requires r < |bps| && i <= |bps|
    ensures Backward(bps, r, i) ==
      if i == 0 || !SameSpot(bps[i - 1], bps[r]) then []
      else (if Joins(bps[r], bps[i - 1]) then [i - 1] else []) + Backward(bps, r, i - 1)
  {
  }

  lemma DescendsNothing()
    ensures Descends([])
  {
  }

  lemma DescendsCons(i: nat, rest: seq<nat>)
    requires Descends(rest) && forall m :: m in rest ==> m < i
    ensures Descends([i] + rest)
  {
    assert forall k :: 0 < k <= |rest| ==> ([i] + rest)[k] == rest[k - 1] && rest[k - 1] in rest;
  }

  lemma {:induction false} BackwardBelow(bps: seq<Entry>, r: nat, i: nat)
    requires r < |bps| && i <= |bps|
    ensures forall m :: m in Backward(bps, r, i) ==> m < i
  {
    if i > 0 && SameSpot(bps[i - 1], bps[r]) {
      BackwardBelow(bps, r, i - 1);
    }
  }

  /** A reverse step goes down the list. */
  lemma ReverseBatchDescends(bps: seq<Entry>, single: bool, i: nat)
    requires i < |bps|
    ensures Descends(ReverseBatch(bps, single, i))
  {
    BackwardDescends(bps, i, i);
    BackwardBelow(bps, i, i);
    DescendsCons(i, Backward(bps, i, i));
  }

  /** Up to its last member a scan stays at the reference's location, and takes what joins. */
  lemma {:induction false} ForwardReach(bps: seq<Entry>, r: nat, i: nat, m: nat)
    requires r < |bps| && i <= m < |bps| && Forward(bps, r, i) != [] && m <= Last(Forward(bps, r, i))
    ensures SameSpot(bps[m], bps[r]) && (m in Forward(bps, r, i) <==> Joins(bps[r], bps[m]))
    decreases |bps| - i
  {
    var rest := Forward(bps, r, i + 1);
    ForwardAscends(bps, r, i + 1);
    AscendsMeans(rest, i + 1, if rest == [] then i + 1 else Last(rest) + 1);
    if i < m {
      assert rest != [] && Last(rest) == Last(Forward(bps, r, i));
      ForwardReach(bps, r, i + 1, m);
    }
  }

  // ---- a reverse sweep

  /** Neighbouring entries i .. j - 1 are all at one location. */
  ghost predicate OneSpot(bps: seq<Entry>, i: nat, j: nat) {
    i <= j <= |bps| && forall k :: i <= k < j ==> SameSpot(bps[k], bps[i])
  }

  /** i and j lie in one run of breakpoints at one location. */
  ghost predicate InOneRun(bps: seq<Entry>, i: nat, j: nat) {
    i < j < |bps| && OneSpot(bps, i, j + 1)
  }

  /** What reverse-continue relies on: normal breakpoints only, and every run of breakpoints at
      one location sharing one condition over distinct instances. */
  ghost predicate Regular(bps: seq<Entry>) {
    && (forall i :: 0 <= i < |bps| ==> OnlyNormal(bps[i]))
    && (forall i: nat, j: nat :: InOneRun(bps, i, j) ==>
          bps[i].enable == bps[j].enable && bps[i].instance != bps[j].instance)
  }

  /** i, i + 1, .., j - 1 */
  function Up(i: nat, j: nat): (s: seq<nat>)
    requires i <= j
    ensures i < j ==> s != [] && Last(s) == j - 1
    decreases j - i
  {
    if i == j then [] else [i] + Up(i + 1, j)
  }

  /** j - 1, j - 2, .., i */
  function Down(i: nat, j: nat): (s: seq<nat>)
    requires i <= j
    ensures i < j ==> s != [] && Last(s) == i
    decreases j - i
  {
    if i == j then [] else [j - 1] + Down(i, j - 1)
  }

  function Reverse<T>(s: seq<T>): seq<T> {
    if s == [] then [] else Reverse(s[1..]) + [s[0]]
  }

  lemma {:induction false} DownIsReverse(i: nat, j: nat)
    requires i <= j
    ensures Reverse(Up(i, j)) == Down(i, j)
    decreases j - i
  {
    if i < j {
      DownIsReverse(i + 1, j);
      assert Up(i, j)[1..] == Up(i + 1, j);
      DownSnoc(i, j);
    }
  }

  lemma {:induction false} DownSnoc(i: nat, j: nat)
    requires i < j
    ensures Down(i, j) == Down(i + 1, j) + [i]
    decreases j
  {
    if i + 1 < j {
      DownSnoc(i, j - 1);
    }
  }

  /** Batches last to first, each from its last member to its first. */
  function Mirror<T>(bs: seq<seq<T>>): seq<seq<T>> {
    if bs == [] then [] else Mirror(bs[1..]) + [Reverse(bs[0])]
  }

  /** i .. j - 1 is a whole batch: a single entry, or a maximal run at one location. */
  ghost predicate Whole(bps: seq<Entry>, single: bool, i: nat, j: nat) {
    && i < j <= |bps| && OneSpot(bps, i, j)
    && (if single then j == i + 1 else
        (i == 0 || !SameSpot(bps[i - 1], bps[i])) && (j == |bps| || !SameSpot(bps[j], bps[i])))
  }

  lemma RunJoins(bps: seq<Entry>, i: nat, j: nat)
    requires Regular(bps) && InOneRun(bps, i, j)
    ensures Joins(bps[i], bps[j]) && Joins(bps[j], bps[i])
    ensures SameSpot(bps[i], bps[j]) && SameSpot(bps[j], bps[i])
  {
  }

  lemma {:induction false} ForwardWhole(bps: seq<Entry>, i: nat, k: nat, j: nat)
    requires Regular(bps) && Whole(bps, false, i, j) && i < k <= j
    ensures Forward(bps, i, k) == Up(k, j)
    decreases j - k
  {
    if k < j {
      assert InOneRun(bps, i, k);
      RunJoins(bps, i, k);
      ForwardWhole(bps, i, k + 1, j);
    }
  }

  lemma {:induction false} BackwardWhole(bps: seq<Entry>, i: nat, k: nat, j: nat)
    requires Regular(bps) && Whole(bps, false, i, j) && i <= k < j
    ensures Backward(bps, j - 1, k) == Down(i, k)
    decreases k
  {
    hide Joins, Regular, SameSpot, OneSpot;
    WholeSpots(bps, i, k, j);
    if i < k {
      RunJoins(bps, k - 1, j - 1);
      BackwardWhole(bps, i, k - 1, j);
    }
  }

  lemma WholeSpots(bps: seq<Entry>, i: nat, k: nat, j: nat)
    requires Whole(bps, false, i, j) && i <= k < j
    ensures i < k ==> InOneRun(bps, k - 1, j - 1)
    ensures i > 0 ==> !SameSpot(bps[i - 1], bps[j - 1])
  {
    SpotsOfRun(bps, i, k, j - 1);
  }

  /** Both directions hand out i .. j - 1 as one batch. */
  ghost predicate OneBatch(bps: seq<Entry>, single: bool, i: nat, j: nat) {
    i < j <= |bps| && Batch(bps, single, i) == Up(i, j) && ReverseBatch(bps, single, j - 1) == Down(i, j)
  }

  lemma LeadersBatch(bps: seq<Entry>, i: nat, j: nat)
    requires i < j <= |bps| && OnlyNormal(bps[i]) && Forward(bps, i, i + 1) == Up(i + 1, j)
    ensures Batch(bps, false, i) == Up(i, j)
  {
    LeaderStaysOut(bps, i);
  }

  lemma LastMembersBatch(bps: seq<Entry>, i: nat, j: nat)
    requires i < j <= |bps| && OnlyNormal(bps[j - 1]) && Backward(bps, j - 1, j - 1) == Down(i, j - 1)
    ensures ReverseBatch(bps, false, j - 1) == Down(i, j)
  {
  }

  lemma SingleIsOneBatch(bps: seq<Entry>, i: nat)
    requires i < |bps|
    ensures OneBatch(bps, true, i, i + 1)
  {
    assert Up(i, i + 1) == [i] + Up(i + 1, i + 1) && Down(i, i + 1) == [i] + Down(i, i);
  }

  lemma RegularAreNormal(bps: seq<Entry>)
    requires Regular(bps)
    ensures forall i :: 0 <= i < |bps| ==> OnlyNormal(bps[i])
  {
  }

  lemma WholeIsOneBatch(bps: seq<Entry>, single: bool, i: nat, j: nat)
    requires Regular(bps) && Whole(bps, single, i, j)
    ensures OneBatch(bps, single, i, j)
  {
    hide SameSpot, Forward, Backward, OneSpot, Regular, Batch, ReverseBatch, Up, Down;
    if single {
      SingleIsOneBatch(bps, i);
    } else {
      RegularAreNormal(bps);
      ForwardWhole(bps, i, i + 1, j);
      LeadersBatch(bps, i, j);
      BackwardWhole(bps, i, j - 1, j);
      LastMembersBatch(bps, i, j);
    }
  }

  /** A boundary: a whole batch may start here. */
  ghost predicate Boundary(bps: seq<Entry>, single: bool, i: nat) {
    i <= |bps| && (single || i == 0 || i == |bps| || !SameSpot(bps[i - 1], bps[i]))
  }

  lemma {:induction false} WholeStart(bps: seq<Entry>, single: bool, s: nat, i: nat) returns (e: nat)
    requires Regular(bps) && s < i <= |bps| && Boundary(bps, single, s) && Boundary(bps, single, i)
    ensures s < e <= i && OneBatch(bps, single, s, e) && Boundary(bps, single, e)
  {
    hide Regular, OneBatch;
    e := s + 1;
    while !single && e < i && SameSpot(bps[e], bps[s])
      invariant s < e <= i && OneSpot(bps, s, e)
      invariant single ==> e == s + 1
    {
      e := e + 1;
    }
    WholeIsOneBatch(bps, single, s, e);
  }

  /** The batches a reverse sweep from position i - 1 hands out; none in front of the first. */
  function ReverseFrom(bps: seq<Entry>, single: bool, i: nat): seq<seq<nat>>
    requires i <= |bps|
  {
    if i == 0 then [] else ReverseCycle(bps, single, i - 1)
  }

  lemma ReverseFromStep(bps: seq<Entry>, single: bool, i: nat)
    requires 0 < i <= |bps|
    ensures var b := ReverseBatch(bps, single, i - 1);
      ReverseFrom(bps, single, i) == [b] + ReverseFrom(bps, single, Last(b))
  {
    hide ReverseBatch;
    var b := ReverseBatch(bps, single, i - 1);
    if Last(b) == 0 {
      assert ReverseCycle(bps, single, i - 1) == [b];
      assert [b] + [] == [b];
    } else {
      assert ReverseCycle(bps, single, i - 1) == [b] + ReverseCycle(bps, single, Last(b) - 1);
    }
  }

  /** The reverse step from the last member of the batch that starts at i hands out that batch. */
  predicate TakenBack(bps: seq<Entry>, single: bool, i: nat)
    requires i < |bps|
  {
    var b := Batch(bps, single, i);
    ReverseBatch(bps, single, Last(b)) == Reverse(b)
  }

  /** So does every batch of the cycle from i on. */
  ghost predicate AllTakenBack(bps: seq<Entry>, single: bool, i: nat)
    requires i <= |bps|
    decreases |bps| - i
  {
    i < |bps| ==>
      TakenBack(bps, single, i) && AllTakenBack(bps, single, Last(Batch(bps, single, i)) + 1)
  }

  lemma {:induction false} ReverseEnds<T>(s: seq<T>)
    requires s != []
    ensures Reverse(s) != [] && Reverse(s)[0] == Last(s) && Last(Reverse(s)) == s[0]
  {
    if |s| > 1 {
      ReverseEnds(s[1..]);
    }
  }

  lemma MirrorCons<T>(b: seq<T>, rest: seq<seq<T>>)
    ensures Mirror([b] + rest) == Mirror(rest) + [Reverse(b)]
  {
    assert ([b] + rest)[1..] == rest;
  }

  /** If every batch from i on is taken back, sweeping back from the end undoes them all. */
  lemma {:induction false} SweepsBack(bps: seq<Entry>, single: bool, i: nat)
    requires i <= |bps| && AllTakenBack(bps, single, i)
    ensures ReverseFrom(bps, single, |bps|) == Mirror(Cycle(bps, single, i)) + ReverseFrom(bps, single, i)
    decreases |bps| - i
  {
    hide Batch, ReverseBatch, Reverse, ReverseFrom;
    if i < |bps| {
      var b := Batch(bps, single, i);
      var next := Last(b) + 1;
      SweepsBack(bps, single, next);
      ReverseFromStep(bps, single, next);
      ReverseEnds(b);
      MirrorCons(b, Cycle(bps, single, next));
    }
  }

  /** A sweep back that begins with the mirrored batches from i on takes back each of them. */
  lemma {:induction false} SweptBack(bps: seq<Entry>, single: bool, i: nat, more: seq<seq<nat>>)
    requires i <= |bps| && ReverseFrom(bps, single, |bps|) == Mirror(Cycle(bps, single, i)) + more
    ensures AllTakenBack(bps, single, i)
    decreases |bps| - i
  {
    hide Batch, ReverseBatch, Reverse, ReverseFrom;
    if i < |bps| {
      var b := Batch(bps, single, i);
      var next := Last(b) + 1;
      var tail := Mirror(Cycle(bps, single, next));
      MirrorCons(b, Cycle(bps, single, next));
      assert tail + [Reverse(b)] + more == tail + ([Reverse(b)] + more);
      SweptBack(bps, single, next, [Reverse(b)] + more);
      SweepsBack(bps, single, next);
      ReverseFromStep(bps, single, next);
      SamePrefix(tail, [Reverse(b)] + more, ReverseFrom(bps, single, next));
      assert ([Reverse(b)] + more)[0] == ReverseFrom(bps, single, next)[0];
    }
  }

  lemma SamePrefix<T>(a: seq<T>, b: seq<T>, c: seq<T>)
    requires a + b == a + c
    ensures b == c
  {
    assert b == (a + b)[|a|..] && c == (a + c)[|a|..];
  }

  /** Any list at all: the reverse sweep is the mirrored cycle when, and only when, each batch of
      the cycle is taken back by one reverse step. */
  lemma MirrorsBatchByBatch(bps: seq<Entry>, single: bool)
    requires bps != []
    ensures ReverseCycle(bps, single, |bps| - 1) == Mirror(Cycle(bps, single, 0))
      <==> AllTakenBack(bps, single, 0)
  {
    hide AllTakenBack, Cycle, Mirror, ReverseCycle;
    var mirrored := Mirror(Cycle(bps, single, 0));
    assert mirrored + [] == mirrored;
    if ReverseFrom(bps, single, |bps|) == mirrored {
      SweptBack(bps, single, 0, []);
    }
    if AllTakenBack(bps, single, 0) {
      SweepsBack(bps, single, 0);
    }
  }

  // ---- when one batch is taken back

  /** Normal breakpoints only, on distinct instances within every run at one location. */
  ghost predicate Plain(bps: seq<Entry>) {
    && (forall i :: 0 <= i < |bps| ==> OnlyNormal(bps[i]))
    && (forall i: nat, j: nat :: InOneRun(bps, i, j) ==> bps[i].instance != bps[j].instance)
  }

  /** No earlier breakpoint of the same run has the condition of the one at i. */
  ghost predicate FirstOfItsCondition(bps: seq<Entry>, i: nat)
    requires i < |bps|
  {
    forall p: nat :: InOneRun(bps, p, i) ==> bps[p].enable != bps[i].enable
  }

  /** Positions i .. j - 1 with the given condition. */
  function With(bps: seq<Entry>, enable: string, i: nat, j: nat): (ms: seq<nat>)
    requires i <= j <= |bps|
    decreases j - i
  {
    if i == j then []
    else With(bps, enable, i, j - 1) + (if bps[j - 1].enable == enable then [j - 1] else [])
  }

  lemma {:induction false} WithSplits(bps: seq<Entry>, enable: string, i: nat, m: nat, j: nat)
    requires i <= m <= j <= |bps|
    ensures With(bps, enable, i, j) == With(bps, enable, i, m) + With(bps, enable, m, j)
    decreases j
  {
    if m < j {
      WithSplits(bps, enable, i, m, j - 1);
    } else {
      assert With(bps, enable, i, m) + [] == With(bps, enable, i, m);
    }
  }

  lemma WithCons(bps: seq<Entry>, e: string, k: nat, j: nat)
    requires k < j <= |bps|
    ensures With(bps, e, k, j) == (if bps[k].enable == e then [k] else []) + With(bps, e, k + 1, j)
  {
    WithSplits(bps, e, k, k + 1, j);
    assert With(bps, e, k, k) == [];
    assert With(bps, e, k, k + 1) == if bps[k].enable == e then [k] else [];
  }

  lemma JoinsInRun(bps: seq<Entry>, i: nat, j: nat)
    requires Plain(bps) && InOneRun(bps, i, j)
    ensures Joins(bps[i], bps[j]) <==> bps[j].enable == bps[i].enable
    ensures Joins(bps[j], bps[i]) <==> bps[j].enable == bps[i].enable
  {
  }

  lemma SpotStep(bps: seq<Entry>, i: nat, k: nat)
    requires i < k < |bps| && OneSpot(bps, i, k) && SameSpot(bps[k], bps[i])
    ensures OneSpot(bps, i, k + 1) && InOneRun(bps, i, k)
  {
  }

  /** A forward scan takes what has the leader's condition, up to its last member. */
  lemma {:induction false} ForwardIsWith(bps: seq<Entry>, i: nat, k: nat)
    requires Plain(bps) && i < k <= |bps| && OneSpot(bps, i, k)
    ensures var f := Forward(bps, i, k);
      f != [] ==>
        && Last(f) >= k && f == With(bps, bps[i].enable, k, Last(f) + 1)
        && InOneRun(bps, i, Last(f)) && bps[Last(f)].enable == bps[i].enable
    decreases |bps| - k
  {
    hide Plain, Joins, With, SameSpot, OneSpot, Forward;
    ForwardStep(bps, i, k);
    if k < |bps| && SameSpot(bps[k], bps[i]) {
      SpotStep(bps, i, k);
      JoinsInRun(bps, i, k);
      ForwardIsWith(bps, i, k + 1);
      var rest := Forward(bps, i, k + 1);
      WithCons(bps, bps[i].enable, k, if rest == [] then k + 1 else Last(rest) + 1);
      WithNone(bps, bps[i].enable, k + 1, k + 1);
    }
  }

  lemma ForwardStep(bps: seq<Entry>, r: nat, i: nat)
    requires r < |bps| && i <= |bps|
    ensures Forward(bps, r, i) ==
      if i == |bps| || !SameSpot(bps[i], bps[r]) then []
      else (if Joins(bps[r], bps[i]) then [i] else []) + Forward(bps, r, i + 1)
  {
  }

  lemma SpotsOfRun(bps: seq<Entry>, s: nat, k: nat, l: nat)
    requires s <= k <= l < |bps| && OneSpot(bps, s, l + 1)
    requires s == 0 || !SameSpot(bps[s - 1], bps[s])
    ensures s < k ==> InOneRun(bps, k - 1, l) && SameSpot(bps[k - 1], bps[l])
    ensures s > 0 ==> !SameSpot(bps[s - 1], bps[l])
  {
    assert SameSpot(bps[l], bps[s]);
    assert s < k ==> SameSpot(bps[k - 1], bps[s]);
  }

  /** A backward scan takes what has the condition of its reference, down to the start of the run. */
  lemma {:induction false} BackwardIsWith(bps: seq<Entry>, l: nat, s: nat, k: nat)
    requires Plain(bps) && s <= k <= l < |bps| && OneSpot(bps, s, l + 1)
    requires s == 0 || !SameSpot(bps[s - 1], bps[s])
    ensures Backward(bps, l, k) == Reverse(With(bps, bps[l].enable, s, k))
    decreases k
  {
    hide Plain, Joins, With, SameSpot, OneSpot;
    SpotsOfRun(bps, s, k, l);
    if s < k {
      JoinsInRun(bps, k - 1, l);
      BackwardIsWith(bps, l, s, k - 1);
      WithSnoc(bps, bps[l].enable, s, k);
    } else {
      WithNone(bps, bps[l].enable, s, s);
    }
  }

  lemma WithSnoc(bps: seq<Entry>, e: string, s: nat, k: nat)
    requires s < k <= |bps|
    ensures Reverse(With(bps, e, s, k)) ==
      (if bps[k - 1].enable == e then [k - 1] else []) + Reverse(With(bps, e, s, k - 1))
  {
    var front := With(bps, e, s, k - 1);
    if bps[k - 1].enable == e {
      var last: seq<nat> := [k - 1];
      ReverseOne(k - 1);
      ReverseAppend(front, last);
    } else {
      assert front + [] == front && [] + Reverse(front) == Reverse(front);
    }
  }

  lemma {:induction false} ReverseAppend<T>(a: seq<T>, b: seq<T>)
    ensures Reverse(a + b) == Reverse(b) + Reverse(a)
  {
    if a == [] {
      assert a + b == b && Reverse(b) + [] == Reverse(b);
    } else {
      assert (a + b)[1..] == a[1..] + b;
      ReverseAppend(a[1..], b);
    }
  }

  lemma {:induction false} ReverseLength<T>(s: seq<T>)
    ensures |Reverse(s)| == |s|
  {
    if s != [] {
      ReverseLength(s[1..]);
    }
  }

  function RunStart(bps: seq<Entry>, i: nat): (s: nat)
    requires i < |bps|
    ensures s <= i && (s == 0 || !SameSpot(bps[s - 1], bps[s])) && OneSpot(bps, s, i + 1)
  {
    if i == 0 || !SameSpot(bps[i - 1], bps[i]) then i else RunStart(bps, i - 1)
  }

  lemma {:induction false} WithNone(bps: seq<Entry>, e: string, i: nat, j: nat)
    requires i <= j <= |bps|
    ensures With(bps, e, i, j) == [] <==> forall p :: i <= p < j ==> bps[p].enable != e
    decreases j
  {
    if i < j {
      WithNone(bps, e, i, j - 1);
    }
  }

  lemma FirstMeansNone(bps: seq<Entry>, i: nat)
    requires i < |bps|
    ensures FirstOfItsCondition(bps, i) <==> With(bps, bps[i].enable, RunStart(bps, i), i) == []
  {
    var s := RunStart(bps, i);
    WithNone(bps, bps[i].enable, s, i);
    forall p: nat | s <= p < i ensures InOneRun(bps, p, i) {
      assert SameSpot(bps[p], bps[s]);
    }
    forall p: nat | InOneRun(bps, p, i) ensures s <= p {
      if p < s {
        RunGoesOn(bps, p, s, i);
      }
    }
  }

  lemma RunGoesOn(bps: seq<Entry>, p: nat, s: nat, i: nat)
    requires p < s <= i && InOneRun(bps, p, i)
    ensures SameSpot(bps[s - 1], bps[s])
  {
    assert SameSpot(bps[s - 1], bps[p]) && SameSpot(bps[s], bps[p]);
  }

  lemma BatchIsWith(bps: seq<Entry>, i: nat)
    requires Plain(bps) && i < |bps|
    ensures var b := Batch(bps, false, i); var l := Last(b);
      && OneSpot(bps, i, l + 1) && bps[l].enable == bps[i].enable
      && b == With(bps, bps[i].enable, i, l) + [l]
  {
    var e := bps[i].enable;
    LeaderStaysOut(bps, i);
    ForwardIsWith(bps, i, i + 1);
    var l := Last(Batch(bps, false, i));
    WithCons(bps, e, i, l + 1);
  }

  /** A batch is taken back exactly when nothing in front of its leader in the run has its
      condition. */
  lemma TakenBackExactly(bps: seq<Entry>, i: nat)
    requires Plain(bps) && i < |bps|
    ensures TakenBack(bps, false, i) <==> FirstOfItsCondition(bps, i)
  {
    hide Batch, Forward, Backward, Plain, FirstOfItsCondition, OneSpot, SameSpot, With, Reverse;
    var b := Batch(bps, false, i);
    var l, s, e := Last(b), RunStart(bps, i), bps[i].enable;
    BatchIsWith(bps, i);
    FirstMeansNone(bps, i);
    RunJoin(bps, s, i, l);
    BackwardIsWith(bps, l, s, l);
    WithSplits(bps, e, s, i, l);
    ReverseAppend(With(bps, e, s, i), With(bps, e, i, l));
    ReverseAppend(With(bps, e, i, l), [l]);
    ReverseLength(With(bps, e, s, i));
    ReverseOne(l);
    PlainReverse(bps, l);
  }

  lemma ReverseOne(l: nat)
    ensures Reverse([l]) == [l]
  {
  }

  lemma PlainReverse(bps: seq<Entry>, l: nat)
    requires Plain(bps) && l < |bps|
    ensures ReverseBatch(bps, false, l) == [l] + Backward(bps, l, l)
  {
  }

  lemma RunJoin(bps: seq<Entry>, s: nat, i: nat, l: nat)
    requires s <= i <= l < |bps| && OneSpot(bps, s, i + 1) && OneSpot(bps, i, l + 1)
    ensures OneSpot(bps, s, l + 1)
  {
    assert SameSpot(bps[i], bps[s]);
  }

  ghost predicate StartsFirst(bps: seq<Entry>, b: seq<nat>) {
    b != [] && b[0] < |bps| && FirstOfItsCondition(bps, b[0])
  }

  /** Each batch of the cycle from i on starts with the first of its condition in its run. */
  ghost predicate LeadersComeFirst(bps: seq<Entry>, i: nat)
    requires i <= |bps|
  {
    forall k :: 0 <= k < |Cycle(bps, false, i)| ==> StartsFirst(bps, Cycle(bps, false, i)[k])
  }

  lemma {:induction false} LeadersDecide(bps: seq<Entry>, i: nat)
    requires Plain(bps) && i <= |bps|
    ensures AllTakenBack(bps, false, i) <==> LeadersComeFirst(bps, i)
    decreases |bps| - i
  {
    hide Batch, TakenBack, FirstOfItsCondition, Plain;
    if i < |bps| {
      var b := Batch(bps, false, i);
      var next := Last(b) + 1;
      TakenBackExactly(bps, i);
      LeadersDecide(bps, next);
      var c, rest := Cycle(bps, false, i), Cycle(bps, false, next);
      assert c == [b] + rest;
      assert StartsFirst(bps, c[0]) <==> FirstOfItsCondition(bps, i);
      assert forall k :: 0 <= k < |rest| ==> c[k + 1] == rest[k];
    }
  }

  /** When reverse-continue is the mirror image of continue. */
  lemma MirrorsExactly(bps: seq<Entry>)
    requires Plain(bps) && bps != []
    ensures ReverseCycle(bps, false, |bps| - 1) == Mirror(Cycle(bps, false, 0)) <==> LeadersComeFirst(bps, 0)
  {
    MirrorsBatchByBatch(bps, false);
    LeadersDecide(bps, 0);
  }

  lemma {:induction false} SingleTakenBack(bps: seq<Entry>, i: nat)
    requires i <= |bps|
    ensures AllTakenBack(bps, true, i)
    decreases |bps| - i
  {
    if i < |bps| {
      assert Reverse([i]) == [i];
      SingleTakenBack(bps, i + 1);
    }
  }

  lemma {:induction false} WholesTakenBack(bps: seq<Entry>, i: nat)
    requires Regular(bps) && Boundary(bps, false, i)
    ensures AllTakenBack(bps, false, i)
    decreases |bps| - i
  {
    hide Batch, ReverseBatch, Regular, SameSpot, Up, Down, Reverse;
    if i < |bps| {
      var e := WholeStart(bps, false, i, |bps|);
      DownIsReverse(i, e);
      WholesTakenBack(bps, e);
    }
  }

  /** A reverse sweep from the last breakpoint hands out the batches of a forward cycle
      mirrored, down to the first breakpoint. */
  lemma ReverseUndoesForward(bps: seq<Entry>, single: bool)
    requires single || Regular(bps)
    requires bps != []
    ensures ReverseCycle(bps, single, |bps| - 1) == Mirror(Cycle(bps, single, 0))
  {
    MirrorsBatchByBatch(bps, single);
    if single {
      SingleTakenBack(bps, 0);
    } else {
      WholesTakenBack(bps, 0);
    }
  }

  function Sample(id: nat, enable: string): Entry {
    Entry(id, id, enable, "f", 1, 0, true, false, false)
  }

  const MIXED: seq<Entry> := [Sample(0, "a"), Sample(1, "b"), Sample(2, "a"), Sample(3, "b")]

  /** Runs that mix conditions are no mirror images: continue hands out 0 with 2 and then 3,
      reverse-continue 3 with 1 and then 0. */
  lemma MixedConditionsDoNotMirror()
    ensures !Regular(MIXED)
    ensures Cycle(MIXED, false, 0) == [[0, 2], [3]] && ReverseCycle(MIXED, false, 3) == [[3, 1], [0]]
  {
    MixedForward();
    MixedBackward();
    assert OneSpot(MIXED, 0, 2) && InOneRun(MIXED, 0, 1);
  }

  lemma MixedForward()
    ensures Cycle(MIXED, false, 0) == [[0, 2], [3]]
  {
    assert Forward(MIXED, 0, 3) == [] && Forward(MIXED, 0, 1) == [2];
    assert Batch(MIXED, false, 0) == [0, 2];
    assert Batch(MIXED, false, 3) == [3];
    hide Batch, Forward;
    assert Cycle(MIXED, false, 4) == [];
    assert Cycle(MIXED, false, 3) == [[3]];
  }

  lemma MixedBackward()
    ensures ReverseCycle(MIXED, false, 3) == [[3, 1], [0]]
  {
    assert Backward(MIXED, 3, 1) == [] && Backward(MIXED, 3, 3) == [1];
    assert ReverseBatch(MIXED, false, 3) == [3, 1];
    assert ReverseBatch(MIXED, false, 0) == [0];
    hide ReverseBatch, Backward;
    assert ReverseCycle(MIXED, false, 0) == [[0]];
  }
}
