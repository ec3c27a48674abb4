/** The breakpoint scheduler of src/scheduler.cc: an ordered list of breakpoint objects with
    evaluated flags, stepped forward and in reverse, and extended between steps. */
module Scheduler {
  import opened Common
  import opened SchedulerBatches

  class DebugBreakPoint {
    /** What scheduling looks at; only the bits of the type ever change. */
    var info: Entry
    var evaluated: bool
    /** The user's condition, as text. */
    var expr: string

    constructor (info: Entry, expr: string)
      ensures this.info == info && this.expr == expr && !evaluated
    {
      this.info, this.expr := info, expr;
      evaluated := false;
    }
  }

  datatype EvaluationMode = BreakPointOnly | StepOver | StepBack | ReverseBreakPointOnly | NoMode

  /** What a user does within one evaluation cycle: continue, or insert a breakpoint into the
      given number of namespaces. */
  datatype Command = Continue | Insert(info: Entry, expr: string, namespaces: nat)

  /** What the list looks like to the batch functions. */
  function Entries(bps: seq<DebugBreakPoint>): (es: seq<Entry>)
    reads bps`info
    ensures |es| == |bps| && forall i :: 0 <= i < |es| ==> es[i] == bps[i].info
  {
    if bps == [] then [] else [bps[0].info] + Entries(bps[1..])
  }

  /** The objects at the given positions. */
  function Pick(bps: seq<DebugBreakPoint>, at: seq<nat>): (r: seq<DebugBreakPoint>)
    requires forall m :: m in at ==> m < |bps|
    ensures |r| == |at|
  {
    if at == [] then [] else
      assert at[0] in at && forall m :: m in at[1..] ==> m in at;
      [bps[at[0]]] + Pick(bps, at[1..])
  }

  lemma {:induction false} PickAt(bps: seq<DebugBreakPoint>, at: seq<nat>, k: nat)
    requires k < |at| && forall m :: m in at ==> m < |bps|
    ensures at[k] in at && Pick(bps, at)[k] == bps[at[k]]
  {
    if k > 0 {
      assert forall m :: m in at[1..] ==> m in at;
      PickAt(bps, at[1..], k - 1);
    }
  }

  lemma PickOne(bps: seq<DebugBreakPoint>, i: nat)
    requires i < |bps|
    ensures Pick(bps, [i]) == [bps[i]]
  {
  }

  lemma {:induction false} PickAppend(bps: seq<DebugBreakPoint>, a: seq<nat>, b: seq<nat>)
    requires forall m :: m in a + b ==> m < |bps|
    ensures (forall m :: m in a ==> m < |bps|) && (forall m :: m in b ==> m < |bps|)
    ensures Pick(bps, a + b) == Pick(bps, a) + Pick(bps, b)
    decreases a
  {
    assert forall m :: m in a ==> m in a + b;
    assert forall m :: m in b ==> m in a + b;
    if a == [] {
      assert a + b == b;
    } else {
      assert (a + b)[1..] == a[1..] + b;
      assert forall m :: m in a[1..] + b ==> m in a + b;
      PickAppend(bps, a[1..], b);
    }
  }

  /** What a forward scan from i still adds to the batch of r. */
  function Collected(bps: seq<DebugBreakPoint>, es: seq<Entry>, r: nat, i: nat): seq<DebugBreakPoint>
    requires r < |bps| == |es| && i <= |bps|
  {
    Pick(bps, Forward(es, r, i))
  }

  function CollectedBack(bps: seq<DebugBreakPoint>, es: seq<Entry>, r: nat, i: nat): seq<DebugBreakPoint>
    requires r < |bps| == |es| && i <= |bps|
  {
    Pick(bps, Backward(es, r, i))
  }

  lemma CollectStep(bps: seq<DebugBreakPoint>, es: seq<Entry>, r: nat, i: nat)
    requires r < |bps| == |es| && i < |bps| && SameSpot(es[i], es[r])
    ensures Collected(bps, es, r, i) ==
      (if Joins(es[r], es[i]) then [bps[i]] else []) + Collected(bps, es, r, i + 1)
  {
    hide SameSpot, Joins;
    var rest := Forward(es, r, i + 1);
    if Joins(es[r], es[i]) {
      PickAppend(bps, [i], rest);
      PickOne(bps, i);
    } else {
      assert [] + rest == rest;
    }
  }

  lemma CollectBackStep(bps: seq<DebugBreakPoint>, es: seq<Entry>, r: nat, i: nat)
    requires r < |bps| == |es| && 0 < i <= |bps| && SameSpot(es[i - 1], es[r])
    ensures CollectedBack(bps, es, r, i) ==
      (if Joins(es[r], es[i - 1]) then [bps[i - 1]] else []) + CollectedBack(bps, es, r, i - 1)
  {
    hide SameSpot, Joins;
    var rest := Backward(es, r, i - 1);
    if Joins(es[r], es[i - 1]) {
      PickAppend(bps, [i - 1], rest);
      PickOne(bps, i - 1);
    } else {
      assert [] + rest == rest;
    }
  }

  lemma CollectStop(bps: seq<DebugBreakPoint>, es: seq<Entry>, r: nat, i: nat)
    requires r < |bps| == |es| && i <= |bps|
    ensures i == |bps| || !SameSpot(es[i], es[r]) ==> Collected(bps, es, r, i) == []
    ensures i == 0 || !SameSpot(es[i - 1], es[r]) ==> CollectedBack(bps, es, r, i) == []
  {
  }

  /** The objects a forward step starting at i hands out. */
  function BatchObjects(bps: seq<DebugBreakPoint>, es: seq<Entry>, single: bool, i: nat): seq<DebugBreakPoint>
    requires i < |bps| == |es|
  {
    Pick(bps, Batch(es, single, i))
  }

  /** Where the forward step after the one starting at i starts. */
  function BatchEnd(es: seq<Entry>, single: bool, i: nat): (end: nat)
    requires i < |es|
    ensures i < end <= |es|
  {
    Last(Batch(es, single, i)) + 1
  }

  lemma BatchObjectsAre(bps: seq<DebugBreakPoint>, es: seq<Entry>, single: bool, i: nat)
    requires i < |bps| == |es|
    ensures BatchObjects(bps, es, single, i) ==
      [bps[i]] + (if single || !OnlyNormal(es[i]) then [] else Collected(bps, es, i, i))
  {
    hide OnlyNormal, Forward;
    PickOne(bps, i);
    if !single && OnlyNormal(es[i]) {
      PickAppend(bps, [i], Forward(es, i, i));
    }
  }

  function ReverseBatchObjects(bps: seq<DebugBreakPoint>, es: seq<Entry>, single: bool, i: nat): seq<DebugBreakPoint>
    requires i < |bps| == |es|
  {
    Pick(bps, ReverseBatch(es, single, i))
  }

  lemma ReverseBatchObjectsAre(bps: seq<DebugBreakPoint>, es: seq<Entry>, single: bool, i: nat)
    requires i < |bps| == |es|
    ensures ReverseBatchObjects(bps, es, single, i) ==
      [bps[i]] + (if single || es[i].data then [] else CollectedBack(bps, es, i, i))
  {
    hide Backward;
    PickOne(bps, i);
    if !single && !es[i].data {
      PickAppend(bps, [i], Backward(es, i, i));
    }
  }

  /** First position holding the id, the length of the list if none does. */
  function FirstWithId(es: seq<Entry>, id: nat): (k: nat)
    ensures k <= |es| && (k < |es| ==> es[k].id == id)
    ensures forall i :: 0 <= i < k ==> es[i].id != id
  {
    if es == [] || es[0].id == id then 0 else 1 + FirstWithId(es[1..], id)
  }

  /** A breakpoint object and what it holds at some moment. */
  datatype Slot = Slot(bp: DebugBreakPoint, info: Entry, evaluated: bool) {
    predicate Asserted() { info.asserts && evaluated }

    predicate Spent() { Asserted() && !info.normal && !info.data }

    /** Without the assertion: nothing is left of one that is nothing else. */
    function Settled(): seq<Slot> {
      if Spent() then []
      else if Asserted() then [this.(info := info.(asserts := false))]
      else [this]
    }
  }

  function Slots(bps: seq<DebugBreakPoint>): (s: seq<Slot>)
    reads bps`info, bps`evaluated
    ensures |s| == |bps|
    ensures forall k :: 0 <= k < |s| ==> s[k] == Slot(bps[k], bps[k].info, bps[k].evaluated)
  {
    if bps == [] then [] else [Slot(bps[0], bps[0].info, bps[0].evaluated)] + Slots(bps[1..])
  }

  lemma SlotsSplit(front: seq<DebugBreakPoint>, b: DebugBreakPoint, rest: seq<DebugBreakPoint>)
    ensures Slots(front + ([b] + rest)) == Slots(front) + ([Slot(b, b.info, b.evaluated)] + Slots(rest))
  {
    hide Slots;
    SlotsAppend([b], rest);
    SlotsAppend(front, [b] + rest);
    assert Slots([b]) == [Slot(b, b.info, b.evaluated)];
  }

  lemma SlotsAppend(a: seq<DebugBreakPoint>, b: seq<DebugBreakPoint>)
    ensures Slots(a + b) == Slots(a) + Slots(b)
  {
    hide Slots;
  }

  /** The first entry with the id is an evaluated assertion and nothing else. */
  predicate Expired(s: seq<Slot>, id: nat) {
    s != [] && if s[0].info.id == id then s[0].Spent() else Expired(s[1..], id)
  }

  /** The list after the first entry of each of the ids has lost its evaluated assertion. */
  function Settled(s: seq<Slot>, ids: set<nat>): seq<Slot> {
    if s == [] then []
    else if s[0].info.id !in ids then [s[0]] + Settled(s[1..], ids)
    else s[0].Settled() + Settled(s[1..], ids - {s[0].info.id})
  }

  lemma {:induction false} SettledNothing(s: seq<Slot>)
    ensures Settled(s, {}) == s
  {
    if s != [] {
      SettledNothing(s[1..]);
    }
  }

  lemma SettledHead(first: Slot, rest: seq<Slot>, id: nat)
    ensures Settled([first] + rest, {id})
      == if first.info.id == id then first.Settled() + rest else [first] + Settled(rest, {id})
    ensures Expired([first] + rest, id) <==> if first.info.id == id then first.Spent() else Expired(rest, id)
  {
    assert ([first] + rest)[1..] == rest && {id} - {id} == {};
    SettledNothing(rest);
  }

  lemma {:induction false} SettledOneMore(s: seq<Slot>, gone: set<nat>, id: nat)
    requires id !in gone
    ensures Settled(Settled(s, gone), {id}) == Settled(s, gone + {id})
    ensures Expired(Settled(s, gone), id) == Expired(s, id)
  {
    if s != [] {
      var first, left := s[0], gone - {s[0].info.id};
      var rest := Settled(s[1..], left);
      SettledOneMore(s[1..], left, id);
      if first.info.id in gone {
        assert (gone + {id}) - {first.info.id} == left + {id};
        if first.Spent() {
          assert [] + rest == rest;
        } else {
          SettledHead(first.Settled()[0], rest, id);
        }
      } else {
        assert left == gone;
        assert first.info.id == id ==> (gone + {id}) - {id} == gone;
        SettledHead(first, rest, id);
      }
    }
  }

  /** Settling a single id is what happens to its first entry. */
  lemma {:induction false} SettledBehind(front: seq<Slot>, x: Slot, rest: seq<Slot>, id: nat)
    requires x.info.id == id && forall i :: 0 <= i < |front| ==> front[i].info.id != id
    ensures Settled(front + ([x] + rest), {id}) == front + (x.Settled() + rest)
    ensures Expired(front + ([x] + rest), id) <==> x.Spent()
  {
    hide Settled, Expired, Slot.Settled, Slot.Spent;
    var before, after := [x] + rest, x.Settled() + rest;
    if front == [] {
      assert front + before == before && front + after == after;
      SettledHead(x, rest, id);
    } else {
      var tail := front[1..];
      SettledBehind(tail, x, rest, id);
      assert front + before == [front[0]] + (tail + before) && front + after == [front[0]] + (tail + after);
      SettledHead(front[0], tail + before, id);
    }
  }

  /** The first entry with the id stays unless it is an evaluated assertion; then it goes, or loses
      this bit of its type if it has another. */
  lemma SettledExactly(front: seq<Slot>, x: Slot, rest: seq<Slot>, id: nat)
    requires x.info.id == id && forall i :: 0 <= i < |front| ==> front[i].info.id != id
    ensures var s := front + ([x] + rest);
      var settled := Settled(s, {id});
      && (!(x.info.asserts && x.evaluated) ==> settled == s)
      && (x.info.asserts && x.evaluated && !x.info.normal && !x.info.data ==> settled == front + rest)
      && (x.info.asserts && x.evaluated && (x.info.normal || x.info.data) ==>
            settled == front + ([x.(info := x.info.(asserts := false))] + rest))
      && (Expired(s, id) <==> x.info.asserts && x.evaluated && !x.info.normal && !x.info.data)
  {
    hide Settled, Expired;
    SettledBehind(front, x, rest, id);
    assert [] + rest == rest;
  }

  lemma {:induction false} SettledNone(s: seq<Slot>, id: nat)
    requires forall i :: 0 <= i < |s| ==> s[i].info.id != id
    ensures Settled(s, {id}) == s && !Expired(s, id)
  {
    if s != [] {
      SettledNone(s[1..], id);
    }
  }

  /** Largest position below n holding the id, 0 if none does. */
  function LastWithId(es: seq<Entry>, id: nat, n: nat): (i: nat)
    requires n <= |es|
    ensures i < n || i == 0
  {
    if n == 0 then 0 else if es[n - 1].id == id then n - 1 else LastWithId(es, id, n - 1)
  }

  lemma {:induction false} LastWithIdIs(es: seq<Entry>, id: nat, i: nat, n: nat)
    requires i < n <= |es| && (i == 0 || es[i].id == id)
    requires forall k :: i < k < n ==> es[k].id != id
    ensures LastWithId(es, id, n) == i
    decreases n
  {
    if i + 1 < n {
      LastWithIdIs(es, id, i, n - 1);
    }
  }

  ghost predicate DistinctIds(es: seq<Entry>) {
    forall i, j :: 0 <= i < j < |es| ==> es[i].id != es[j].id
  }

  /** Going in reverse, position i comes right after the current breakpoint c. */
  ghost predicate InFrontOf(es: seq<Entry>, i: nat, c: Option<nat>) {
    i < |es| && if i == |es| - 1 then c.None? else c == Some(es[i + 1].id)
  }

  lemma InFrontIsKnown(es: seq<Entry>, i: nat, c: Option<nat>)
    requires InFrontOf(es, i, c)
    ensures c.Some? ==> exists k :: 0 <= k < |es| && es[k].id == c.value
  {
  }

  lemma ReverseIndexInFront(es: seq<Entry>, i: nat, c: Option<nat>)
    requires InFrontOf(es, i, c) && c != Some(es[0].id) && DistinctIds(es)
    ensures ReverseIndex(es, c, true) == i
  {
    if c.Some? {
      LastWithIdIs(es, c.value, i + 1, |es|);
    }
  }

  /** Where a reverse step starts: in front of the current breakpoint, at the last one when there
      is none or time was rewound, at the first one when time cannot be rewound. */
  function ReverseIndex(es: seq<Entry>, c: Option<nat>, canRewind: bool): (i: nat)
    requires es != []
    ensures i < |es|
  {
    if c.None? then |es| - 1
    else if es[0].id == c.value then (if canRewind then |es| - 1 else 0)
    else
      var i := LastWithId(es, c.value, |es|);
      if i == 0 then 0 else i - 1
  }

  /** Position i is the last one that holds the id. */
  ghost predicate LastOf(es: seq<Entry>, i: int, id: nat) {
    0 <= i < |es| && es[i].id == id && forall k :: i < k < |es| ==> es[k].id != id
  }

  /** b is where a reverse step starts: the last one without a current breakpoint or after a rewind,
      the first one when a rewind is refused, else the one in front of the current breakpoint. */
  ghost predicate StartsReverse(
    bps: seq<DebugBreakPoint>, es: seq<Entry>, b: DebugBreakPoint, c: Option<nat>, canRewind: bool)
    requires |bps| == |es| > 0
  {
    if c.None? || (c.value == es[0].id && canRewind) then b == bps[|bps| - 1]
    else if c.value == es[0].id then b == bps[0]
    else exists k: nat :: LastOf(es, k + 1, c.value) && b == bps[k]
  }

  lemma ReverseStarts(bps: seq<DebugBreakPoint>, es: seq<Entry>, c: Option<nat>, canRewind: bool)
    requires |bps| == |es| > 0 && (c.Some? ==> exists k :: 0 <= k < |es| && es[k].id == c.value)
    ensures StartsReverse(bps, es, bps[ReverseIndex(es, c, canRewind)], c, canRewind)
  {
    if c.Some? { LastWithIdIsLast(es, c.value, |es|); }
  }

  lemma ReverseFromEnd(es: seq<Entry>, c: Option<nat>)
    requires es != [] && (c.None? || c.value == es[0].id)
    ensures ReverseIndex(es, c, true) == |es| - 1
  {
  }

  lemma {:induction false} LastWithIdIsLast(es: seq<Entry>, id: nat, n: nat)
    requires n <= |es| && exists k :: 0 <= k < n && es[k].id == id
    ensures var i := LastWithId(es, id, n);
      i < n && es[i].id == id && forall k :: i < k < n ==> es[k].id != id
  {
    if es[n - 1].id != id { LastWithIdIsLast(es, id, n - 1); }
  }

  ghost predicate InRange(n: nat, bs: seq<seq<nat>>) {
    bs == [] || ((forall m :: m in bs[0] ==> m < n) && InRange(n, bs[1..]))
  }

  /** The objects of a sequence of batches. */
  function PickAll(bps: seq<DebugBreakPoint>, bs: seq<seq<nat>>): seq<seq<DebugBreakPoint>>
    requires InRange(|bps|, bs)
  {
    if bs == [] then [] else [Pick(bps, bs[0])] + PickAll(bps, bs[1..])
  }

  lemma {:induction false} CycleInRange(es: seq<Entry>, single: bool, i: nat)
    requires i <= |es|
    ensures InRange(|es|, Cycle(es, single, i))
    decreases |es| - i
  {
    if i < |es| {
      hide Batch;
      var b := Batch(es, single, i);
      var rest := Cycle(es, single, Last(b) + 1);
      CycleInRange(es, single, Last(b) + 1);
      assert ([b] + rest)[1..] == rest;
    }
  }

  lemma {:induction false} ReverseCycleInRange(es: seq<Entry>, single: bool, i: nat)
    requires i < |es|
    ensures InRange(|es|, ReverseCycle(es, single, i))
    decreases i
  {
    hide ReverseBatch;
    var b := ReverseBatch(es, single, i);
    if Last(b) > 0 {
      var rest := ReverseCycle(es, single, Last(b) - 1);
      ReverseCycleInRange(es, single, Last(b) - 1);
      assert ([b] + rest)[1..] == rest;
    } else {
      assert [b][1..] == [];
    }
  }

  /** The objects a forward cycle from position i, or a reverse sweep from it, hands out. */
  function CycleObjects(bps: seq<DebugBreakPoint>, es: seq<Entry>, single: bool, i: nat)
    : seq<seq<DebugBreakPoint>>
    requires i <= |bps| == |es|
  {
    CycleInRange(es, single, i);
    PickAll(bps, Cycle(es, single, i))
  }

  function ReverseCycleObjects(bps: seq<DebugBreakPoint>, es: seq<Entry>, single: bool, i: nat)
    : seq<seq<DebugBreakPoint>>
    requires i < |bps| == |es|
  {
    ReverseCycleInRange(es, single, i);
    PickAll(bps, ReverseCycle(es, single, i))
  }

  lemma CycleObjectsStep(bps: seq<DebugBreakPoint>, es: seq<Entry>, single: bool, i: nat)
    requires i <= |bps| == |es|
    ensures i == |bps| ==> CycleObjects(bps, es, single, i) == []
    ensures i < |bps| ==>
      (var next := BatchEnd(es, single, i);
       CycleObjects(bps, es, single, i) == [BatchObjects(bps, es, single, i)] + CycleObjects(bps, es, single, next))
  {
    hide Batch;
    if i < |bps| {
      var b := Batch(es, single, i);
      var rest := Cycle(es, single, Last(b) + 1);
      CycleInRange(es, single, i);
      CycleInRange(es, single, Last(b) + 1);
      assert ([b] + rest)[1..] == rest;
    }
  }

  lemma AppendBatch(
    bps: seq<DebugBreakPoint>, es: seq<Entry>, single: bool, i: nat, done: seq<seq<DebugBreakPoint>>)
    requires i <= |bps| == |es|
    ensures i == |bps| ==> done + CycleObjects(bps, es, single, i) == done
    ensures i < |bps| ==>
      (var next := BatchEnd(es, single, i);
       done + CycleObjects(bps, es, single, i)
         == (done + [BatchObjects(bps, es, single, i)]) + CycleObjects(bps, es, single, next))
  {
    hide CycleObjects, BatchObjects, Batch;
    CycleObjectsStep(bps, es, single, i);
  }

  lemma ReverseCycleObjectsStep(bps: seq<DebugBreakPoint>, es: seq<Entry>, single: bool, i: nat)
    requires i < |bps| == |es|
    ensures var b := ReverseBatch(es, single, i);
      ReverseCycleObjects(bps, es, single, i) == [ReverseBatchObjects(bps, es, single, i)] +
        (if Last(b) == 0 then [] else ReverseCycleObjects(bps, es, single, Last(b) - 1))
  {
    hide ReverseBatch;
    var b := ReverseBatch(es, single, i);
    ReverseCycleInRange(es, single, i);
    if Last(b) > 0 {
      var rest := ReverseCycle(es, single, Last(b) - 1);
      ReverseCycleInRange(es, single, Last(b) - 1);
      assert ([b] + rest)[1..] == rest;
    } else {
      assert [b][1..] == [];
      assert PickAll(bps, [b]) == [Pick(bps, b)] + PickAll(bps, []);
    }
  }

  /** One step of a reverse sweep: the sweep is over at the first position, and the batch after
      this one starts in front of where this one stopped. */
  lemma AppendReverseBatch(
    bps: seq<DebugBreakPoint>, es: seq<Entry>, single: bool, i: nat, done: seq<seq<DebugBreakPoint>>)
    requires i < |bps| == |es| && DistinctIds(es)
    ensures var l := Last(ReverseBatch(es, single, i));
      var all := done + ReverseCycleObjects(bps, es, single, i);
      var more := done + [ReverseBatchObjects(bps, es, single, i)];
      if l == 0 then all == more
      else
        && all == more + ReverseCycleObjects(bps, es, single, l - 1)
        && es[l].id != es[0].id && InFrontOf(es, l - 1, Some(es[l].id))
  {
    hide ReverseCycleObjects, ReverseBatchObjects, ReverseBatch;
    ReverseCycleObjectsStep(bps, es, single, i);
  }

  lemma {:induction false} InRangeAppend(n: nat, a: seq<seq<nat>>, b: seq<nat>)
    requires InRange(n, a) && forall m :: m in b ==> m < n
    ensures InRange(n, a + [b])
    decreases a
  {
    if a == [] {
      assert [b][1..] == [] && a + [b] == [b];
    } else {
      assert (a + [b])[1..] == a[1..] + [b];
      InRangeAppend(n, a[1..], b);
    }
  }

  lemma {:induction false} PickAllAppend(bps: seq<DebugBreakPoint>, a: seq<seq<nat>>, b: seq<nat>)
    requires InRange(|bps|, a) && InRange(|bps|, a + [b]) && forall m :: m in b ==> m < |bps|
    ensures PickAll(bps, a + [b]) == PickAll(bps, a) + [Pick(bps, b)]
    decreases a
  {
    if a == [] {
      assert [b][1..] == [] && a + [b] == [b];
    } else {
      assert (a + [b])[1..] == a[1..] + [b];
      PickAllAppend(bps, a[1..], b);
    }
  }

  lemma {:induction false} PickReverse(bps: seq<DebugBreakPoint>, at: seq<nat>)
    requires forall m :: m in at ==> m < |bps|
    ensures forall m :: m in Reverse<nat>(at) ==> m < |bps|
    ensures Pick(bps, Reverse<nat>(at)) == Reverse(Pick(bps, at))
  {
    if at != [] {
      assert at[0] in at && forall m :: m in at[1..] ==> m in at;
      PickReverse(bps, at[1..]);
      assert forall m :: m in Reverse<nat>(at[1..]) + [at[0]] ==> m in Reverse<nat>(at[1..]) || m == at[0];
      PickAppend(bps, Reverse<nat>(at[1..]), [at[0]]);
      PickOne(bps, at[0]);
      assert Pick(bps, at)[1..] == Pick(bps, at[1..]);
    }
  }

  lemma {:induction false} PickAllMirror(bps: seq<DebugBreakPoint>, bs: seq<seq<nat>>)
    requires InRange(|bps|, bs)
    ensures InRange(|bps|, Mirror<nat>(bs)) && PickAll(bps, Mirror<nat>(bs)) == Mirror(PickAll(bps, bs))
  {
    if bs != [] {
      PickAllMirror(bps, bs[1..]);
      PickReverse(bps, bs[0]);
      InRangeAppend(|bps|, Mirror<nat>(bs[1..]), Reverse<nat>(bs[0]));
      PickAllAppend(bps, Mirror<nat>(bs[1..]), Reverse<nat>(bs[0]));
      assert PickAll(bps, bs)[1..] == PickAll(bps, bs[1..]);
    }
  }

  ghost predicate Distinct(bps: seq<DebugBreakPoint>) {
    forall i, j :: 0 <= i < j < |bps| ==> bps[i] != bps[j]
  }

  lemma {:induction false} PickInjective(bps: seq<DebugBreakPoint>, a: seq<nat>, b: seq<nat>)
    requires Distinct(bps) && (forall m :: m in a ==> m < |bps|) && (forall m :: m in b ==> m < |bps|)
    requires Pick(bps, a) == Pick(bps, b)
    ensures a == b
    decreases a
  {
    assert |a| == |Pick(bps, a)| == |b|;
    if a != [] {
      assert a[0] in a && b[0] in b;
      assert forall m :: m in a[1..] ==> m in a;
      assert forall m :: m in b[1..] ==> m in b;
      assert bps[a[0]] == Pick(bps, a)[0] == bps[b[0]];
      assert Pick(bps, a[1..]) == Pick(bps, a)[1..] == Pick(bps, b[1..]);
      PickInjective(bps, a[1..], b[1..]);
    }
  }

  lemma {:induction false} PickAllInjective(bps: seq<DebugBreakPoint>, a: seq<seq<nat>>, b: seq<seq<nat>>)
    requires Distinct(bps) && InRange(|bps|, a) && InRange(|bps|, b) && PickAll(bps, a) == PickAll(bps, b)
    ensures a == b
    decreases a
  {
    if a == [] || b == [] {
      assert |PickAll(bps, a)| == 0;
    } else {
      assert Pick(bps, a[0]) == PickAll(bps, a)[0] == Pick(bps, b[0]);
      assert PickAll(bps, a[1..]) == PickAll(bps, a)[1..] == PickAll(bps, b)[1..];
      PickInjective(bps, a[0], b[0]);
      PickAllInjective(bps, a[1..], b[1..]);
    }
  }

  /** Reverse-continue hands out the batches of continue, last to first, members last to first,
      exactly when each leader is the first with its condition in its run. */
  lemma ReverseContinueMirrorsContinue(bps: seq<DebugBreakPoint>, es: seq<Entry>, single: bool)
    requires bps != [] && |es| == |bps| && Distinct(bps) && (single || Plain(es))
    ensures ReverseCycleObjects(bps, es, single, |bps| - 1) == Mirror(CycleObjects(bps, es, single, 0))
      <==> single || LeadersComeFirst(es, 0)
  {
    hide Plain, LeadersComeFirst, Cycle, ReverseCycle;
    var c, r := Cycle(es, single, 0), ReverseCycle(es, single, |es| - 1);
    CycleInRange(es, single, 0);
    ReverseCycleInRange(es, single, |es| - 1);
    PickAllMirror(bps, c);
    if single {
      ReverseUndoesForward(es, single);
    } else {
      MirrorsExactly(es);
    }
    if ReverseCycleObjects(bps, es, single, |bps| - 1) == Mirror(CycleObjects(bps, es, single, 0)) {
      PickAllInjective(bps, r, Mirror(c));
    }
  }

  class Scheduler {
    var breakpoints: seq<DebugBreakPoint>
    var inserted: set<nat>
    var current: Option<nat>
    var mode: EvaluationMode
    var singleThread: bool
    /** bp_ordering_table_: rank of each breakpoint id in execution order. */
    const ordering: map<nat, nat>

    constructor (ordering: map<nat, nat>, singleThread: bool)
      ensures Valid() && breakpoints == [] && current.None? && this.ordering == ordering
      ensures this.singleThread == singleThread && Sorted(breakpoints)
    {
      breakpoints, inserted, current, mode := [], {}, None, BreakPointOnly;
      this.ordering, this.singleThread := ordering, singleThread;
    }

    /** The list owns each object once, and knows the rank of every id. */
    ghost predicate Valid()
      reads this, breakpoints`info
    {
      && Distinct(breakpoints)
      && (forall b :: b in breakpoints ==> b.info.id in ordering)
    }

    function Rank(b: DebugBreakPoint): nat
      reads b`info
    {
      if b.info.id in ordering then ordering[b.info.id] else 0
    }

    ghost predicate Sorted(bps: seq<DebugBreakPoint>)
      reads bps`info
    {
      forall i, j :: 0 <= i < j < |bps| ==> Rank(bps[i]) <= Rank(bps[j])
    }

    /** Position after the last evaluated breakpoint among the first n. */
    function AfterEvaluated(n: nat): (i: nat)
      requires n <= |breakpoints|
      reads this`breakpoints, breakpoints`evaluated
      ensures i <= n && (i > 0 ==> breakpoints[i - 1].evaluated)
      ensures forall k :: i <= k < n ==> !breakpoints[k].evaluated
    {
      if n == 0 then 0 else if breakpoints[n - 1].evaluated then n else AfterEvaluated(n - 1)
    }

    /** Where the next forward step starts looking. */
    function NextIndex(): (i: nat)
      reads this`breakpoints, breakpoints`evaluated
      ensures i <= |breakpoints|
    {
      AfterEvaluated(|breakpoints|)
    }

    /** The two loops of scan_breakpoints. */
    static method ScanForward(bps: seq<DebugBreakPoint>, r: nat) returns (grown: seq<DebugBreakPoint>)
      requires r < |bps|
      ensures grown == Collected(bps, Entries(bps), r, r)
    {
      hide Collected, Joins, Entries;
      grown := [];
      ghost var es := Entries(bps);
      var i := r;
      while i < |bps| && SameSpot(bps[i].info, bps[r].info)
        invariant r <= i <= |bps|
        invariant grown + Collected(bps, es, r, i) == Collected(bps, es, r, r)
      {
        hide *;
        CollectStep(bps, es, r, i);
        ghost var was := grown;
        if Joins(bps[r].info, bps[i].info) {
          grown := grown + [bps[i]];
        }
        assert grown + Collected(bps, es, r, i + 1) == was + Collected(bps, es, r, i);
        i := i + 1;
      }
      CollectStop(bps, es, r, i);
    }

    static method ScanBackward(bps: seq<DebugBreakPoint>, r: nat) returns (grown: seq<DebugBreakPoint>)
      requires r < |bps|
      ensures grown == CollectedBack(bps, Entries(bps), r, r)
    {
      hide CollectedBack, Joins, Entries;
      grown := [];
      ghost var es := Entries(bps);
      var i := r;
      while i > 0 && SameSpot(bps[i - 1].info, bps[r].info)
        invariant 0 <= i <= r
        invariant grown + CollectedBack(bps, es, r, i) == CollectedBack(bps, es, r, r)
      {
        hide *;
        CollectBackStep(bps, es, r, i);
        ghost var was := grown;
        if Joins(bps[r].info, bps[i - 1].info) {
          grown := grown + [bps[i - 1]];
        }
        assert grown + CollectedBack(bps, es, r, i - 1) == was + CollectedBack(bps, es, r, i);
        i := i - 1;
      }
      CollectStop(bps, es, r, i);
    }

    static method ForwardBatch(bps: seq<DebugBreakPoint>, single: bool, index: nat)
      returns (result: seq<DebugBreakPoint>)
      requires index < |bps|
      ensures result == BatchObjects(bps, Entries(bps), single, index) && result != []
    {
      hide BatchObjects, Collected, OnlyNormal;
      BatchObjectsAre(bps, Entries(bps), single, index);
      result := [bps[index]];
      if !single && OnlyNormal(bps[index].info) {
        var more := ScanForward(bps, index);
        result := result + more;
      }
    }

    static method BackwardBatch(bps: seq<DebugBreakPoint>, single: bool, index: nat)
      returns (result: seq<DebugBreakPoint>)
      requires index < |bps|
      ensures result == ReverseBatchObjects(bps, Entries(bps), single, index)
    {
      hide ReverseBatchObjects, CollectedBack;
      ReverseBatchObjectsAre(bps, Entries(bps), single, index);
      result := [bps[index]];
      if !single && !bps[index].info.data {
        var more := ScanBackward(bps, index);
        result := result + more;
      }
    }

    /** The end of every step: remember where it stopped, flag what it hands out. */
    method HandOut(bps: seq<DebugBreakPoint>, id: nat)
      requires Valid() && forall b :: b in bps ==> b in breakpoints
      modifies this`current, breakpoints`evaluated
      ensures Valid() && current == Some(id)
      ensures forall b :: b in breakpoints ==> b.evaluated == (old(b.evaluated) || b in bps)
    {
      current := Some(id);
      for k := 0 to |bps|
        invariant Valid() && current == Some(id)
        invariant forall b :: b in breakpoints ==> b.evaluated == (old(b.evaluated) || b in bps[..k])
      {
        assert bps[k] in bps;
        bps[k].evaluated := true;
        assert bps[..k + 1] == bps[..k] + [bps[k]];
      }
      assert bps[..|bps|] == bps;
    }

    /** next_normal_breakpoints: hands out the batch after the last evaluated breakpoint, made of
        breakpoints not handed out before, and leaves the flags on exactly what was handed out. */
    method NextNormal() returns (result: seq<DebugBreakPoint>)
      requires Valid()
      modifies this`current, breakpoints`evaluated
      ensures breakpoints == old(breakpoints)
      ensures forall b :: b in result ==> b in breakpoints && !old(b.evaluated)
      ensures forall b :: b in breakpoints ==> b.evaluated == (old(b.evaluated) || b in result)
      ensures Valid()
      ensures var bps, i := breakpoints, old(NextIndex());
        if i == |bps| then result == [] && current == old(current)
        else
          && result == BatchObjects(bps, Entries(bps), singleThread, i)
          && result != [] && current == Some(result[0].info.id)
          && NextIndex() == BatchEnd(Entries(bps), singleThread, i)
    {
      hide BatchEnd, BatchObjects, AfterEvaluated, Distinct, Entries;
      var index := NextIndex();
      if index == |breakpoints| {
        return [];
      }
      result := ForwardBatch(breakpoints, singleThread, index);
      BatchIsFresh(index);
      HandOut(result, result[0].info.id);
      NextIndexIs(BatchEnd(Entries(breakpoints), singleThread, index));
    }

    /** A batch holds the objects at ascending positions from its index on. */
    static lemma BatchPositions(bps: seq<DebugBreakPoint>, es: seq<Entry>, single: bool, index: nat)
      returns (at: seq<nat>)
      requires index < |bps| == |es|
      ensures var bs := BatchObjects(bps, es, single, index);
        && |bs| == |at| > 0 && at[|at| - 1] + 1 == BatchEnd(es, single, index)
        && (forall j :: 0 <= j < |at| ==> index <= at[j] < |bps| && bs[j] == bps[at[j]])
        && (forall i, j :: 0 <= i < j < |at| ==> at[i] < at[j])
    {
      hide Batch;
      at := Batch(es, single, index);
      BatchAscends(es, single, index);
      AscendsMeans(at, index, Last(at) + 1);
      forall j | 0 <= j < |at|
        ensures index <= at[j] < |bps| && Pick(bps, at)[j] == bps[at[j]]
      {
        PickAt(bps, at, j);
      }
    }

    /** The batch at the next index holds unevaluated breakpoints, its last position one of
        them, and nothing behind that position. */
    lemma BatchIsFresh(index: nat)
      requires Valid() && index == NextIndex() < |breakpoints|
      ensures var bs := BatchObjects(breakpoints, Entries(breakpoints), singleThread, index);
        var end := BatchEnd(Entries(breakpoints), singleThread, index);
        && (forall b :: b in bs ==> b in breakpoints && !b.evaluated)
        && breakpoints[end - 1] in bs
        && (forall k :: end <= k < |breakpoints| ==> breakpoints[k] !in bs)
    {
      hide BatchEnd, BatchObjects, Entries, AfterEvaluated;
      var at := BatchPositions(breakpoints, Entries(breakpoints), singleThread, index);
      var bs := BatchObjects(breakpoints, Entries(breakpoints), singleThread, index);
      assert bs[|at| - 1] in bs;
    }

    lemma NextIndexIs(i: nat)
      requires 0 < i <= |breakpoints| && breakpoints[i - 1].evaluated
      requires forall k :: i <= k < |breakpoints| ==> !breakpoints[k].evaluated
      ensures NextIndex() == i
    {
    }

    method ClearFlags()
      modifies breakpoints`evaluated
      ensures forall b :: b in breakpoints ==> !b.evaluated
      ensures NextIndex() == 0
    {
      for k := 0 to |breakpoints|
        invariant forall l :: 0 <= l < k ==> !breakpoints[l].evaluated
      {
        breakpoints[k].evaluated := false;
      }
    }

    /** start_breakpoint_evaluation: of every inserted id the first entry goes if it is an
        evaluated assertion and nothing else, and stays as what else it is if there is more to
        it; every flag is cleared. */
    method StartEvaluation()
      requires Valid()
      modifies this, breakpoints`evaluated, breakpoints`info
      ensures Valid() && current.None? && NextIndex() == 0
      ensures forall b :: b in breakpoints ==> !b.evaluated
      ensures var left := Settled(old(Slots(breakpoints)), old(inserted));
        && |breakpoints| == |left|
        && forall k :: 0 <= k < |left| ==> breakpoints[k] == left[k].bp && breakpoints[k].info == left[k].info
      ensures forall id :: id in inserted <==> id in old(inserted) && !Expired(old(Slots(breakpoints)), id)
      ensures old(Sorted(breakpoints)) ==> Sorted(breakpoints)
    {
      hide Settled, Expired, Sorted, Distinct, AfterEvaluated, Slots;
      RemoveAssertBreakpoints();
      ClearFlags();
      current := None;
    }

    /** remove_assert_breakpoints: over a copy of the inserted ids, in any order. */
    method RemoveAssertBreakpoints()
      requires Valid()
      modifies this`breakpoints, this`inserted, breakpoints`info
      ensures Valid()
      ensures Slots(breakpoints) == Settled(old(Slots(breakpoints)), old(inserted))
      ensures forall id :: id in inserted <==> id in old(inserted) && !Expired(old(Slots(breakpoints)), id)
      ensures forall i :: 0 <= i < |breakpoints| ==> breakpoints[i] in old(breakpoints)
      ensures old(Sorted(breakpoints)) ==> Sorted(breakpoints)
    {
      hide Sorted, Valid, Settled, Expired, Slots;
      var ids := inserted;
      ghost var all, gone := Slots(breakpoints), {};
      SettledNothing(all);
      while ids != {}
        invariant Valid() && ids + gone == old(inserted) && ids !! gone
        invariant Slots(breakpoints) == Settled(all, gone)
        invariant forall id :: id in inserted <==> id in old(inserted) && !(id in gone && Expired(all, id))
        invariant forall i :: 0 <= i < |breakpoints| ==> breakpoints[i] in old(breakpoints)
        invariant old(Sorted(breakpoints)) ==> Sorted(breakpoints)
        decreases ids
      {
        var id :| id in ids;
        SettledOneMore(all, gone, id);
        ids := ids - {id};
        gone := gone + {id};
        RemoveEvaluatedAssertion(id);
      }
      assert gone == old(inserted);
    }

    /** Removes the first entry with the id if it is an evaluated assertion and nothing else; one
        that is more loses that bit of its type. */
    method RemoveEvaluatedAssertion(id: nat)
      requires Valid()
      modifies this`breakpoints, this`inserted, breakpoints`info
      ensures Valid()
      ensures Slots(breakpoints) == Settled(old(Slots(breakpoints)), {id})
      ensures inserted == if Expired(old(Slots(breakpoints)), id) then old(inserted) - {id} else old(inserted)
      ensures forall i :: 0 <= i < |breakpoints| ==> breakpoints[i] in old(breakpoints)
      ensures old(Sorted(breakpoints)) ==> Sorted(breakpoints)
    {
      hide Settled, Expired, Distinct, Sorted, Slots, FirstWithId, Entries, Leads;
      var k := Find(id);
      if k == |breakpoints| {
        SettledNone(Slots(breakpoints), id);
        return;
      }
      var b := breakpoints[k];
      ghost var front, rest := CutAt(breakpoints, k);
      if !b.info.asserts || !b.evaluated {
        SettledAt(breakpoints, front, b, rest);
      } else if b.info.normal || b.info.data {
        DropAssertion(b, front, rest);
      } else {
        Erase(k, b, front, rest);
      }
    }

    /** b stands between front and rest, the first with its id. */
    static ghost predicate Leads(
      bps: seq<DebugBreakPoint>, front: seq<DebugBreakPoint>, b: DebugBreakPoint, rest: seq<DebugBreakPoint>)
      reads front`info, b`info
    {
      bps == front + ([b] + rest) && forall i :: 0 <= i < |front| ==> front[i].info.id != b.info.id
    }

    static lemma CutAt(bps: seq<DebugBreakPoint>, k: nat)
      returns (front: seq<DebugBreakPoint>, rest: seq<DebugBreakPoint>)
      requires k < |bps| && FirstWithId(Entries(bps), bps[k].info.id) == k
      ensures Leads(bps, front, bps[k], rest)
      ensures front == bps[..k] && rest == bps[k + 1..]
    {
      hide Entries, FirstWithId;
      front, rest := bps[..k], bps[k + 1..];
    }

    /** What settling comes to for the first entry with its id. */
    static lemma SettledAt(
      bps: seq<DebugBreakPoint>, front: seq<DebugBreakPoint>, b: DebugBreakPoint, rest: seq<DebugBreakPoint>)
      requires Leads(bps, front, b, rest)
      ensures var all, x := Slots(bps), Slot(b, b.info, b.evaluated);
        && Settled(all, {b.info.id}) == Slots(front) + (x.Settled() + Slots(rest))
        && (Expired(all, b.info.id) <==> x.Spent())
        && (!x.Asserted() ==> Settled(all, {b.info.id}) == all && !Expired(all, b.info.id))
    {
      hide Settled, Expired, Slots;
      SlotsSplit(front, b, rest);
      SettledBehind(Slots(front), Slot(b, b.info, b.evaluated), Slots(rest), b.info.id);
    }

    /** An evaluated assertion that is more than that loses this bit of its type. */
    method DropAssertion(b: DebugBreakPoint, ghost front: seq<DebugBreakPoint>, ghost rest: seq<DebugBreakPoint>)
      requires Valid() && Leads(breakpoints, front, b, rest)
      requires b.info.asserts && b.evaluated && (b.info.normal || b.info.data)
      modifies b`info
      ensures Valid() && !Expired(old(Slots(breakpoints)), old(b.info.id))
      ensures Slots(breakpoints) == Settled(old(Slots(breakpoints)), {old(b.info.id)})
      ensures old(Sorted(breakpoints)) ==> Sorted(breakpoints)
    {
      hide Slots, Settled, Expired;
      SettledAt(breakpoints, front, b, rest);
      DistinctParts(front, b, rest);
      b.info := b.info.(asserts := false);
      SlotsSplit(front, b, rest);
    }

    static lemma DistinctParts(front: seq<DebugBreakPoint>, b: DebugBreakPoint, rest: seq<DebugBreakPoint>)
      requires Distinct(front + ([b] + rest))
      ensures b !in front && b !in rest
    {
      var all := front + ([b] + rest);
      assert all[|front|] == b;
      assert forall i :: 0 <= i < |front| ==> all[i] == front[i];
      assert forall i :: 0 <= i < |rest| ==> all[|front| + 1 + i] == rest[i];
    }

    /** An evaluated assertion goes, and its id with it. */
    method Erase(k: nat, b: DebugBreakPoint, ghost front: seq<DebugBreakPoint>, ghost rest: seq<DebugBreakPoint>)
      requires Valid() && k < |breakpoints| && b == breakpoints[k] && Leads(breakpoints, front, b, rest)
      requires front == breakpoints[..k] && rest == breakpoints[k + 1..]
      requires b.info.asserts && b.evaluated && !b.info.normal && !b.info.data
      modifies this`breakpoints, this`inserted
      ensures Valid() && Expired(old(Slots(breakpoints)), b.info.id) && inserted == old(inserted) - {b.info.id}
      ensures Slots(breakpoints) == Settled(old(Slots(breakpoints)), {b.info.id})
      ensures forall i :: 0 <= i < |breakpoints| ==> breakpoints[i] in old(breakpoints)
      ensures old(Sorted(breakpoints)) ==> Sorted(breakpoints)
    {
      hide Slots, Settled, Expired, Distinct, Sorted;
      SettledAt(breakpoints, front, b, rest);
      SlotsAppend(front, rest);
      assert [] + Slots(rest) == Slots(rest);
      RemovalKeeps(front, b, rest);
      breakpoints := breakpoints[..k] + breakpoints[k + 1..];
      inserted := inserted - {b.info.id};
    }

    lemma RemovalKeeps(front: seq<DebugBreakPoint>, b: DebugBreakPoint, rest: seq<DebugBreakPoint>)
      requires Distinct(front + ([b] + rest))
      ensures Distinct(front + rest)
      ensures Sorted(front + ([b] + rest)) ==> Sorted(front + rest)
      ensures forall x: DebugBreakPoint :: x in front + rest ==> x in front + ([b] + rest)
    {
      var all, left := front + ([b] + rest), front + rest;
      assert forall i :: 0 <= i < |left| ==> left[i] == all[if i < |front| then i else i + 1];
    }

    method SetEvaluationMode(m: EvaluationMode)
      requires Valid()
      modifies this`mode, breakpoints`evaluated
      ensures Valid() && mode == m
      ensures m != old(mode) ==> NextIndex() == 0 && forall b :: b in breakpoints ==> !b.evaluated
      ensures m == old(mode) ==> forall b :: b in breakpoints ==> b.evaluated == old(b.evaluated)
    {
      if mode != m {
        ClearFlags();
        mode := m;
      }
    }

    /** next_reverse_breakpoints. canRewind is the simulator's answer when asked to go back to the
        previous clock edge; asked says whether it was. */
    method NextReverse(canRewind: bool) returns (result: seq<DebugBreakPoint>, asked: bool)
      requires Valid()
      requires current.Some? && breakpoints != [] ==>
        exists k :: 0 <= k < |breakpoints| && breakpoints[k].info.id == current.value
      modifies this`current, breakpoints`evaluated
      ensures breakpoints == old(breakpoints)
      ensures forall b :: b in breakpoints ==> b.evaluated == (old(b.evaluated) || b in result)
      ensures Valid()
      ensures breakpoints == [] ==> result == [] && !asked
      ensures breakpoints != [] ==>
        var es := Entries(breakpoints);
        var i := ReverseIndex(es, old(current), canRewind);
        && asked == (old(current) == Some(breakpoints[0].info.id))
        && result == ReverseBatchObjects(breakpoints, es, singleThread, i)
        && current == Some(breakpoints[Last(ReverseBatch(es, singleThread, i))].info.id)
      ensures breakpoints != [] ==>
        result != [] && StartsReverse(breakpoints, Entries(breakpoints), result[0], old(current), canRewind)
    {
      hide ReverseBatch, ReverseBatchObjects, CollectedBack, ReverseIndex, Entries, Distinct, StartsReverse;
      asked := false;
      if breakpoints == [] {
        return [], false;
      }
      var index;
      index, asked := ReverseTarget(canRewind);
      ReverseStarts(breakpoints, Entries(breakpoints), current, canRewind);
      result := BackwardBatch(breakpoints, singleThread, index);
      ReverseBatchMembers(index);
      HandOut(result, result[|result| - 1].info.id);
    }

    method ReverseTarget(canRewind: bool) returns (index: nat, asked: bool)
      requires breakpoints != []
      requires current.Some? ==> exists k :: 0 <= k < |breakpoints| && breakpoints[k].info.id == current.value
      ensures index == ReverseIndex(Entries(breakpoints), current, canRewind)
      ensures asked == (current == Some(breakpoints[0].info.id))
    {
      asked, index := false, |breakpoints| - 1;
      if current.Some? {
        if breakpoints[0].info.id == current.value {
          asked := true;
          if !canRewind {
            index := 0;
          }
        } else {
          while index >= 1 && breakpoints[index].info.id != current.value
            invariant 0 <= index < |breakpoints|
            invariant forall k :: index < k < |breakpoints| ==> breakpoints[k].info.id != current.value
          {
            index := index - 1;
          }
          LastWithIdIs(Entries(breakpoints), current.value, index, |breakpoints|);
          index := index - 1;
        }
      }
    }

    lemma ReverseBatchMembers(index: nat)
      requires Valid() && index < |breakpoints|
      ensures var bs := ReverseBatchObjects(breakpoints, Entries(breakpoints), singleThread, index);
        && bs != [] && bs[0] == breakpoints[index] && (forall b :: b in bs ==> b in breakpoints)
        && bs[|bs| - 1] == breakpoints[Last(ReverseBatch(Entries(breakpoints), singleThread, index))]
    {
      hide ReverseBatch;
      var at := ReverseBatch(Entries(breakpoints), singleThread, index);
      var picked := Pick(breakpoints, at);
      forall j | 0 <= j < |picked| ensures at[j] in at && picked[j] == breakpoints[at[j]] {
        PickAt(breakpoints, at, j);
      }
    }

    /** A whole evaluation cycle in forward mode: continue until nothing is left. It takes at most
        one call per breakpoint and one more. */
    method RunCycle() returns (batches: seq<seq<DebugBreakPoint>>)
      requires Valid() && NextIndex() == 0
      modifies this`current, breakpoints`evaluated
      ensures Valid()
      ensures batches == CycleObjects(breakpoints, Entries(breakpoints), singleThread, 0) && |batches| <= |breakpoints|
    {
      hide *;
      batches := [];
      ghost var bps, single, es := breakpoints, singleThread, Entries(breakpoints);
      while true
        invariant Valid() && breakpoints == bps && singleThread == single && Entries(bps) == es
        invariant batches + CycleObjects(bps, es, single, NextIndex()) == CycleObjects(bps, es, single, 0)
        invariant |batches| <= NextIndex()
        decreases |bps| - NextIndex()
      {
        AppendBatch(bps, es, single, NextIndex(), batches);
        var batch := NextNormal();
        if batch == [] {
          break;
        }
        batches := batches + [batch];
      }
    }

    /** Reverse-continue from the end of a cycle, or over a rewind from its start, back to the first
        breakpoint. A rewind is asked for at the start only. */
    method RunReverse() returns (batches: seq<seq<DebugBreakPoint>>, asked: nat)
      requires Valid() && breakpoints != [] && DistinctIds(Entries(breakpoints))
      requires current.None? || current == Some(breakpoints[0].info.id)
      modifies this`current, breakpoints`evaluated
      ensures Valid() && current == Some(breakpoints[0].info.id)
      ensures asked == if old(current).None? then 0 else 1
      ensures batches == ReverseCycleObjects(breakpoints, Entries(breakpoints), singleThread, |breakpoints| - 1)
    {
      hide ReverseCycleObjects, ReverseBatchObjects, ReverseBatch, ReverseIndex, DistinctIds;
      hide Distinct, Entries, InFrontOf;
      ghost var bps, single, es := breakpoints, singleThread, Entries(breakpoints);
      ghost var i: nat := |bps| - 1;
      ghost var all := ReverseCycleObjects(bps, es, single, i);
      AppendReverseBatch(bps, es, single, i, []);
      ReverseFromEnd(es, current);
      var batch, now := ReverseFrom(i);
      assert [] + all == all && [] + [batch] == [batch];
      batches := SweepOn(PositionInFront(Last(ReverseBatch(es, single, i))), [batch], all);
      asked := if now then 1 else 0;
    }

    /** The rest of a sweep, which never asks for a rewind. */
    method SweepOn(ghost from: nat, done: seq<seq<DebugBreakPoint>>, ghost all: seq<seq<DebugBreakPoint>>)
      returns (batches: seq<seq<DebugBreakPoint>>)
      requires Valid() && from < |breakpoints| && DistinctIds(Entries(breakpoints))
      requires if current == Some(breakpoints[0].info.id) then done == all
        else
          && done + ReverseCycleObjects(breakpoints, Entries(breakpoints), singleThread, from) == all
          && InFrontOf(Entries(breakpoints), from, current)
      modifies this`current, breakpoints`evaluated
      ensures Valid() && current == Some(breakpoints[0].info.id) && batches == all
    {
      hide ReverseCycleObjects, ReverseBatchObjects, ReverseBatch, ReverseIndex, DistinctIds;
      hide Distinct, Entries;
      ghost var bps, single, es := breakpoints, singleThread, Entries(breakpoints);
      ghost var i: nat := from;
      batches := done;
      var first := breakpoints[0].info.id;
      while current != Some(first)
        invariant Valid() && breakpoints == bps && singleThread == single && Entries(bps) == es
        invariant i < |bps|
        invariant if current == Some(first) then batches == all
          else batches + ReverseCycleObjects(bps, es, single, i) == all && InFrontOf(es, i, current)
        decreases if current == Some(first) then 0 else i + 1
      {
        hide InFrontOf;
        AppendReverseBatch(bps, es, single, i, batches);
        ReverseIndexInFront(es, i, current);
        InFrontIsKnown(es, i, current);
        var batch, asked := ReverseFrom(i);
        assert !asked;
        i := PositionInFront(Last(ReverseBatch(es, single, i)));
        batches := batches + [batch];
      }
    }

    /** A reverse step from a known position, with time that can be rewound. */
    method ReverseFrom(ghost i: nat) returns (batch: seq<DebugBreakPoint>, asked: bool)
      requires Valid() && breakpoints != [] && ReverseIndex(Entries(breakpoints), current, true) == i
      requires current.Some? ==> exists k :: 0 <= k < |breakpoints| && breakpoints[k].info.id == current.value
      modifies this`current, breakpoints`evaluated
      ensures Valid() && asked == (old(current) == Some(breakpoints[0].info.id))
      ensures batch == ReverseBatchObjects(breakpoints, Entries(breakpoints), singleThread, i)
      ensures current == Some(breakpoints[Last(ReverseBatch(Entries(breakpoints), singleThread, i))].info.id)
    {
      hide *;
      batch, asked := NextReverse(true);
    }

    static ghost function PositionInFront(l: nat): nat { if l > 0 then l - 1 else 0 }

    /** Going back over any number of rewinds repeats the same sweep, and asks for each of them. */
    method RunBack(rewinds: nat) returns (sweeps: seq<seq<seq<DebugBreakPoint>>>, asked: nat)
      requires Valid() && breakpoints != [] && current.None? && DistinctIds(Entries(breakpoints))
      modifies this`current, breakpoints`evaluated
      ensures Valid() && |sweeps| == rewinds + 1 && asked == rewinds
      ensures forall k :: 0 <= k < |sweeps| ==>
        sweeps[k] == ReverseCycleObjects(breakpoints, Entries(breakpoints), singleThread, |breakpoints| - 1)
    {
      hide ReverseCycleObjects, DistinctIds, Distinct, Entries;
      ghost var bps, single, es := breakpoints, singleThread, Entries(breakpoints);
      ghost var all := ReverseCycleObjects(bps, es, single, |bps| - 1);
      var sweep, more := RunReverse();
      sweeps, asked := [sweep], more;
      for n := 0 to rewinds
        invariant Valid() && breakpoints == bps && singleThread == single && Entries(bps) == es
        invariant current == Some(breakpoints[0].info.id) && |sweeps| == n + 1 && asked == n
        invariant forall k :: 0 <= k < |sweeps| ==> sweeps[k] == all
      {
        sweep, more := RunReverse();
        sweeps, asked := sweeps + [sweep], asked + more;
      }
    }

    /** add_breakpoint for a normal breakpoint: one entry per namespace, at the end of the list; an
        id already inserted adds none, and its first entry takes the new condition and is a normal
        breakpoint from then on. */
    method AddBreakpoint(info: Entry, expr: string, namespaces: nat)
      requires Valid() && info.id in ordering && OnlyNormal(info)
      modifies this`breakpoints, this`inserted, breakpoints`expr, breakpoints`info
      ensures Valid() && |breakpoints| >= |old(breakpoints)|
      ensures breakpoints[..|old(breakpoints)|] == old(breakpoints)
      ensures |breakpoints| == |old(breakpoints)| + (if info.id in old(inserted) then 0 else namespaces)
      ensures inserted == if namespaces > 0 then old(inserted) + {info.id} else old(inserted)
      ensures forall k :: |old(breakpoints)| <= k < |breakpoints| ==>
        && fresh(breakpoints[k]) && !breakpoints[k].evaluated
        && breakpoints[k].info == info && breakpoints[k].expr == expr
      ensures forall k :: 0 <= k < |old(breakpoints)| ==>
        var again := info.id in old(inserted) && k == old(FirstWithId(Entries(breakpoints), info.id));
        && breakpoints[k].expr == (if again then expr else old(breakpoints[k].expr))
        && breakpoints[k].info ==
             if again then old(breakpoints[k].info).(normal := true) else old(breakpoints[k].info)
    {
      hide Distinct, FirstWithId, Entries;
      if info.id in inserted {
        var k := Find(info.id);
        if k < |breakpoints| {
          Update(k, expr);
        }
      } else {
        InsertNew(info, expr, namespaces);
        PrefixKept(old(breakpoints), breakpoints);
      }
    }

    static lemma PrefixKept(was: seq<DebugBreakPoint>, now: seq<DebugBreakPoint>)
      requires |was| <= |now| && now[..|was|] == was
      ensures forall k :: 0 <= k < |was| ==> now[k] == was[k]
    {
    }

    method InsertNew(info: Entry, expr: string, namespaces: nat)
      requires Valid() && info.id in ordering
      modifies this`breakpoints, this`inserted
      ensures Valid() && |breakpoints| == |old(breakpoints)| + namespaces
      ensures breakpoints[..|old(breakpoints)|] == old(breakpoints)
      ensures inserted == if namespaces > 0 then old(inserted) + {info.id} else old(inserted)
      ensures forall k :: |old(breakpoints)| <= k < |breakpoints| ==>
        && fresh(breakpoints[k]) && !breakpoints[k].evaluated
        && breakpoints[k].info == info && breakpoints[k].expr == expr
    {
      hide Distinct;
      for n := 0 to namespaces
        invariant Valid() && |breakpoints| == |old(breakpoints)| + n
        invariant breakpoints[..|old(breakpoints)|] == old(breakpoints)
        invariant inserted == if n > 0 then old(inserted) + {info.id} else old(inserted)
        invariant forall k :: |old(breakpoints)| <= k < |breakpoints| ==>
          && fresh(breakpoints[k]) && !breakpoints[k].evaluated
          && breakpoints[k].info == info && breakpoints[k].expr == expr
      {
        var b := new DebugBreakPoint(info, expr);
        DistinctAppend(breakpoints, b);
        breakpoints := breakpoints + [b];
        inserted := inserted + {info.id};
      }
    }

    lemma DistinctAppend(bps: seq<DebugBreakPoint>, b: DebugBreakPoint)
      requires Distinct(bps) && b !in bps
      ensures Distinct(bps + [b])
    {
    }

    /** The entry at k takes the condition and is a normal breakpoint from now on. */
    method Update(k: nat, expr: string)
      requires Valid() && k < |breakpoints|
      modifies breakpoints`expr, breakpoints`info
      ensures Valid()
      ensures forall i :: 0 <= i < |breakpoints| ==>
        && breakpoints[i].expr == (if i == k then expr else old(breakpoints[i].expr))
        && breakpoints[i].info == if i == k then old(breakpoints[i].info).(normal := true) else old(breakpoints[i].info)
    {
      var b := breakpoints[k];
      b.expr := expr;
      b.info := b.info.(normal := true);
    }

    /** The first entry with the id, the end of the list if there is none. */
    method Find(id: nat) returns (k: nat)
      ensures k == FirstWithId(Entries(breakpoints), id)
    {
      k := 0;
      while k < |breakpoints| && breakpoints[k].info.id != id
        invariant k <= |breakpoints|
        invariant FirstWithId(Entries(breakpoints), id) == k + FirstWithId(Entries(breakpoints)[k..], id)
      {
        assert Entries(breakpoints)[k..][1..] == Entries(breakpoints)[k + 1..];
        k := k + 1;
      }
    }

    /** reorder_breakpoints: callers may rely on the order of ranks and on nothing else. */
    method ReorderBreakpoints()
      requires Valid()
      modifies this`breakpoints
      ensures Valid() && Sorted(breakpoints)
      ensures multiset(breakpoints) == multiset(old(breakpoints))
    {
      var done := InsertionSort(breakpoints);
      PermutationKeeps(breakpoints, done);
      breakpoints := done;
    }

    method InsertionSort(bps: seq<DebugBreakPoint>) returns (done: seq<DebugBreakPoint>)
      ensures Sorted(done) && multiset(done) == multiset(bps)
    {
      done := [];
      for n := 0 to |bps|
        invariant Sorted(done) && multiset(done) == multiset(bps[..n])
      {
        hide Sorted;
        done := InsertOne(done, bps[n]);
        assert bps[..n + 1] == bps[..n] + [bps[n]];
      }
      assert bps[..|bps|] == bps;
    }

    method InsertOne(bps: seq<DebugBreakPoint>, b: DebugBreakPoint) returns (done: seq<DebugBreakPoint>)
      requires Sorted(bps)
      ensures Sorted(done) && multiset(done) == multiset(bps) + multiset{b}
    {
      var at := InsertionPoint(bps, b);
      done := bps[..at] + [b] + bps[at..];
      InsertedSorts(bps, b, at);
      assert multiset(done) == multiset(bps) + multiset{b} by {
        hide Sorted;
        assert bps == bps[..at] + bps[at..];
      }
    }

    lemma InsertedSorts(bps: seq<DebugBreakPoint>, b: DebugBreakPoint, at: nat)
      requires Sorted(bps) && at <= |bps|
      requires forall k :: 0 <= k < at ==> Rank(bps[k]) <= Rank(b)
      requires forall k :: at <= k < |bps| ==> Rank(b) <= Rank(bps[k])
      ensures Sorted(bps[..at] + [b] + bps[at..])
    {
      hide Rank;
    }

    method InsertionPoint(bps: seq<DebugBreakPoint>, b: DebugBreakPoint) returns (at: nat)
      requires Sorted(bps)
      ensures at <= |bps|
      ensures forall k :: 0 <= k < at ==> Rank(bps[k]) <= Rank(b)
      ensures forall k :: at <= k < |bps| ==> Rank(b) <= Rank(bps[k])
    {
      at := |bps|;
      while at > 0 && Rank(bps[at - 1]) > Rank(b)
        invariant at <= |bps|
        invariant forall k :: at <= k < |bps| ==> Rank(b) <= Rank(bps[k])
      {
        at := at - 1;
      }
    }

    lemma PermutationKeeps(a: seq<DebugBreakPoint>, b: seq<DebugBreakPoint>)
      requires multiset(a) == multiset(b)
      requires forall i, j :: 0 <= i < j < |a| ==> a[i] != a[j]
      ensures |a| == |b| && forall x: DebugBreakPoint :: x in a <==> x in b
      ensures forall i, j :: 0 <= i < j < |b| ==> b[i] != b[j]
    {
      assert |multiset(a)| == |a| && |multiset(b)| == |b|;
      forall x: DebugBreakPoint ensures x in a <==> x in b {
        assert x in a <==> x in multiset(a);
        assert x in b <==> x in multiset(b);
      }
      forall i, j | 0 <= i < j < |b| ensures b[i] != b[j] {
        if b[i] == b[j] {
          MultipleMeansTwice(b, i, j);
          OnceEach(a, b[i]);
        }
      }
    }

    lemma MultipleMeansTwice(b: seq<DebugBreakPoint>, i: nat, j: nat)
      requires i < j < |b| && b[i] == b[j]
      ensures multiset(b)[b[i]] >= 2
    {
      assert b == b[..j] + [b[j]] + b[j + 1..];
      assert b[i] in b[..j];
    }

    lemma {:induction false} OnceEach(a: seq<DebugBreakPoint>, x: DebugBreakPoint)
      requires forall i, j :: 0 <= i < j < |a| ==> a[i] != a[j]
      ensures multiset(a)[x] <= 1
    {
      if a != [] {
        var front: seq<DebugBreakPoint> := a[..|a| - 1];
        var last := a[|a| - 1];
        assert a == front + [last];
        OnceEach(front, x);
        if x == last {
          assert x !in front;
          assert multiset(front)[x] == 0;
        }
      }
    }

    ghost predicate InRankOrder(bs: seq<DebugBreakPoint>)
      reads bs`info
    {
      forall i, j :: 0 <= i < j < |bs| ==> bs[i] != bs[j] && Rank(bs[i]) <= Rank(bs[j])
    }

    lemma BatchInOrder(index: nat)
      requires Valid() && Sorted(breakpoints) && index < |breakpoints|
      ensures InRankOrder(BatchObjects(breakpoints, Entries(breakpoints), singleThread, index))
    {
      hide BatchObjects, BatchEnd, Rank, Entries;
      var at := BatchPositions(breakpoints, Entries(breakpoints), singleThread, index);
      var bs := BatchObjects(breakpoints, Entries(breakpoints), singleThread, index);
      forall i, j | 0 <= i < j < |bs| ensures bs[i] != bs[j] && Rank(bs[i]) <= Rank(bs[j]) {
        assert at[i] < at[j];
      }
    }

    /** In a sorted list a batch is in rank order and ranks no lower than what was evaluated. */
    lemma BatchRanks(index: nat)
      requires Valid() && Sorted(breakpoints) && index == NextIndex() < |breakpoints|
      ensures var bs := BatchObjects(breakpoints, Entries(breakpoints), singleThread, index);
        && InRankOrder(bs)
        && forall e, b :: e in breakpoints && e.evaluated && b in bs ==> Rank(e) <= Rank(b)
    {
      hide BatchObjects, BatchEnd, Rank, Entries, InRankOrder, Distinct;
      BatchInOrder(index);
      var at := BatchPositions(breakpoints, Entries(breakpoints), singleThread, index);
      var bs := BatchObjects(breakpoints, Entries(breakpoints), singleThread, index);
      forall e, b | e in breakpoints && e.evaluated && b in bs ensures Rank(e) <= Rank(b) {
        var i :| 0 <= i < |breakpoints| && breakpoints[i] == e;
        var j :| 0 <= j < |bs| && bs[j] == b;
        assert i < index <= at[j];
      }
    }

    /** Within one cycle, whatever is inserted between the steps, no breakpoint is handed out
        twice and the rank of what is handed out never goes down. */
    method Session(script: seq<Command>) returns (handed: seq<DebugBreakPoint>)
      requires Valid() && Sorted(breakpoints) && forall b :: b in breakpoints ==> !b.evaluated
      requires forall c :: c in script && c.Insert? ==> c.info.id in ordering && OnlyNormal(c.info)
      modifies this, breakpoints
      ensures Valid() && Sorted(breakpoints) && InRankOrder(handed)
      ensures Handed(handed)
    {
      handed := [];
      for n := 0 to |script|
        invariant Valid() && Sorted(breakpoints) && InRankOrder(handed) && Handed(handed)
        invariant forall i :: 0 <= i < |breakpoints| ==>
          breakpoints[i] in old(breakpoints) || fresh(breakpoints[i])
      {
        hide InRankOrder, Sorted;
        assert script[n] in script;
        match script[n] {
          case Continue =>
            handed := ContinueAfter(handed);
          case Insert(info, expr, namespaces) =>
            InsertInOrder(info, expr, namespaces);
        }
      }
    }

    /** What was handed out is exactly what is flagged as evaluated. */
    ghost predicate Handed(handed: seq<DebugBreakPoint>)
      reads this, breakpoints
    {
      && (forall i :: 0 <= i < |handed| ==> handed[i] in breakpoints)
      && (forall i :: 0 <= i < |breakpoints| ==>
            (breakpoints[i].evaluated <==> breakpoints[i] in handed))
    }

    method ContinueAfter(handed: seq<DebugBreakPoint>) returns (now: seq<DebugBreakPoint>)
      requires Valid() && Sorted(breakpoints) && InRankOrder(handed) && Handed(handed)
      modifies this`current, breakpoints`evaluated
      ensures Valid() && InRankOrder(now) && Handed(now)
    {
      hide BatchObjects, Batch, AfterEvaluated, Entries, Distinct, Sorted, NextIndex;
      ghost var index, all := NextIndex(), handed;
      if index < |breakpoints| {
        ContinueRanks(handed, index);
        all := handed + BatchObjects(breakpoints, Entries(breakpoints), singleThread, index);
      }
      assert InRankOrder(all);
      var batch := NextNormal();
      now := handed + batch;
      assert now == all;
    }

    lemma ContinueRanks(handed: seq<DebugBreakPoint>, index: nat)
      requires Valid() && Sorted(breakpoints) && InRankOrder(handed) && Handed(handed)
      requires index == NextIndex() < |breakpoints|
      ensures InRankOrder(handed + BatchObjects(breakpoints, Entries(breakpoints), singleThread, index))
    {
      hide BatchObjects, Distinct, Sorted, Rank, InRankOrder, AfterEvaluated;
      var batch := BatchObjects(breakpoints, Entries(breakpoints), singleThread, index);
      BatchRanks(index);
      BatchIsFresh(index);
      forall i, j | 0 <= i < |handed| && 0 <= j < |batch|
        ensures handed[i] != batch[j] && Rank(handed[i]) <= Rank(batch[j])
      {
        var e, b := handed[i], batch[j];
        assert e in breakpoints && b in batch;
      }
      RanksAppend(handed, batch);
    }

    lemma RanksAppend(a: seq<DebugBreakPoint>, b: seq<DebugBreakPoint>)
      requires InRankOrder(a) && InRankOrder(b)
      requires forall i, j :: 0 <= i < |a| && 0 <= j < |b| ==> a[i] != b[j] && Rank(a[i]) <= Rank(b[j])
      ensures InRankOrder(a + b)
    {
      hide Rank;
    }

    /** An insertion, followed by the reordering every insertion needs. */
    method InsertInOrder(info: Entry, expr: string, namespaces: nat)
      requires Valid() && info.id in ordering && OnlyNormal(info)
      modifies this`breakpoints, this`inserted, breakpoints`expr, breakpoints`info
      ensures Valid() && Sorted(breakpoints)
      ensures forall b :: b in old(breakpoints) ==> b.info.id == old(b.info.id)
      ensures forall b :: b in old(breakpoints) ==> b in breakpoints
      ensures forall i :: 0 <= i < |breakpoints| ==>
        breakpoints[i] in old(breakpoints) || (fresh(breakpoints[i]) && !breakpoints[i].evaluated)
    {
      AddBreakpoint(info, expr, namespaces);
      ghost var grown := breakpoints;
      assert forall b :: b in old(breakpoints) ==> b in grown[..|old(breakpoints)|];
      ReorderBreakpoints();
      PermutationKeeps(grown, breakpoints);
      forall i | 0 <= i < |breakpoints|
        ensures breakpoints[i] in old(breakpoints) || (fresh(breakpoints[i]) && !breakpoints[i].evaluated)
      {
        assert breakpoints[i] in breakpoints;
        var k :| 0 <= k < |grown| && grown[k] == breakpoints[i];
        if k < |old(breakpoints)| {
          assert grown[..|old(breakpoints)|][k] in old(breakpoints);
        }
      }
    }
  }
}
