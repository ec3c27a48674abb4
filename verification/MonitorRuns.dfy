/** What watched variables report over a run (src/monitor.cc): readings without their repetitions,
    and readings of earlier clock edges. */
module MonitorRuns {
  import opened Common

  /** A reading of a signal. None: the simulator could not give a value. */
  type Reading = Option<int>

  // ---- change detection

  /** The values reported for a list of readings, when last is the value seen before. */
  function Reported(last: Reading, rs: seq<Reading>): seq<int>
    decreases |rs|
  {
    if rs == [] then []
    else if rs[0].None? || rs[0] == last then Reported(last, rs[1..])
    else [rs[0].value] + Reported(rs[0], rs[1..])
  }

  /** The value seen last. */
  function Seen(last: Reading, rs: seq<Reading>): Reading
    decreases |rs|
  {
    if rs == [] then last else Seen(if rs[0].None? then last else rs[0], rs[1..])
  }

  /** A run is reported piece by piece. */
  lemma {:induction false} RunsCompose(last: Reading, a: seq<Reading>, b: seq<Reading>)
    ensures Reported(last, a + b) == Reported(last, a) + Reported(Seen(last, a), b)
    ensures Seen(last, a + b) == Seen(Seen(last, a), b)
    decreases |a|
  {
    if a == [] {
      assert a + b == b;
    } else {
      assert (a + b)[0] == a[0] && (a + b)[1..] == a[1..] + b;
      RunsCompose(if a[0].None? then last else a[0], a[1..], b);
    }
  }

  /** No value is reported twice in a row. */
  lemma {:induction false} NoRepetition(last: Reading, rs: seq<Reading>)
    ensures var d := Reported(last, rs);
      && (forall i :: 0 < i < |d| ==> d[i - 1] != d[i])
      && (d != [] ==> last != Some(d[0]))
    decreases |rs|
  {
    if rs != [] {
      NoRepetition(last, rs[1..]);
      NoRepetition(rs[0], rs[1..]);
    }
  }

  /** No change is missed: after every reading, the value reported last is that reading. */
  lemma {:induction false} NothingMissed(last: Reading, rs: seq<Reading>)
    ensures var d := Reported(last, rs); Seen(last, rs) == if d == [] then last else Some(d[|d| - 1])
    ensures rs != [] && rs[|rs| - 1].Some? ==> Seen(last, rs) == rs[|rs| - 1]
    decreases |rs|
  {
    if rs != [] {
      var next := if rs[0].None? then last else rs[0];
      NothingMissed(next, rs[1..]);
    }
  }

  lemma OneMore(last: Reading, rs: seq<Reading>, r: Reading)
    ensures Reported(last, rs + [r]) ==
      Reported(last, rs) + if r.None? || r == Seen(last, rs) then [] else [r.value]
    ensures Seen(last, rs + [r]) == if r.None? then Seen(last, rs) else r
  {
    RunsCompose(last, rs, [r]);
    var one := [r];
    assert |one[1..]| == 0;
  }

  // ---- delay lines

  /** The oldest of the last depth samples, when there are that many. */
  function Delayed(depth: nat, history: seq<Reading>): Option<Reading> {
    if 0 < depth <= |history| then Some(history[|history| - depth]) else None
  }

  /** What a delay line keeps of its history. */
  function Window(depth: nat, history: seq<Reading>): seq<Reading> {
    if |history| <= depth then history else history[|history| - depth..]
  }

  lemma WindowMoves(depth: nat, history: seq<Reading>, r: Reading)
    requires depth > 0
    ensures var w := Window(depth, history) + [r];
      Window(depth, history + [r]) == if |w| > depth then w[1..] else w
  {
  }

  class WatchVariableBuffer {
    const depth: nat
    var values: seq<Reading>
    ghost var history: seq<Reading>

    constructor (depth: nat, initial: Reading)
      requires depth > 0
      ensures this.depth == depth && history == [initial] && Valid()
    {
      this.depth := depth;
      values, history := [initial], [initial];
    }

    ghost predicate Valid()
      reads this
    {
      depth > 0 && values == Window(depth, history)
    }

    /** None: the line has not filled yet. */
    method GetValue() returns (r: Option<Reading>)
      requires Valid()
      ensures r == Delayed(depth, history)
    {
      if |values| == depth {
        r := Some(values[0]);
      } else {
        r := None;
      }
    }

    method SetValue(v: Reading)
      requires Valid()
      modifies this
      ensures Valid() && history == old(history) + [v]
    {
      WindowMoves(depth, history, v);
      values := values + [v];
      if |values| > depth {
        values := values[1..];
      }
      history := history + [v];
    }

    /** get_watched_values at one clock edge: the old value, then the new sample goes in. */
    method ClockEdge(sample: Reading) returns (r: Option<Reading>)
      requires Valid()
      modifies this
      ensures Valid() && r == Delayed(depth, old(history)) && history == old(history) + [sample]
    {
      r := GetValue();
      SetValue(sample);
    }

    /** A run of clock edges: from the edge number depth on, each edge returns the sample taken
        depth edges earlier; the edge before returns the initial value. */
    method Run(samples: seq<Reading>) returns (out: seq<Option<Reading>>)
      requires Valid() && |history| == 1
      modifies this
      ensures Valid() && |out| == |samples|
      ensures forall k :: depth <= k < |samples| ==> out[k] == Some(samples[k - depth])
      ensures depth <= |samples| ==> out[depth - 1] == Some(old(history)[0])
      ensures forall k :: 0 <= k < depth - 1 && k < |samples| ==> out[k].None?
    {
      hide Delayed, Window;
      out := [];
      ghost var initial := history[0];
      for k := 0 to |samples|
        invariant Valid() && |out| == k && history == old(history) + samples[..k]
        invariant forall j :: 0 <= j < k ==> out[j] == Delayed(depth, old(history) + samples[..j])
      {
        var r := ClockEdge(samples[k]);
        out := out + [r];
        assert samples[..k + 1] == samples[..k] + [samples[k]];
      }
      forall k | 0 <= k < |samples|
        ensures k >= depth ==> out[k] == Some(samples[k - depth])
        ensures k == depth - 1 ==> out[k] == Some(initial)
        ensures k < depth - 1 ==> out[k].None?
      {
        EdgeReturns(depth, initial, samples, k);
        assert old(history) == [initial];
      }
    }
  }

  /** What edge k returns, by the samples before it. */
  lemma EdgeReturns(depth: nat, initial: Reading, samples: seq<Reading>, k: nat)
    requires depth > 0 && k < |samples|
    ensures var r := Delayed(depth, [initial] + samples[..k]);
      && (k >= depth ==> r == Some(samples[k - depth]))
      && (k == depth - 1 ==> r == Some(initial))
      && (k < depth - 1 ==> r.None?)
  {
  }
}
