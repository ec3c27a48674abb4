/** The replay engine of tools/hgdb-replay/engine.cc over the time, override and value queries of
    tools/hgdb-replay/vpi.cc. The waveform database is the recorded changes of each signal. */
module ReplayEngine {
  import opened Common
  import opened Extremes
  import opened PackedValues
  import PackedArrays
  import opened ReplayVisits

  type Handle = nat
  type Signal = nat
  /** Recorded changes of a signal: value by time. */
  type Changes = map<nat, string>

  const U64: nat := 0x1_0000_0000_0000_0000

  /** Times the database can hold (signed 64-bit integers). */
  const MAX_TIME: nat := 0x7FFF_FFFF_FFFF_FFFF

  /** get_signal_value: the last recorded value at or before a time. */
  function ValueAt(c: Changes, time: nat): (r: Option<string>)
    ensures r.None? <==> forall t :: t in c ==> t > time
    ensures forall t :: IsLatest(c, t, time) ==> r == Some(c[t])
    ensures r.Some? ==> exists t :: IsLatest(c, t, time)
  {
    var known := set t | t in c && t <= time;
    assert forall t :: t in c && t <= time ==> t in known;
    if known == {} then None
    else
      assert IsLatest(c, Max(known), time);
      Some(c[Max(known)])
  }

  /** The latest recorded change that is not after a time. */
  ghost predicate IsLatest(c: Changes, t: nat, time: nat) {
    t in c && t <= time && forall u :: u in c && u <= time ==> u <= t
  }

  /** get_prev_value_change_time with target value "1". */
  function LastOneBefore(c: Changes, time: nat): (r: Option<nat>)
    ensures r.Some? ==> r.value in c && r.value < time && c[r.value] == "1"
    ensures forall t :: t in c && t < time && c[t] == "1" ==> r.Some? && t <= r.value
  {
    var ones := set t | t in c && t < time && c[t] == "1";
    if ones == {} then
      assert forall t :: t in c && t < time && c[t] == "1" ==> t in ones;
      None
    else
      assert Max(ones) in ones && forall t :: t in c && t < time && c[t] == "1" ==> t in ones;
      Some(Max(ones))
  }

  /** Conversion to PLI_INT32. */
  function ToInt32(v: int): (r: int)
    ensures INT_MIN <= r < 0x8000_0000
    ensures (r - v) % 0x1_0000_0000 == 0
    ensures ToInt32InRange(v) ==> r == v
  {
    var m := v % 0x1_0000_0000;
    if m >= 0x8000_0000 then m - 0x1_0000_0000 else m
  }

  predicate ToInt32InRange(v: int) { INT_MIN <= v < 0x8000_0000 }

  /** The integer a recorded value reads as. None: undefined, the value is too wide to shift. */
  function IntOf(v: Option<string>): Option<int> {
    match v
    case None => Some(0)
    case Some(raw) =>
      match Converted(raw, 0, 0)
      case None => None
      case Some(x) => Some(ToInt32(x))
  }

  /** The integer read from an element of a packed array: zero when nothing is recorded, or when
      the element lies above the recorded bits. */
  function ElementInt(v: Option<string>, bits: Span): Option<int> {
    match v
    case None => Some(0)
    case Some(raw) =>
      match PackedArrays.Extract(raw, bits)
      case None => Some(0)
      case Some(slice) => IntOf(Some(slice))
  }

  type Span = r: PackedArrays.Range | r.lo <= r.hi witness PackedArrays.Range(0, 0)

  /** An element of a packed array: its bus and its bits on the bus. */
  datatype Element = Element(bus: Signal, bits: Span)

  /** A request to go back to the latest positive edge of the clocks before a time. */
  datatype Request = Request(time: nat, clocks: seq<Handle>)

  /** What a client asks for during one visit: in each callback, in the order they fire, a rewind
      or nothing. */
  type Visit = seq<Option<Request>>

  /** What a client reads at one moment: the time, and the integer value of every handle. */
  datatype View = View(reported: nat, seen: map<Handle, Option<int>>)

  /** What one callback saw of a visit to a time, when the handles in fired had fired, its own
      included: before it did anything, and after it went back to a point, if it did. */
  datatype Observation = Observation(time: nat, fired: set<Handle>, before: View, back: Option<Back>)

  datatype Back = Back(point: nat, view: View)

  class ReplayVpi {
    const wave: map<Signal, Changes>
    const signalIds: map<Handle, Signal>
    const elements: map<Handle, Element>
    /** Handles of instances and iterators: valid, but without a value. */
    const others: set<Handle>
    var currentTime: nat
    var callbackEval: bool
    var overridden: map<Handle, Option<int>>

    constructor (wave: map<Signal, Changes>, signalIds: map<Handle, Signal>, elements: map<Handle, Element>, others: set<Handle>)
      ensures this.wave == wave && this.signalIds == signalIds && this.elements == elements && this.others == others
      ensures currentTime == 0 && !callbackEval && overridden == map[]
    {
      this.wave, this.signalIds, this.elements, this.others := wave, signalIds, elements, others;
      currentTime, callbackEval, overridden := 0, false, map[];
    }

    function ChangesOf(h: Handle): Changes {
      if h in signalIds && signalIds[h] in wave then wave[signalIds[h]] else map[]
    }

    function BusOf(h: Handle): Changes
      requires h in elements
    {
      if elements[h].bus in wave then wave[elements[h].bus] else map[]
    }

    /** What h reads as an integer at a time, left to the database. None: undefined, as for a handle
        without a value, for which the result is left as it was. */
    function IntAt(h: Handle, time: nat): Option<int> {
      if h in signalIds then IntOf(ValueAt(ChangesOf(h), time))
      else if h in elements then ElementInt(ValueAt(BusOf(h), time), elements[h].bits)
      else None
    }

    /** vpi_get_value with the integer format. */
    method GetInt(h: Handle) returns (r: Option<int>)
      ensures r == Read(h)
    {
      if h in overridden {
        match overridden[h] {
          case None => r := None;
          case Some(v) => r := Some(ToInt32(v));
        }
      } else {
        r := IntAt(h, currentTime);
      }
    }

    function Read(h: Handle): Option<int>
      reads this
    {
      if h in overridden then
        (match overridden[h]
         case None => None
         case Some(v) => Some(ToInt32(v)))
      else IntAt(h, currentTime)
    }

    /** vpi_get_time. */
    function ReportedTime(): nat
      reads this
    {
      if callbackEval then (currentTime + 1) % U64 else currentTime
    }

    /** emplace: an override already there stays. */
    method AddOverriddenValue(h: Handle, v: Option<int>)
      modifies this`overridden
      ensures overridden == if h in old(overridden) then old(overridden) else old(overridden)[h := v]
    {
      if h !in overridden {
        overridden := overridden[h := v];
      }
    }
  }

  class EmulationEngine {
    const vpi: ReplayVpi
    var timestamp: nat
    var watched: map<Handle, Option<int>>

    constructor (vpi: ReplayVpi)
      ensures this.vpi == vpi && timestamp == vpi.currentTime && watched == map[]
    {
      this.vpi := vpi;
      timestamp, watched := vpi.currentTime, map[];
    }

    /** on_cb_added: a valid handle is watched, and the stored previous value starts empty. Elements
        of arrays are not among the valid handles. */
    method OnCallbackAdded(h: Handle)
      modifies this`watched
      ensures watched ==
        if h in old(watched) || (h !in vpi.signalIds && h !in vpi.others) then old(watched)
        else old(watched)[h := None]
    {
      if (h in vpi.signalIds || h in vpi.others) && h !in watched {
        watched := watched[h := None];
      }
    }

    /** Stored previous values are empty, and recorded times fit the database. */
    ghost predicate Valid()
      reads this
    {
      && (forall h :: h in watched ==> watched[h].None?)
      && (forall h, t :: t in vpi.ChangesOf(h) ==> t <= MAX_TIME)
      && timestamp <= MAX_TIME + 1
    }

    /** All change times of watched signals. */
    function WatchedTimes(): set<nat>
      reads this`watched
    {
      set h, t | h in watched && t in vpi.ChangesOf(h) :: t
    }

    method ChangeTime(time: nat)
      modifies this`timestamp, vpi`currentTime
      ensures timestamp == time && vpi.currentTime == time
    {
      timestamp := time;
      vpi.currentTime := time;
    }

    /** get_next_changed_times followed by taking the smallest. */
    method NextChange() returns (r: Option<nat>)
      requires Valid()
      ensures r == Next(WatchedTimes(), timestamp)
    {
      var left := watched.Keys;
      r := None;
      while left != {}
        invariant left <= watched.Keys
        invariant r.Some? ==> r.value in WatchedTimes() && r.value > timestamp
        invariant forall h, t :: h in watched && h !in left && t in vpi.ChangesOf(h) && t > timestamp ==>
          r.Some? && r.value <= t
        decreases left
      {
        var h :| h in left;
        left := left - {h};
        var n := Next(vpi.ChangesOf(h).Keys, timestamp);
        if n.Some? && (r.None? || n.value < r.value) {
          assert n.value in vpi.ChangesOf(h);
          r := n;
        }
      }
    }

    /** The latest positive edge of the clocks below a time. */
    function LatestPosedge(clocks: seq<Handle>, time: nat): (r: Option<nat>)
      ensures r.Some? ==> r.value < time && exists h :: h in clocks && Posedge(h, r.value)
      ensures forall h, t: nat :: h in clocks && Posedge(h, t) && t < time ==> r.Some? && t <= r.value
    {
      if clocks == [] then None
      else
        var first := LastOneBefore(vpi.ChangesOf(clocks[0]), time);
        var rest := LatestPosedge(clocks[1..], time);
        assert forall h :: h in clocks <==> h == clocks[0] || h in clocks[1..];
        if first.None? then rest
        else
          assert Posedge(clocks[0], first.value);
          if rest.None? || rest.value <= first.value then first else rest
    }

    predicate Posedge(h: Handle, t: nat) {
      t in vpi.ChangesOf(h) && vpi.ChangesOf(h)[t] == "1"
    }

    /** on_rewound: moves to one tick before the posedge; the unsigned subtraction wraps. */
    method OnRewound(time: nat, clocks: seq<Handle>) returns (done: bool)
      modifies this`timestamp, vpi`currentTime
      ensures var p := LatestPosedge(clocks, time);
        && done == p.Some?
        && timestamp == (if p.Some? then TickBefore(p.value) else old(timestamp))
        && vpi.currentTime == (if p.Some? then timestamp else old(vpi.currentTime))
    {
      var p := LatestPosedge(clocks, time);
      done := p.Some?;
      if done {
        ChangeTime(TickBefore(p.value));
      }
    }

    function PointOf(asks: Option<Request>): Option<nat> {
      if asks.Some? then LatestPosedge(asks.value.clocks, asks.value.time) else None
    }

    /** The points some callbacks ask to go back to; a request without an edge is refused. */
    function Points(v: Visit): seq<nat> {
      if v == [] then []
      else (if PointOf(v[0]).Some? then [PointOf(v[0]).value] else []) + Points(v[1..])
    }

    /** The points asked for in a visit, which has as many callbacks as there are watched handles. */
    function Asked(v: Visit): seq<nat>
      reads this`watched
    {
      Points(FirstOf(v, |watched|))
    }

    function AskedAll(script: seq<Visit>): (ps: seq<seq<nat>>)
      reads this`watched
      ensures |ps| == |script|
    {
      if script == [] then [] else [Asked(script[0])] + AskedAll(script[1..])
    }

    /** One tick before p, in unsigned arithmetic. */
    function TickBefore(p: nat): nat {
      (p + U64 - 1) % U64
    }

    /** In a callback that runs for a point in time the client reads that point as the time, the
        new value of every handle that fired at the visited time, and what every other handle had
        one tick before the point; for point 0 there is no such tick. */
    ghost predicate Shows(v: View, point: nat, time: nat, fired: set<Handle>) {
      && v.reported == point
      && v.seen.Keys == vpi.signalIds.Keys + vpi.elements.Keys
      && (forall h :: h in v.seen && h in fired ==> v.seen[h] == vpi.IntAt(h, time))
      && (forall h :: h in v.seen && h !in fired && point > 0 ==> v.seen[h] == vpi.IntAt(h, point - 1))
    }

    /** That is what the client sees at the visited time, and after going back at the point it went
        back to. */
    ghost predicate Faithful(o: Observation) {
      && o.time > 0 && Shows(o.before, o.time, o.time, o.fired)
      && (o.back.Some? ==> Shows(o.back.value.view, o.back.value.point, o.time, o.fired))
    }

    /** The subtraction gives the tick before the point, except for point 0, for which the database
        is asked for the largest time there is. */
    lemma TickBeforeExactly(point: nat)
      requires point <= MAX_TIME
      ensures TickBefore(point) == point - 1 <==> point > 0
      ensures point == 0 ==> TickBefore(point) == U64 - 1
    {
    }

    /** The callbacks of one visit: each adds one handle to those that fired before, and sees the
        new values of these and the old ones of all others. */
    ghost predicate OneByOne(log: seq<Observation>, time: nat, handles: set<Handle>) {
      && (forall i :: 0 <= i < |log| ==>
            Faithful(log[i]) && log[i].time == time && |log[i].fired| == i + 1 && log[i].fired <= handles)
      && (forall i, j :: 0 <= i < j < |log| ==> log[i].fired <= log[j].fired)
    }

    static function FiredIn(log: seq<Observation>): set<Handle> {
      if log == [] then {} else log[|log| - 1].fired
    }

    lemma FiredNext(log: seq<Observation>, o: Observation, time: nat, handles: set<Handle>)
      requires OneByOne(log, time, handles) && Faithful(o) && o.time == time
      requires |o.fired| == |log| + 1 && FiredIn(log) <= o.fired <= handles
      ensures OneByOne(log + [o], time, handles)
    {
      hide Faithful;
      var grown := log + [o];
      forall i, j | 0 <= i < j < |grown| ensures grown[i].fired <= grown[j].fired {
        if j == |log| && i < |log| - 1 {
          assert log[i].fired <= log[|log| - 1].fired;
        }
      }
    }

    /** Reads everything a callback can read. */
    method LookAround() returns (v: View)
      ensures v.reported == vpi.ReportedTime() && v.seen.Keys == vpi.signalIds.Keys + vpi.elements.Keys
      ensures forall h :: h in v.seen ==> v.seen[h] == vpi.Read(h)
    {
      var found: map<Handle, Option<int>> := map[];
      var all := vpi.signalIds.Keys + vpi.elements.Keys;
      var left := all;
      while left != {}
        invariant left <= all && found.Keys == all - left
        invariant forall h :: h in found ==> found[h] == vpi.Read(h)
        decreases left
      {
        var h :| h in left;
        left := left - {h};
        var r := vpi.GetInt(h);
        found := found[h := r];
      }
      v := View(vpi.ReportedTime(), found);
    }

    ghost predicate Differs(h: Handle)
      reads this, vpi
    {
      h in watched && (watched[h].None? || watched[h] != vpi.IntAt(h, vpi.currentTime))
    }

    /** Values of the watched handles that differ from the stored ones, read at the current time. */
    method ChangedValues() returns (changed: map<Handle, Option<int>>)
      requires vpi.overridden == map[]
      ensures forall h :: h in changed <==> Differs(h)
      ensures forall h :: h in changed ==> changed[h] == vpi.IntAt(h, vpi.currentTime)
    {
      changed := map[];
      var left := watched.Keys;
      while left != {}
        invariant left <= watched.Keys
        invariant forall h :: h in changed <==> Differs(h) && h !in left
        invariant forall h :: h in changed ==> changed[h] == vpi.IntAt(h, vpi.currentTime)
        decreases left
      {
        var h :| h in left;
        left := left - {h};
        var v := vpi.GetInt(h);
        if watched[h].None? || watched[h] != v {
          changed := changed[h := v];
        }
      }
    }

    /** The time stamp when the callbacks of a visit are over. */
    function Arrival(time: nat, p: Option<nat>): nat
      requires time > 0
    {
      if p.Some? then TickBefore(p.value) else time - 1
    }

    /** Sets the override of one handle, lets the client look around, rewinds if it asks to, and
        lets it look around again. */
    method FireOne(time: nat, h: Handle, changed: map<Handle, Option<int>>, asks: Option<Request>)
      returns (o: Observation)
      requires 0 < time <= MAX_TIME && timestamp == vpi.currentTime == time - 1 && !vpi.callbackEval
      requires h in changed && h !in vpi.overridden
      requires forall x :: x in vpi.overridden ==> x in changed && vpi.overridden[x] == changed[x]
      requires forall x :: x in changed ==> changed[x] == vpi.IntAt(x, time)
      requires forall x, t :: t in vpi.ChangesOf(x) ==> t <= MAX_TIME
      modifies this`timestamp, vpi
      ensures Faithful(o) && o.time == time && o.fired == old(vpi.overridden.Keys) + {h}
      ensures match PointOf(asks) case None => o.back.None? case Some(p) => o.back.Some? && o.back.value.point == p
      ensures !vpi.callbackEval && vpi.overridden == old(vpi.overridden)[h := changed[h]]
      ensures timestamp == vpi.currentTime
      ensures timestamp == Arrival(time, PointOf(asks))
    {
      hide Shows, TickBefore, LatestPosedge, ReplayVpi.IntAt, ReplayVpi.ChangesOf, ReplayVpi.Read, ReplayVpi.ReportedTime;
      TickBeforeExactly(time);
      vpi.callbackEval := true;
      vpi.AddOverriddenValue(h, changed[h]);
      var fired := vpi.overridden.Keys;
      var before := LookAround();
      ShowsThere(before, time, time);
      o := Observation(time, fired, before, None);
      if asks.Some? {
        var done := OnRewound(asks.value.time, asks.value.clocks);
        if done {
          ghost var p := PointOf(asks).value;
          PointFits(asks);
          var after := LookAround();
          ShowsThere(after, p, time);
          o := o.(back := Some(Back(vpi.ReportedTime(), after)));
          ReportsPoint(p);
        }
      }
      vpi.callbackEval := false;
    }

    lemma PointFits(asks: Option<Request>)
      requires forall x, t :: t in vpi.ChangesOf(x) ==> t <= MAX_TIME
      ensures PointOf(asks).Some? ==> PointOf(asks).value <= MAX_TIME
    {
    }

    /** While a callback runs one tick before a point, that point is the time the client is told. */
    lemma ReportsPoint(point: nat)
      requires point <= MAX_TIME && vpi.currentTime == TickBefore(point) && vpi.callbackEval
      ensures vpi.ReportedTime() == point
    {
    }

    /** What reads as an integer fits into 32 bits, so an override passes on what was read. */
    lemma ReadFits(h: Handle, time: nat)
      ensures vpi.IntAt(h, time).Some? ==> ToInt32(vpi.IntAt(h, time).value) == vpi.IntAt(h, time).value
    {
      hide ValueAt, Converted, PackedArrays.Extract;
    }

    lemma ShowsThere(v: View, point: nat, time: nat)
      requires point <= MAX_TIME && vpi.currentTime == TickBefore(point) && vpi.callbackEval
      requires v.reported == vpi.ReportedTime() && v.seen.Keys == vpi.signalIds.Keys + vpi.elements.Keys
      requires forall h :: h in v.seen ==> v.seen[h] == vpi.Read(h)
      requires forall h :: h in vpi.overridden ==> vpi.overridden[h] == vpi.IntAt(h, time)
      ensures Shows(v, point, time, vpi.overridden.Keys)
    {
      hide ReplayVpi.IntAt, ToInt32, TickBefore;
      ReportsPoint(point);
      TickBeforeExactly(point);
      forall h | h in v.seen
        ensures v.seen[h] == vpi.IntAt(h, if h in vpi.overridden then time else vpi.currentTime)
      {
        ReadFits(h, time);
      }
    }

    static lemma Parts(a: set<Handle>, b: set<Handle>, all: set<Handle>)
      requires a == all - b && b <= all
      ensures |a| + |b| == |all|
    {
      assert a + b == all;
    }

    /** One more callback: what it asks for counts if nothing before it moved the time. */
    lemma AskedNext(v: Visit, n: nat, time: nat)
      requires 0 < time <= MAX_TIME && Moved(Points(FirstOf(v, n)), time).None?
      ensures Arrival(time, PointOf(AskedBy(v, n))) == Arrival(time, Moved(Points(FirstOf(v, n + 1)), time))
    {
      hide PointOf;
      if n < |v| {
        assert FirstOf(v, n + 1) == FirstOf(v, n) + [v[n]];
        PointsAppend(FirstOf(v, n), [v[n]]);
        MovedAppend(Points(FirstOf(v, n)), Points([v[n]]), time);
        MovedOnce(v[n], time);
      } else {
        assert FirstOf(v, n + 1) == FirstOf(v, n);
        MovedOnce(None, time);
      }
    }

    lemma MovedOnce(asks: Option<Request>, time: nat)
      requires 0 < time <= MAX_TIME
      ensures Arrival(time, PointOf(asks)) == Arrival(time, Moved(Points([asks]), time))
      ensures asks.None? ==> PointOf(asks).None?
    {
      hide LatestPosedge;
      var v: Visit := [asks];
      assert v[1..] == [] && Points([]) == [];
      var p := PointOf(asks);
      if p.Some? {
        assert Points(v) == [p.value];
        assert [p.value][1..] == [];
        assert Moved([p.value], time) == if p.value == time then None else p;
      }
    }

    lemma {:induction false} PointsAppend(a: Visit, b: Visit)
      ensures Points(a + b) == Points(a) + Points(b)
    {
      if a == [] {
        assert a + b == b;
        NoPoints();
      } else {
        hide PointOf, Points;
        assert (a + b)[1..] == a[1..] + b && (a + b)[0] == a[0];
        PointsAppend(a[1..], b);
        FirstPoint(a);
        FirstPoint(a + b);
      }
    }

    lemma NoPoints()
      ensures Points([]) == []
    {
    }

    lemma FirstPoint(v: Visit)
      requires v != []
      ensures Points(v) == (if PointOf(v[0]).Some? then [PointOf(v[0]).value] else []) + Points(v[1..])
    {
    }

    /** What moved the time at callback n is what moves it in the whole visit. */
    lemma MovedStays(v: Visit, n: nat, m: nat, time: nat)
      requires n <= m && Moved(Points(FirstOf(v, n)), time).Some?
      ensures Moved(Points(FirstOf(v, m)), time) == Moved(Points(FirstOf(v, n)), time)
    {
      var k := |FirstOf(v, n)|;
      assert FirstOf(v, m) == FirstOf(v, n) + FirstOf(v, m)[k..];
      PointsAppend(FirstOf(v, n), FirstOf(v, m)[k..]);
      MovedAppend(Points(FirstOf(v, n)), Points(FirstOf(v, m)[k..]), time);
    }

    /** Fires the callbacks of one visit, in whatever order; a rewind that moves the time ends it. */
    method FireCallbacks(time: nat, changed: map<Handle, Option<int>>, v: Visit)
      returns (log: seq<Observation>)
      requires Prepared(time, changed) && timestamp == vpi.currentTime == time - 1
      requires vpi.overridden == map[] && !vpi.callbackEval && changed.Keys == watched.Keys
      modifies this`timestamp, vpi
      ensures OneByOne(log, time, changed.Keys) && (changed.Keys != {} ==> log != [])
      ensures Moved(Asked(v), time).None? ==> |log| == |changed.Keys|
      ensures vpi.overridden == map[] && !vpi.callbackEval
      ensures timestamp == Arrival(time, Moved(Asked(v), time))
    {
      hide Firing, Prepared, OneByOne, Moved, Asked, Arrival, Faithful;
      log := [];
      var left := changed.Keys;
      FiringStarts(time, changed, v);
      while left != {} && timestamp == time - 1
        invariant left <= changed.Keys && |log| + |left| == |changed.Keys|
        invariant Firing(time, changed, v, log, left)
        decreases left
      {
        var h :| h in left;
        ghost var before := left;
        left := left - {h};
        assert left + {h} == before;
        log := FireNext(time, changed, v, log, left, h);
      }
      FiringEnds(time, changed, v, log, left);
      vpi.overridden := map[];
    }

    /** What holds between two callbacks of a visit; those of the handles in left are still to come. */
    ghost predicate Firing(time: nat, changed: map<Handle, Option<int>>, v: Visit, log: seq<Observation>, left: set<Handle>)
      requires time > 0
      reads this, vpi
    {
      && !vpi.callbackEval && timestamp == vpi.currentTime
      && vpi.overridden.Keys == changed.Keys - left == FiredIn(log)
      && (forall x :: x in vpi.overridden ==> vpi.overridden[x] == changed[x])
      && timestamp == Arrival(time, Moved(Points(FirstOf(v, |log|)), time))
      && OneByOne(log, time, changed.Keys)
    }

    /** The values are those of the visited time, of handles with recorded times only. */
    ghost predicate Prepared(time: nat, changed: map<Handle, Option<int>>) {
      && 0 < time <= MAX_TIME
      && (forall x :: x in changed ==> changed[x] == vpi.IntAt(x, time))
      && (forall x, t :: t in vpi.ChangesOf(x) ==> t <= MAX_TIME)
    }

    lemma FiringStarts(time: nat, changed: map<Handle, Option<int>>, v: Visit)
      requires time > 0 && timestamp == vpi.currentTime == time - 1
      requires vpi.overridden == map[] && !vpi.callbackEval
      ensures Firing(time, changed, v, [], changed.Keys)
    {
      StaysPut(v, time);
    }

    method FireNext(time: nat, changed: map<Handle, Option<int>>, v: Visit, log: seq<Observation>,
                    ghost left: set<Handle>, h: Handle) returns (grown: seq<Observation>)
      requires Prepared(time, changed) && timestamp == time - 1
      requires h !in left && left + {h} <= changed.Keys
      requires Firing(time, changed, v, log, left + {h}) && |log| + |left + {h}| == |changed.Keys|
      modifies this`timestamp, vpi
      ensures Firing(time, changed, v, grown, left) && |grown| == |log| + 1
    {
      hide OneByOne, Faithful, Points, Moved, ReplayVpi.IntAt, ReplayVpi.ChangesOf, Arrival, FirstOf, AskedBy, PointOf;
      ArrivalMoves(time, v, |log|);
      AskedNext(v, |log|, time);
      assert changed.Keys - left == (changed.Keys - (left + {h})) + {h};
      var o := FireOne(time, h, changed, AskedBy(v, |log|));
      Parts(o.fired, left, changed.Keys);
      FiredNext(log, o, time, changed.Keys);
      grown := log + [o];
    }

    lemma FiringEnds(time: nat, changed: map<Handle, Option<int>>, v: Visit, log: seq<Observation>, left: set<Handle>)
      requires Prepared(time, changed) && changed.Keys == watched.Keys && left <= changed.Keys
      requires Firing(time, changed, v, log, left) && |log| + |left| == |changed.Keys|
      requires left == {} || timestamp != time - 1
      ensures OneByOne(log, time, changed.Keys) && (changed.Keys != {} ==> log != [])
      ensures Moved(Asked(v), time).None? ==> |log| == |changed.Keys|
      ensures !vpi.callbackEval && timestamp == Arrival(time, Moved(Asked(v), time))
    {
      hide OneByOne, Points, Moved, Arrival, FirstOf;
      ArrivalMoves(time, v, |log|);
      if left != {} {
        MovedStays(v, |log|, |watched|, time);
        if log == [] { StaysPut(v, time); }
      }
    }

    lemma StaysPut(v: Visit, time: nat)
      requires time > 0
      ensures Arrival(time, Moved(Points(FirstOf(v, 0)), time)) == time - 1
    {
      assert FirstOf(v, 0) == [];
    }

    lemma ArrivalMoves(time: nat, v: Visit, n: nat)
      requires 0 < time <= MAX_TIME && forall x, t :: t in vpi.ChangesOf(x) ==> t <= MAX_TIME
      ensures var p := Moved(Points(FirstOf(v, n)), time);
        Arrival(time, p) == time - 1 <==> p.None?
    {
      PointsFit(FirstOf(v, n));
    }

    lemma {:induction false} PointsFit(v: Visit)
      requires forall x, t :: t in vpi.ChangesOf(x) ==> t <= MAX_TIME
      ensures forall p :: p in Points(v) ==> p <= MAX_TIME
    {
      if v != [] {
        PointsFit(v[1..]);
      }
    }

    /** The next visit in terms of the visits that follow it. */
    lemma VisitStep(script: seq<Visit>, time: nat)
      requires Next(WatchedTimes(), timestamp) == Some(time)
      ensures var p := if script == [] then None else Moved(Asked(script[0]), time);
        Visits(WatchedTimes(), timestamp, AskedAll(script)) == [time] + Visits(WatchedTimes(),
          if p.Some? then p.value else time + 1,
          AskedAll(if script == [] then [] else script[1..]))
      ensures Moved(Asked([]), time).None?
    {
      hide WatchedTimes, Next;
      if script != [] {
        assert AskedAll(script)[1..] == AskedAll(script[1..]);
      }
    }

    /** emulation_loop: the visited times and everything the callbacks observed. */
    method EmulationLoop(script: seq<Visit>) returns (visits: seq<nat>, log: seq<Observation>)
      requires Valid() && vpi.overridden == map[] && !vpi.callbackEval
      modifies this`timestamp, vpi
      ensures visits == Visits(WatchedTimes(), old(timestamp), AskedAll(script))
      ensures forall o :: o in log ==> Faithful(o) && o.time in visits
      ensures forall t :: t in visits ==> exists o :: o in log && o.time == t
      ensures vpi.overridden == map[] && !vpi.callbackEval
    {
      hide Faithful, Visits, After, Moved, Asked, AskedAll, ReplayVpi.ChangesOf;
      visits, log := [], [];
      var rest := script;
      ghost var w := WatchedTimes();
      while true
        invariant Valid() && w == WatchedTimes()
        invariant vpi.overridden == map[] && !vpi.callbackEval
        invariant visits + Visits(w, timestamp, AskedAll(rest)) == Visits(w, old(timestamp), AskedAll(script))
        invariant forall o :: o in log ==> Faithful(o) && o.time in visits
        invariant forall t :: t in visits ==> exists o :: o in log && o.time == t
        decreases |rest|, |After(w, timestamp)|
      {
        var next := NextChange();
        if next.None? {
          NoMoreVisits(w, timestamp, AskedAll(rest));
          break;
        }
        var time := next.value;
        VisitStep(rest, time);
        AfterShrinks(w, timestamp, time, time + 1);
        var v: Visit := if rest == [] then [] else rest[0];
        var more := if rest == [] then [] else rest[1..];
        var seen := OneVisit(time, v);
        assert seen[0] in log + seen && seen[0].time == time;
        log := log + seen;
        assert visits + ([time] + Visits(w, timestamp, AskedAll(more)))
            == visits + [time] + Visits(w, timestamp, AskedAll(more));
        visits := visits + [time];
        rest := more;
      }
    }

    lemma NoMoreVisits(w: set<nat>, base: nat, asked: seq<seq<nat>>)
      requires Next(w, base).None?
      ensures Visits(w, base, asked) == []
    {
    }

    /** The body of the loop for a change time: look at the new values, step back one tick to fire
        the callbacks, then go on after the visited time or from where a client rewound to. */
    method OneVisit(time: nat, v: Visit) returns (log: seq<Observation>)
      requires Valid() && vpi.overridden == map[] && !vpi.callbackEval && 0 < time <= MAX_TIME
      requires watched.Keys != {}
      modifies this`timestamp, vpi
      ensures Valid() && vpi.overridden == map[] && !vpi.callbackEval
      ensures log != [] && OneByOne(log, time, watched.Keys)
      ensures Moved(Asked(v), time).None? ==> |log| == |watched.Keys|
      ensures var p := Moved(Asked(v), time);
        timestamp == if p.Some? then p.value else time + 1
    {
      hide Faithful, Asked, LatestPosedge, IntOf, ValueAt, ReplayVpi.ChangesOf, ReplayVpi.IntAt, Moved, OneByOne;
      ChangeTime(time);
      var changed := ChangedValues();
      ChangeTime(time - 1);
      assert changed.Keys == watched.Keys && Prepared(time, changed);
      log := FireCallbacks(time, changed, v);
      ArrivalResumes(time, v);
      if timestamp == time - 1 {
        ChangeTime(time + 1);
      } else {
        timestamp := (timestamp + 1) % U64;
      }
    }

    /** Where the callbacks leave the time stamp tells whether a client moved it. */
    lemma ArrivalResumes(time: nat, v: Visit)
      requires 0 < time <= MAX_TIME && forall x, t :: t in vpi.ChangesOf(x) ==> t <= MAX_TIME
      ensures var p := Moved(Asked(v), time);
        && (p.Some? ==> p.value <= MAX_TIME)
        && (Arrival(time, p) == time - 1 <==> p.None?)
        && (p.Some? ==> (Arrival(time, p) + 1) % U64 == p.value)
    {
      PointsFit(FirstOf(v, |watched|));
    }
  }

  function AskedBy(v: Visit, n: nat): Option<Request> {
    if n < |v| then v[n] else None
  }

  /** The first n requests of a visit. */
  function FirstOf(v: Visit, n: nat): Visit {
    if n < |v| then v[..n] else v
  }

  lemma {:induction false} MovedAppend(a: seq<nat>, b: seq<nat>, t: nat)
    ensures Moved(a + b, t) == if Moved(a, t).Some? then Moved(a, t) else Moved(b, t)
  {
    if a == [] {
      assert a + b == b;
    } else {
      assert (a + b)[1..] == a[1..] + b;
      MovedAppend(a[1..], b, t);
    }
  }
}
