/** The monitor of watched variables: src/monitor.cc. Watches may share the cell that holds the
    value seen last. */
module Monitor {
  import opened Common
  import opened MonitorRuns

  datatype WatchType = Breakpoint | ClockEdge | Data | Changed | DelayClockEdge

  class Cell {
    var value: Reading

    constructor (value: Reading)
      ensures this.value == value
    {
      this.value := value;
    }
  }

  class WatchVariable {
    const watchType: WatchType
    const handle: nat
    const cell: Cell
    var enabled: bool

    constructor (watchType: WatchType, handle: nat, cell: Cell)
      ensures this.watchType == watchType && this.handle == handle && this.cell == cell && enabled
    {
      this.watchType, this.handle, this.cell, enabled := watchType, handle, cell, true;
    }
  }

  /** The watches asked, in order, with what the simulator said. */
  type Visits = seq<(WatchVariable, Reading)>

  /** The readings of the watches that share a cell, in order. */
  ghost function ReadingsOf(c: Cell, visits: Visits): seq<Reading> {
    if visits == [] then []
    else
      var (w, r) := visits[|visits| - 1];
      ReadingsOf(c, visits[..|visits| - 1]) + if w.cell == c then [r] else []
  }

  /** get_value of the simulator. */
  function Read(rtl: map<nat, int>, handle: nat): (r: Reading)
    ensures r.Some? <==> handle in rtl
    ensures r.Some? ==> (handle, r.value) in rtl.Items
  {
    if handle in rtl then Some(rtl[handle]) else None
  }

  /** The values among the answers that come from watches sharing a cell. */
  ghost function AnswersOf(c: Cell, watched: map<nat, WatchVariable>, answers: seq<(nat, Reading)>): seq<Reading> {
    if answers == [] then []
    else
      var (id, value) := answers[|answers| - 1];
      AnswersOf(c, watched, answers[..|answers| - 1])
        + if id in watched && watched[id].cell == c then [value] else []
  }

  function Values(rs: seq<int>): (r: seq<Reading>)
    ensures |r| == |rs| && forall i :: 0 <= i < |rs| ==> r[i] == Some(rs[i])
  {
    seq(|rs|, i requires 0 <= i < |rs| => Some(rs[i]))
  }

  lemma {:induction false} ReadingsCat(c: Cell, a: Visits, b: Visits)
    ensures ReadingsOf(c, a + b) == ReadingsOf(c, a) + ReadingsOf(c, b)
    decreases |b|
  {
    if b == [] {
      assert a + b == a;
    } else {
      ReadingsCat(c, a, b[..|b| - 1]);
      assert (a + b)[..|a + b| - 1] == a + b[..|b| - 1];
    }
  }

  lemma {:induction false} AnswersCat(
      c: Cell, watched: map<nat, WatchVariable>, a: seq<(nat, Reading)>, b: seq<(nat, Reading)>)
    ensures AnswersOf(c, watched, a + b) == AnswersOf(c, watched, a) + AnswersOf(c, watched, b)
    decreases |b|
  {
    if b == [] {
      assert a + b == a;
    } else {
      AnswersCat(c, watched, a, b[..|b| - 1]);
      assert (a + b)[..|a + b| - 1] == a + b[..|b| - 1];
    }
  }

  class MonitorState {
    var watched: map<nat, WatchVariable>
    var watchIdCount: nat

    constructor ()
      ensures watched == map[] && watchIdCount == 0
    {
      watched, watchIdCount := map[], 0;
    }

    /** Ids are handed out in order, each to its own watch. */
    ghost predicate Valid()
      reads this
    {
      && (forall id :: id in watched ==> id < watchIdCount)
      && forall i, j :: i in watched && j in watched && i != j ==> watched[i] != watched[j]
    }

    /** is_monitored. */
    method IsMonitored(handle: nat, watchType: WatchType) returns (r: Option<nat>)
      ensures r.Some? ==>
        r.value in watched && watched[r.value].handle == handle && watched[r.value].watchType == watchType
      ensures r.None? ==> forall id :: id in watched ==>
        watched[id].handle != handle || watched[id].watchType != watchType
    {
      var left := watched.Keys;
      while left != {}
        invariant left <= watched.Keys
        invariant forall id :: id in watched.Keys - left ==>
          watched[id].handle != handle || watched[id].watchType != watchType
        decreases left
      {
        var id :| id in left;
        left := left - {id};
        if watched[id].handle == handle && watched[id].watchType == watchType {
          return Some(id);
        }
      }
      r := None;
    }

    /** add_monitor_variable: a signal watched before in the same way keeps its id and its cell,
        whatever cell is given now. */
    method AddMonitorVariable(handle: nat, watchType: WatchType, cell: Cell) returns (id: nat)
      requires Valid()
      modifies this
      ensures Valid() && id in watched
      ensures watched[id].handle == handle && watched[id].watchType == watchType
      ensures id in old(watched) ==> watched == old(watched)
      ensures id !in old(watched) ==>
        watched == old(watched)[id := watched[id]] && fresh(watched[id]) && watched[id].cell == cell
      ensures id !in old(watched) <==> forall i :: i in old(watched) ==>
        old(watched)[i].handle != handle || old(watched)[i].watchType != watchType
    {
      var found := IsMonitored(handle, watchType);
      if found.Some? {
        return found.value;
      }
      var w := new WatchVariable(watchType, handle, cell);
      watched := watched[watchIdCount := w];
      id := watchIdCount;
      watchIdCount := watchIdCount + 1;
    }

    /** remove_monitor_variable. */
    method RemoveMonitorVariable(id: nat)
      requires Valid()
      modifies this
      ensures Valid() && watched == old(watched) - {id} && watchIdCount == old(watchIdCount)
    {
      watched := watched - {id};
    }

    /** var_changed. */
    method VarChanged(id: nat, rtl: map<nat, int>) returns (changed: bool, value: Reading)
      requires id in watched
      modifies watched[id].cell
      ensures var last, now := old(watched[id].cell.value), Read(rtl, watched[id].handle);
        && changed == (now.Some? && now != last) && (changed ==> value == now)
        && watched[id].cell.value == if now.None? then last else now
    {
      var w := watched[id];
      value := Read(rtl, w.handle);
      changed := false;
      if value.Some? {
        if w.cell.value.None? || w.cell.value.value != value.value {
          changed := true;
        }
        if changed {
          w.cell.value := value;
        }
      }
    }

    /** get_watched_values for data and changed watches. Watches come in any order, each once; and
        for every cell, the answers of the watches that share it are their readings in that order
        without repetitions. */
    method GetChangedValues(watchType: WatchType, rtl: map<nat, int>, ghost cells: set<Cell>)
      returns (answers: seq<(nat, Reading)>, ghost visits: Visits)
      requires Valid() && (watchType.Data? || watchType.Changed?)
      requires forall id :: id in watched ==> watched[id].cell in cells
      modifies cells
      ensures Asked(watchType, rtl, visits)
      ensures forall c :: c in cells ==> Answered(c, old(c.value), c.value, watched, answers, visits)
    {
      hide Answered;
      hide AskedAmong;
      NoneAsked(watched, watchType, rtl);
      answers, visits := [], [];
      var left := watched.Keys;
      ghost var seen: set<nat> := {};
      forall c | c in cells ensures Answered(c, old(c.value), c.value, watched, answers, visits) {
        NothingAsked(c, c.value, watched);
      }
      while left != {}
        invariant left <= watched.Keys && seen == watched.Keys - left
        invariant AskedAmong(watched, seen, watchType, rtl, visits)
        invariant forall c :: c in cells ==> Answered(c, old(c.value), c.value, watched, answers, visits)
        decreases left
      {
        var id :| id in left;
        left := left - {id};
        seen := seen + {id};
        if watched[id].watchType == watchType {
          ghost var before, was := visits, answers;
          label asking:
          var changed, value := VarChanged(id, rtl);
          if changed {
            answers := answers + [(id, value)];
          }
          visits := visits + [(watched[id], Read(rtl, watched[id].handle))];
          AskedOneMore(watched, seen - {id}, watchType, rtl, before, id);
          assert seen - {id} + {id} == seen;
          forall c | c in cells ensures Answered(c, old(c.value), c.value, watched, answers, visits) {
            OneAsked(c, old(c.value), old@asking(c.value), watched, was, before, id, rtl);
          }
        } else {
          NotAsked(watched, seen - {id}, watchType, rtl, visits, id);
          assert seen - {id} + {id} == seen;
        }
      }
      assert seen == watched.Keys;
    }

    /** The watches of a type are each asked once, and read what the simulator says. */
    ghost predicate Asked(watchType: WatchType, rtl: map<nat, int>, visits: Visits)
      reads this
    {
      AskedAmong(watched, watched.Keys, watchType, rtl, visits)
    }

    /** A run of rounds: over the whole run, watches sharing a cell answer exactly their readings
        without repetitions. */
    method Rounds(watchType: WatchType, rtls: seq<map<nat, int>>, ghost cells: set<Cell>)
      returns (answers: seq<(nat, Reading)>, ghost visits: Visits)
      requires Valid() && (watchType.Data? || watchType.Changed?)
      requires forall id :: id in watched ==> watched[id].cell in cells
      modifies cells
      ensures forall c :: c in cells ==> Answered(c, old(c.value), c.value, watched, answers, visits)
    {
      hide Answered;
      answers, visits := [], [];
      forall c | c in cells ensures Answered(c, old(c.value), c.value, watched, answers, visits) {
        NothingAsked(c, c.value, watched);
      }
      for n := 0 to |rtls|
        invariant forall c :: c in cells ==> Answered(c, old(c.value), c.value, watched, answers, visits)
      {
        label before:
        ghost var was, asked := answers, visits;
        var more;
        ghost var round;
        more, round := GetChangedValues(watchType, rtls[n], cells);
        answers, visits := answers + more, visits + round;
        forall c | c in cells ensures Answered(c, old(c.value), c.value, watched, answers, visits) {
          RoundsCompose(c, old(c.value), old@before(c.value), c.value, watched, was, more, asked, round);
        }
      }
    }
  }

  ghost predicate IsAmong(watched: map<nat, WatchVariable>, ids: set<nat>, w: WatchVariable) {
    exists id :: id in ids && id in watched && watched[id] == w
  }

  ghost predicate IsVisited(visits: Visits, w: WatchVariable) {
    exists k :: 0 <= k < |visits| && visits[k].0 == w
  }

  /** Among the given ids, the watches of the type are each asked once, and no others. */
  ghost predicate AskedAmong(
      watched: map<nat, WatchVariable>, ids: set<nat>, watchType: WatchType, rtl: map<nat, int>, visits: Visits)
  {
    && (forall k :: 0 <= k < |visits| ==>
          visits[k].0.watchType == watchType && visits[k].1 == Read(rtl, visits[k].0.handle)
          && IsAmong(watched, ids, visits[k].0))
    && (forall id :: id in ids && id in watched && watched[id].watchType == watchType ==>
          IsVisited(visits, watched[id]))
    && forall j, k :: 0 <= j < k < |visits| ==> visits[j].0 != visits[k].0
  }

  lemma NoneAsked(watched: map<nat, WatchVariable>, watchType: WatchType, rtl: map<nat, int>)
    ensures AskedAmong(watched, {}, watchType, rtl, [])
  {
  }

  lemma NotAsked(
      watched: map<nat, WatchVariable>, ids: set<nat>, watchType: WatchType, rtl: map<nat, int>, visits: Visits, id: nat)
    requires AskedAmong(watched, ids, watchType, rtl, visits) && id in watched && watched[id].watchType != watchType
    ensures AskedAmong(watched, ids + {id}, watchType, rtl, visits)
  {
  }

  lemma AskedOneMore(
      watched: map<nat, WatchVariable>, ids: set<nat>, watchType: WatchType, rtl: map<nat, int>, visits: Visits, id: nat)
    requires AskedAmong(watched, ids, watchType, rtl, visits) && id in watched && id !in ids
    requires watched[id].watchType == watchType
    requires forall i, j :: i in watched && j in watched && i != j ==> watched[i] != watched[j]
    ensures AskedAmong(watched, ids + {id}, watchType, rtl, visits + [(watched[id], Read(rtl, watched[id].handle))])
  {
    var more := visits + [(watched[id], Read(rtl, watched[id].handle))];
    assert more[|visits|].0 == watched[id];
    assert forall k :: 0 <= k < |visits| ==> more[k] == visits[k];
  }

  /** A cell that held last and holds now, with what its watches read and answered in between. */
  ghost predicate Answered(
      c: Cell, last: Reading, now: Reading, watched: map<nat, WatchVariable>,
      answers: seq<(nat, Reading)>, visits: Visits)
  {
    && AnswersOf(c, watched, answers) == Values(Reported(last, ReadingsOf(c, visits)))
    && now == Seen(last, ReadingsOf(c, visits))
  }

  lemma NothingAsked(c: Cell, last: Reading, watched: map<nat, WatchVariable>)
    ensures Answered(c, last, last, watched, [], [])
  {
  }

  lemma RoundsCompose(
      c: Cell, last: Reading, mid: Reading, now: Reading, watched: map<nat, WatchVariable>,
      a: seq<(nat, Reading)>, b: seq<(nat, Reading)>, v: Visits, w: Visits)
    requires Answered(c, last, mid, watched, a, v) && Answered(c, mid, now, watched, b, w)
    ensures Answered(c, last, now, watched, a + b, v + w)
  {
    var rs, qs := ReadingsOf(c, v), ReadingsOf(c, w);
    AnswersCat(c, watched, a, b);
    ReadingsCat(c, v, w);
    RunsCompose(last, rs, qs);
    assert Values(Reported(last, rs) + Reported(mid, qs)) == Values(Reported(last, rs)) + Values(Reported(mid, qs));
  }

  lemma OneAsked(
      c: Cell, last: Reading, now: Reading, watched: map<nat, WatchVariable>,
      answers: seq<(nat, Reading)>, visits: Visits, id: nat, rtl: map<nat, int>)
    requires Answered(c, last, now, watched, answers, visits) && id in watched
    ensures var w := watched[id];
      var r := Read(rtl, w.handle);
      if w.cell == c then
        Answered(c, last, if r.None? then now else r, watched,
          if r.Some? && r != now then answers + [(id, r)] else answers, visits + [(w, r)])
      else
        && Answered(c, last, now, watched, answers, visits + [(w, r)])
        && Answered(c, last, now, watched, answers + [(id, r)], visits + [(w, r)])
  {
    var w := watched[id];
    var r := Read(rtl, w.handle);
    var next := if w.cell == c && r.Some? then r else now;
    var one: seq<(nat, Reading)> := [(id, r)];
    var asked: Visits := [(w, r)];
    assert AnswersOf(c, watched, one) == if w.cell == c then [r] else [] by { assert |one[..0]| == 0; }
    assert ReadingsOf(c, asked) == if w.cell == c then [r] else [] by { assert |asked[..0]| == 0; }
    OneMore(now, [], r);
    assert [] + [r] == [r];
    assert answers + [] == answers;
    if w.cell != c || (r.Some? && r != now) {
      RoundsCompose(c, last, now, next, watched, answers, one, visits, asked);
    }
    if w.cell != c || r.None? || r == now {
      RoundsCompose(c, last, now, next, watched, answers, [], visits, asked);
    }
  }
}
