/** Which change times a replay visits (tools/hgdb-replay/engine.cc): the engine moves to the next
    watched change after its time stamp, then one tick past it, or to where a client rewound. */
module ReplayVisits {
  import opened Common
  import opened Extremes

  function After(w: set<nat>, base: nat): (later: set<nat>) {
    set t | t in w && t > base
  }

  /** get_next_value_change_time: the first change strictly after base. */
  function Next(w: set<nat>, base: nat): (r: Option<nat>)
    ensures r.None? <==> forall t :: t in w ==> t <= base
    ensures r.Some? ==> r.value in w && r.value > base && forall t :: t in w && t > base ==> r.value <= t
  {
    var later := After(w, base);
    if later == {} then
      assert forall t :: t in w && t > base ==> t in later;
      None
    else
      assert Min(later) in later && forall t :: t in w && t > base ==> t in later;
      Some(Min(later))
  }

  lemma AfterShrinks(w: set<nat>, base: nat, t: nat, next: nat)
    requires t in w && t > base && next >= t
    ensures |After(w, next)| < |After(w, base)|
  {
    assert After(w, next) < After(w, base) by {
      assert t in After(w, base) && t !in After(w, next);
    }
    SubsetSmaller(After(w, next), After(w, base));
  }

  lemma SubsetSmaller(a: set<nat>, b: set<nat>)
    requires a < b
    ensures |a| < |b|
  {
    assert |b - a| > 0;
    assert b == a + (b - a);
  }

  /** Where a visit to t is left for, given the points the callbacks asked to rewind to, in order:
      the first one that is another time ends the visit; going back to t itself changes nothing. */
  function Moved(asked: seq<nat>, t: nat): (p: Option<nat>)
    ensures p.None? <==> forall q :: q in asked ==> q == t
    ensures p.Some? ==> p.value in asked && p.value != t
  {
    if asked == [] then None
    else if asked[0] != t then
      assert asked[0] in asked;
      Some(asked[0])
    else
      assert forall q :: q in asked <==> q == t || q in asked[1..];
      Moved(asked[1..], t)
  }

  lemma {:induction false} MovedIsFirst(asked: seq<nat>, t: nat, k: nat)
    requires k < |asked| && asked[k] != t && forall j :: 0 <= j < k ==> asked[j] == t
    ensures Moved(asked, t) == Some(asked[k])
  {
    if k > 0 { MovedIsFirst(asked[1..], t, k - 1); }
  }

  /** The times a replay visits from time stamp base on. asked[k] are the points to which the
      callbacks of the k-th visit ask to rewind. */
  function Visits(w: set<nat>, base: nat, asked: seq<seq<nat>>): seq<nat>
    decreases |asked|, |After(w, base)|
  {
    match Next(w, base)
    case None => []
    case Some(t) =>
      if asked == [] then
        AfterShrinks(w, base, t, t + 1);
        [t] + Visits(w, t + 1, [])
      else match Moved(asked[0], t)
        case Some(p) => [t] + Visits(w, p, asked[1..])
        case None => [t] + Visits(w, t + 1, asked[1..])
  }

  /** What a replay should visit: every change after base, in order; after a rewind to p, every
      change after p. */
  function Expected(w: set<nat>, base: nat, asked: seq<seq<nat>>): seq<nat>
    decreases |asked|, |After(w, base)|
  {
    match Next(w, base)
    case None => []
    case Some(t) =>
      if asked == [] then
        AfterShrinks(w, base, t, t);
        [t] + Expected(w, t, [])
      else match Moved(asked[0], t)
        case Some(p) => [t] + Expected(w, p, asked[1..])
        case None => [t] + Expected(w, t, asked[1..])
  }

  /** No two changes after base are one tick apart. */
  ghost predicate Spaced(w: set<nat>, base: nat) {
    forall t :: t in w && t > base ==> t + 1 !in w
  }

  /** f lists exactly the elements of w after base, in ascending order. */
  ghost predicate Lists(f: seq<nat>, w: set<nat>, base: nat) {
    && (forall i, j :: 0 <= i < j < |f| ==> f[i] < f[j])
    && (forall t: nat :: t in f <==> t in w && t > base)
  }

  lemma ListsMore(f: seq<nat>, w: set<nat>, base: nat, t: nat)
    requires Next(w, base) == Some(t) && Lists(f, w, t)
    ensures Lists([t] + f, w, base)
  {
    hide Next;
    forall j | 0 <= j < |f| ensures t < f[j] {
      assert f[j] in f;
    }
    forall u: nat ensures u in [t] + f <==> u in w && u > base {
      assert u in [t] + f <==> u == t || u in f;
    }
  }

  /** Without rewinds, what is expected is the sorted list of all changes after base. */
  lemma {:induction false} ExpectedIsSorted(w: set<nat>, base: nat)
    ensures Lists(Expected(w, base, []), w, base)
    decreases |After(w, base)|
  {
    hide After, Lists;
    var next := Next(w, base);
    if next.Some? {
      AfterShrinks(w, base, next.value, next.value);
      ExpectedIsSorted(w, next.value);
      ListsMore(Expected(w, next.value, []), w, base, next.value);
    } else {
      NoneListed(w, base);
    }
  }

  lemma NoneListed(w: set<nat>, base: nat)
    requires Next(w, base).None?
    ensures Lists([], w, base)
  {
  }

  lemma SameNext(w: set<nat>, a: nat, b: nat)
    requires a <= b && forall t :: t in w ==> !(a < t <= b)
    ensures Next(w, a) == Next(w, b)
  {
  }

  lemma SameAfter(w: set<nat>, a: nat, b: nat)
    requires a <= b && forall t :: t in w ==> !(a < t <= b)
    ensures After(w, a) == After(w, b)
  {
  }

  lemma {:induction false} SameExpected(w: set<nat>, t: nat, asked: seq<seq<nat>>)
    requires t + 1 !in w
    ensures Expected(w, t + 1, asked) == Expected(w, t, asked)
  {
    SameNext(w, t, t + 1);
    SameAfter(w, t, t + 1);
  }

  /** No visit that the replay leaves forward has a change one tick behind it. */
  ghost predicate NoneSkipped(w: set<nat>, base: nat, asked: seq<seq<nat>>)
    decreases |asked|, |After(w, base)|
  {
    match Next(w, base)
    case None => true
    case Some(t) =>
      if asked == [] then
        AfterShrinks(w, base, t, t + 1);
        t + 1 !in w && NoneSkipped(w, t + 1, [])
      else match Moved(asked[0], t)
        case Some(p) => NoneSkipped(w, p, asked[1..])
        case None => t + 1 !in w && NoneSkipped(w, t + 1, asked[1..])
  }

  lemma FirstVisit(w: set<nat>, base: nat, asked: seq<seq<nat>>)
    ensures Visits(w, base, asked) != [] ==> Next(w, base) == Some(Visits(w, base, asked)[0])
    ensures Expected(w, base, asked) == [] <==> Next(w, base).None?
    ensures Expected(w, base, asked) != [] ==> Next(w, base) == Some(Expected(w, base, asked)[0])
  {
  }

  /** Moving one tick on loses a change on that tick, so the rest cannot come out as expected. */
  lemma SkippedShows(w: set<nat>, t: nat, asked: seq<seq<nat>>)
    requires t + 1 in w
    ensures Visits(w, t + 1, asked) != Expected(w, t, asked)
  {
    hide Next;
    FirstVisit(w, t + 1, asked);
    FirstVisit(w, t, asked);
    NextIsNeighbour(w, t);
  }

  lemma NextIsNeighbour(w: set<nat>, t: nat)
    requires t + 1 in w
    ensures Next(w, t) == Some(t + 1) && Next(w, t + 1) != Some(t + 1)
  {
  }

  /** With any rewinds, a replay visits exactly what is expected if and only if it never leaves a
      time forward whose next tick has a change. */
  lemma {:induction false} VisitsAsExpected(w: set<nat>, base: nat, asked: seq<seq<nat>>)
    ensures Visits(w, base, asked) == Expected(w, base, asked) <==> NoneSkipped(w, base, asked)
    decreases |asked|, |After(w, base)|
  {
    hide After, Moved;
    var next := Next(w, base);
    if next.Some? {
      var t := next.value;
      var rest := if asked == [] then [] else asked[1..];
      var p := if asked == [] then None else Moved(asked[0], t);
      if p.Some? {
        VisitsAsExpected(w, p.value, rest);
        SameRest(t, Visits(w, p.value, rest), Expected(w, p.value, rest));
      } else {
        AfterShrinks(w, base, t, t + 1);
        SameRest(t, Visits(w, t + 1, rest), Expected(w, t, rest));
        if t + 1 in w {
          SkippedShows(w, t, rest);
        } else {
          VisitsAsExpected(w, t + 1, rest);
          SameExpected(w, t, rest);
        }
      }
    }
  }

  lemma SameRest(t: nat, a: seq<nat>, b: seq<nat>)
    ensures [t] + a == [t] + b <==> a == b
  {
    assert ([t] + a)[1..] == a && ([t] + b)[1..] == b;
  }

  /** Changes at least two ticks apart: nothing is skipped, whatever rewinds happen. */
  lemma {:induction false} SpacedIsNoneSkipped(w: set<nat>, base: nat, asked: seq<seq<nat>>)
    requires Spaced(w, 0)
    ensures NoneSkipped(w, base, asked)
    decreases |asked|, |After(w, base)|
  {
    hide After, Moved;
    if Next(w, base).Some? {
      var t := Next(w, base).value;
      var rest := if asked == [] then [] else asked[1..];
      if asked != [] && Moved(asked[0], t).Some? {
        SpacedIsNoneSkipped(w, Moved(asked[0], t).value, rest);
      } else {
        AfterShrinks(w, base, t, t + 1);
        SpacedIsNoneSkipped(w, t + 1, rest);
      }
    }
  }

  /** On spaced changes a replay visits exactly what is expected, whatever rewinds happen. */
  lemma SpacedVisitsAsExpected(w: set<nat>, base: nat, asked: seq<seq<nat>>)
    requires Spaced(w, 0)
    ensures Visits(w, base, asked) == Expected(w, base, asked)
  {
    SpacedIsNoneSkipped(w, base, asked);
    VisitsAsExpected(w, base, asked);
  }

  /** Going back to right before t visits t again, and then leaves it forward. */
  lemma ComesBackTo(w: set<nat>, base: nat, t: nat) returns (asked: seq<seq<nat>>)
    requires Next(w, base).Some? && t > 0 && t in w && t + 1 in w
    ensures !NoneSkipped(w, base, asked)
  {
    var first := Next(w, base).value;
    if first == t - 1 {
      asked := [];
      assert first + 1 == t;
    } else {
      asked := [[t - 1]];
      assert Moved(asked[0], first) == Some(t - 1) && asked[1..] == [];
      NextIsNeighbour(w, t - 1);
    }
  }

  /** Whatever its clients ask for, a replay that has anything to visit visits what it should if and
      only if no two changes after time 0 are one tick apart. */
  lemma AlwaysAsExpectedExactly(w: set<nat>, base: nat)
    requires exists t :: t in w && t > base
    ensures (forall asked :: Visits(w, base, asked) == Expected(w, base, asked)) <==> Spaced(w, 0)
  {
    if Spaced(w, 0) {
      forall asked ensures Visits(w, base, asked) == Expected(w, base, asked) {
        SpacedVisitsAsExpected(w, base, asked);
      }
    } else {
      var t :| t in w && t > 0 && t + 1 in w;
      var asked := ComesBackTo(w, base, t);
      VisitsAsExpected(w, base, asked);
    }
  }

  /** A run without rewinds visits changes after its start only, and misses a change exactly when
      it visits the tick before it. */
  lemma {:induction false} MissedExactly(w: set<nat>, base: nat, t: nat)
    ensures t in Visits(w, base, []) ==> t in w && t > base
    ensures t in w && t > base ==> (t !in Visits(w, base, []) <==> t - 1 in Visits(w, base, []))
    decreases |After(w, base)|
  {
    hide After;
    var next := Next(w, base);
    if next.Some? {
      var first := next.value;
      AfterShrinks(w, base, first, first + 1);
      var rest := Visits(w, first + 1, []);
      assert Visits(w, base, []) == [first] + rest;
      MissedExactly(w, first + 1, t);
      if t > 0 { MissedExactly(w, first + 1, t - 1); }
    }
  }

  /** A run without rewinds visits every change after its start if and only if no two of them
      are one tick apart. */
  lemma VisitsAllIffSpaced(w: set<nat>, base: nat)
    ensures (forall t :: t in w && t > base ==> t in Visits(w, base, [])) <==> Spaced(w, base)
  {
    if Spaced(w, base) {
      forall t | t in w && t > base ensures t in Visits(w, base, []) {
        MissedExactly(w, base, t);
        MissedExactly(w, base, t - 1);
      }
    } else {
      var t :| t in w && t > base && t + 1 in w;
      MissedExactly(w, base, t);
      MissedExactly(w, base, t + 1);
    }
  }

  /** Of three changes in a row the second is missed and the third is not. */
  lemma NeighbourIsMissed()
    ensures Visits({5, 6, 7}, 0, []) == [5, 7]
  {
    var w := {5, 6, 7};
    assert Next(w, 0) == Some(5) && Next(w, 6) == Some(7) && Next(w, 8) == None;
    assert Visits(w, 8, []) == [];
    assert Visits(w, 6, []) == [7];
  }

  ghost predicate Before(ts: seq<nat>, base: nat, p: nat) {
    forall t :: t in ts ==> base < t <= p
  }

  /** Time travel agrees with a forward run: what follows a point p of a forward run is what a
      rewind to p visits again. */
  lemma {:induction false} ForwardRunSplits(w: set<nat>, base: nat, p: nat) returns (before: seq<nat>)
    requires base <= p
    ensures Before(before, base, p) && Expected(w, base, []) == before + Expected(w, p, [])
    decreases |After(w, base)|
  {
    hide After;
    var next := Next(w, base);
    if next.None? || next.value > p {
      SameNext(w, base, p);
      SameAfter(w, base, p);
      before := [];
    } else {
      AfterShrinks(w, base, next.value, next.value);
      var more := ForwardRunSplits(w, next.value, p);
      before := [next.value] + more;
    }
  }
}
