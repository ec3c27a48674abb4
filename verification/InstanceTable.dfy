/** The table of instances of a loaded symbol table (src/db.cc), for designs without cycles. An
    instance's position in the table stands for its address. */
module InstanceTable {
  import opened Common
  import opened ScopeReorder

  /** A resolved module: its scope entries and the modules of its instances, by name. */
  datatype Def = Def(scope: seq<Entry>, instances: seq<(string, Def)>)

  /** Instance names are the keys of a map. */
  ghost predicate DistinctNames(d: Def)
    decreases d
  {
    && (forall i, j :: 0 <= i < j < |d.instances| ==> d.instances[i].0 != d.instances[j].0)
    && forall i :: 0 <= i < |d.instances| ==> DistinctNames(d.instances[i].1)
  }

  datatype Instance = Instance(
    name: string, definition: Def, parent: Option<nat>,
    id: nat, instances: map<string, nat>, bps: map<nat, Entry>)

  type Table = seq<Instance>

  // ---- the tree in the table

  /** The children of i are the ones its module declares, and stand behind it. */
  ghost predicate Complete(t: Table, i: nat)
    requires i < |t|
  {
    && (forall k :: k in t[i].instances ==> IsDeclared(t[i].definition, k))
    && forall m :: 0 <= m < |t[i].definition.instances| ==>
         var (k, d) := t[i].definition.instances[m];
         k in t[i].instances && IsChild(t, i, k, t[i].instances[k], d)
  }

  ghost predicate IsDeclared(d: Def, k: string) {
    exists m :: 0 <= m < |d.instances| && d.instances[m].0 == k
  }

  ghost predicate IsChild(t: Table, i: nat, k: string, c: nat, d: Def) {
    i < c < |t| && t[c].parent == Some(i) && t[c].name == k && t[c].definition == d
  }

  /** i is listed by its parent, which stands before it. */
  ghost predicate Listed(t: Table, i: nat)
    requires i < |t|
  {
    && t[i].parent.Some? && t[i].parent.value < i
    && t[i].name in t[t[i].parent.value].instances
    && t[t[i].parent.value].instances[t[i].name] == i
  }

  /** Instances came, and of the old ones only top changed: its id and its children. */
  ghost predicate Grown(t: Table, t': Table, top: nat) {
    && top < |t| <= |t'|
    && (forall i :: 0 <= i < |t| && i != top ==> t'[i] == t[i])
    && t'[top] == t[top].(id := t'[top].id, instances := t'[top].instances)
  }

  lemma GrownKeeps(t: Table, t': Table, top: nat, i: nat)
    requires Grown(t, t', top) && i < |t|
    ensures i != top && Complete(t, i) ==> Complete(t', i)
    ensures t[top].instances == map[] && Listed(t, i) ==> Listed(t', i)
  {
    if i != top && Complete(t, i) {
      forall m | 0 <= m < |t[i].definition.instances|
        ensures var (k, d) := t[i].definition.instances[m];
          k in t'[i].instances && IsChild(t', i, k, t'[i].instances[k], d)
      {
        var (k, d) := t[i].definition.instances[m];
        assert IsChild(t, i, k, t[i].instances[k], d);
      }
    }
  }

  // ---- instance ids

  /** Instance i is among the ones being built: top and everything from base on, less the pending. */
  ghost predicate Distinct(t: Table, area: set<nat>, from: nat, to: nat) {
    && (forall i :: i in area ==> i < |t| && from <= t[i].id < to)
    && forall i, j :: i in area && j in area && i != j ==> t[i].id != t[j].id
  }

  lemma DistinctJoin(t: Table, t': Table, a: set<nat>, b: set<nat>, from: nat, mid: nat, to: nat)
    requires Distinct(t, a, from, mid) && Distinct(t', b, mid, to) && from <= mid <= to && |t| <= |t'|
    requires forall i :: i in a ==> t'[i].id == t[i].id
    ensures Distinct(t', a + b, from, to)
  {
  }

  ghost function Range(from: nat, end: nat): (r: set<nat>)
    ensures forall i :: i in r <==> from <= i < end
    decreases end
  {
    if from >= end then {} else {end - 1} + Range(from, end - 1)
  }

  /** The positions of top and of everything from base on. */
  ghost function Area(t: Table, top: nat, base: nat): set<nat> {
    {top} + Range(base, |t|)
  }

  /** top and everything from base on is a tree, but for the pending instances, still bare. */
  ghost predicate Stage(t: Table, top: nat, base: nat, pending: set<nat>) {
    && top < base <= |t| && top !in pending && pending <= Area(t, top, base)
    && (forall i :: i in Area(t, top, base) - pending ==> Complete(t, i))
    && (forall i :: base <= i < |t| ==>
          Listed(t, i) && t[i].bps == map[] && (t[i].parent.value == top || t[i].parent.value >= base))
    && forall i :: i in pending ==> t[i].instances == map[]
  }

  lemma ListedHasParent(t: Table, i: nat)
    requires i < |t| && Listed(t, i)
    ensures t[i].parent.Some?
  {
  }

  lemma StageNext(t: Table, t': Table, top: nat, base: nat, pending: set<nat>, c: nat)
    requires Stage(t, top, base, pending) && c in pending && Grown(t, t', c) && Stage(t', c, |t|, {})
    ensures Stage(t', top, base, pending - {c})
  {
    hide Complete, Listed;
    forall i | i in Area(t', top, base) - (pending - {c}) ensures Complete(t', i) {
      if i < |t| && i != c {
        assert i in Area(t, top, base) - pending;
        GrownKeeps(t, t', c, i);
      } else {
        assert i in Area(t', c, |t|);
      }
    }
    forall i | base <= i < |t'| ensures Listed(t', i) && t'[i].bps == map[] {
      if i < |t| {
        GrownKeeps(t, t', c, i);
      }
    }
    forall i | base <= i < |t'|
      ensures t'[i].parent.Some? && (t'[i].parent.value == top || t'[i].parent.value >= base)
    {
      ListedHasParent(t', i);
      if i < |t| { ListedHasParent(t, i); }
    }
  }

  lemma AreaNext(t: Table, t': Table, top: nat, base: nat, pending: set<nat>, c: nat)
    requires top < base <= |t| <= |t'| && c in pending && pending <= Area(t, top, base)
    ensures Area(t', top, base) - (pending - {c}) == (Area(t, top, base) - pending) + Area(t', c, |t|)
  {
  }

  /** The instances made for the children of top. */
  function Fresh(d: Def, top: nat, id: nat): (r: Table)
    ensures |r| == |d.instances|
  {
    seq(|d.instances|, m requires 0 <= m < |d.instances| =>
      Instance(d.instances[m].0, d.instances[m].1, Some(top), id + m, map[], map[]))
  }

  /** kids leads from the declared names to positions from base on. */
  ghost predicate Numbers(kids: map<string, nat>, d: Def, base: nat) {
    && (forall k :: k in kids ==> IsDeclared(d, k))
    && forall m :: 0 <= m < |d.instances| ==> d.instances[m].0 in kids && kids[d.instances[m].0] == base + m
  }

  lemma FreshAreComplete(t: Table, top: nat, kids: map<string, nat>, id: nat, t': Table)
    requires top < |t| && Numbers(kids, t[top].definition, |t|)
    requires t' == t[top := t[top].(instances := kids)] + Fresh(t[top].definition, top, id)
    ensures Complete(t', top)
  {
    var d, f := t[top].definition, Fresh(t[top].definition, top, id);
    forall m | 0 <= m < |d.instances|
      ensures d.instances[m].0 in kids && IsChild(t', top, d.instances[m].0, kids[d.instances[m].0], d.instances[m].1)
    {
      assert t'[|t| + m] == f[m];
    }
  }

  lemma FreshAreListed(t: Table, top: nat, kids: map<string, nat>, id: nat, t': Table, i: nat)
    requires top < |t| <= i < |t'| && DistinctNames(t[top].definition) && Numbers(kids, t[top].definition, |t|)
    requires t' == t[top := t[top].(instances := kids)] + Fresh(t[top].definition, top, id)
    ensures Listed(t', i) && t'[i].parent == Some(top) && t'[i].instances == map[] && t'[i].bps == map[]
    ensures t'[i].definition < t[top].definition && DistinctNames(t'[i].definition)
  {
    hide DistinctNames;
    var d, f, m := t[top].definition, Fresh(t[top].definition, top, id), i - |t|;
    DistinctParts(d);
    assert t'[i] == f[m] && d.instances[m].1 < d && kids[d.instances[m].0] == i;
  }

  /** The children just made are all pending. */
  lemma FreshStage(t: Table, top: nat, kids: map<string, nat>, id: nat, t': Table)
    requires top < |t| && DistinctNames(t[top].definition) && Numbers(kids, t[top].definition, |t|)
    requires t[top].id + 1 == id
    requires t' == t[top := t[top].(instances := kids)] + Fresh(t[top].definition, top, id)
    ensures var left := kids.Values;
      && Stage(t', top, |t|, left) && Distinct(t', Area(t', top, |t|) - left, t[top].id, id + |t'| - |t|)
      && Smaller(t', left, t[top].definition)
  {
    hide DistinctNames, Complete, Listed;
    FreshAreComplete(t, top, kids, id, t');
    forall i | |t| <= i < |t'|
      ensures Listed(t', i) && t'[i].parent == Some(top) && t'[i].instances == map[] && t'[i].bps == map[]
      ensures t'[i].definition < t[top].definition && DistinctNames(t'[i].definition)
    {
      FreshAreListed(t, top, kids, id, t', i);
    }
    var left := kids.Values;
    var d := t[top].definition;
    forall c ensures c in left <==> |t| <= c < |t'| {
      if c in left {
        var k :| k in kids && kids[k] == c;
        var m :| 0 <= m < |d.instances| && d.instances[m].0 == k;
      }
      if |t| <= c < |t'| {
        assert kids[d.instances[c - |t|].0] == c;
      }
    }
    assert Area(t', top, |t|) - left == {top};
  }

  /** What a pending instance is. */
  lemma StageBounds(t: Table, top: nat, base: nat, pending: set<nat>, c: nat)
    requires Stage(t, top, base, pending) && c in pending
    ensures top < base <= c < |t| && t[c].instances == map[] && pending <= Area(t, top, base)
  {
  }

  /** The pending instances have smaller designs with distinct names. */
  ghost predicate Smaller(t: Table, pending: set<nat>, d: Def) {
    forall c :: c in pending ==> c < |t| && t[c].definition < d && DistinctNames(t[c].definition)
  }

  lemma SmallerStays(t: Table, t': Table, pending: set<nat>, c: nat, d: Def)
    requires Smaller(t, pending, d) && Grown(t, t', c)
    ensures Smaller(t', pending - {c}, d)
  {
    hide DistinctNames;
  }

  lemma GrownBelow(t: Table, t': Table, t'': Table, top: nat, c: nat)
    requires Grown(t, t', top) && Grown(t', t'', c) && c >= |t|
    ensures Grown(t, t'', top) && |t| <= |t'| <= |t''|
    ensures forall i :: 0 <= i < |t'| && i != c ==> t''[i] == t'[i]
  {
  }

  lemma DistinctParts(d: Def)
    requires DistinctNames(d)
    ensures forall m :: 0 <= m < |d.instances| ==> DistinctNames(d.instances[m].1)
    ensures forall i, j :: 0 <= i < j < |d.instances| ==> d.instances[i].0 != d.instances[j].0
  {
  }
}
