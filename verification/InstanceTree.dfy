/** Instance ids and breakpoint ids of a loaded symbol table: build_instance_tree, build_bp_ids,
    the root loop of parse_db, and the name and id queries of src/db.cc. */
module InstanceTree {
  import opened Common
  import opened ScopeReorder
  import opened Tokens
  import opened Ancestors
  import opened InstanceTable
  import opened InstanceQueries

  class Design {
    var table: Table
    var roots: seq<nat>

    constructor ()
      ensures table == [] && roots == []
    {
      table, roots := [], [];
    }

    /** The first loop: the children, each with an id that building will replace. */
    method MakeChildren(top: nat, start: nat) returns (kids: map<string, nat>, id: nat)
      requires top < |table| && DistinctNames(table[top].definition)
      modifies this`table
      ensures Numbers(kids, old(table)[top].definition, old(|table|))
      ensures table == old(table)[top := old(table)[top].(instances := kids)]
        + Fresh(old(table)[top].definition, top, start)
      ensures id == start + |table| - old(|table|)
    {
      hide DistinctNames;
      id := start;
      var d := table[top].definition;
      DistinctParts(d);
      kids := map[];
      ghost var before, f := table, Fresh(d, top, start);
      for m := 0 to |d.instances|
        invariant id == start + m && table == before + f[..m]
        invariant forall k :: k in kids ==> IsDeclared(d, k)
        invariant forall j :: 0 <= j < m ==> d.instances[j].0 in kids && kids[d.instances[j].0] == |before| + j
      {
        var (k, sub) := d.instances[m];
        kids := kids[k := |table|];
        table := table + [Instance(k, sub, Some(top), id, map[], map[])];
        id := id + 1;
        assert f[..m + 1] == f[..m] + [f[m]];
      }
      assert f[..|f|] == f;
      table := table[top := table[top].(instances := kids)];
    }

    /** build_instance_tree: an instance takes an id, its children are made and given ids, and each
        child, in whatever order, is then built itself and takes another one. */
    method BuildInstanceTree(top: nat, start: nat) returns (id: nat)
      requires top < |table| && table[top].instances == map[] && DistinctNames(table[top].definition)
      modifies this`table
      ensures Grown(old(table), table, top) && Stage(table, top, old(|table|), {})
      ensures id > start && Distinct(table, Area(table, top, old(|table|)), start, id)
      decreases table[top].definition
    {
      hide DistinctNames, Complete, Listed, Stage, Distinct, Numbers, Fresh;
      ghost var base, d := |table|, table[top].definition;
      table := table[top := table[top].(id := start)];
      ghost var bare := table;
      var kids;
      kids, id := MakeChildren(top, start + 1);
      FreshStage(bare, top, kids, start + 1, table);
      var left := kids.Values;
      while left != {}
        invariant Stage(table, top, base, left) && id > start && Grown(old(table), table, top)
        invariant Smaller(table, left, d)
        invariant Distinct(table, Area(table, top, base) - left, start, id)
        decreases left
      {
        hide Grown, Area;
        var c :| c in left;
        ghost var before, mid := table, id;
        StageBounds(table, top, base, left, c);
        id := BuildInstanceTree(c, id);
        GrownBelow(old(table), before, table, top, c);
        SmallerStays(before, table, left, c, d);
        StageNext(before, table, top, base, left, c);
        AreaNext(before, table, top, base, left, c);
        DistinctJoin(before, table, Area(before, top, base) - left, Area(table, c, |before|), start, mid, id);
        left := left - {c};
      }
      assert Area(table, top, base) - {} == Area(table, top, base);
    }

    /** ScopeEntryVisitor: the next ids for the statements of a scope, in its order. */
    method VisitScope(top: nat, s: seq<Entry>, start: nat, ghost from: nat, ghost es: seq<Entry>)
      returns (end: nat)
      requires top < |table| && IsNumbered(table[top].bps, from, es) && start == from + |es|
      modifies this`table
      ensures |table| == old(|table|)
      ensures table == old(table)[top := old(table)[top].(bps := table[top].bps)]
      ensures IsNumbered(table[top].bps, from, es + Breakpoints(s)) && end == start + |Breakpoints(s)|
      decreases s
    {
      hide IsNumbered, Breakpoints;
      end := start;
      NoBreakpoints(es);
      for n := 0 to |s|
        invariant |table| == old(|table|)
        invariant table == old(table)[top := old(table)[top].(bps := table[top].bps)]
        invariant IsNumbered(table[top].bps, from, es + Breakpoints(s[..n]))
        invariant end == start + |Breakpoints(s[..n])|
      {
        ghost var sofar := es + Breakpoints(s[..n]);
        BreakpointsGrow(s, n);
        assert sofar + BreakpointsOf(s[n]) == es + Breakpoints(s[..n + 1]);
        match s[n].kind {
          case Block => end := VisitScope(top, s[n].scope, end, from, sofar);
          case ModuleDef => end := VisitScope(top, s[n].scope, end, from, sofar);
          case _ =>
            if s[n].line > 0 {
              OneMore(table[top].bps, from, sofar, s[n]);
              table := table[top := table[top].(bps := table[top].bps[end := s[n]])];
              end := end + 1;
            } else {
              assert sofar + [] == sofar;
            }
        }
      }
      assert s[..|s|] == s;
    }

    /** build_bp_ids: an instance numbers its scope, then its children number theirs, in whatever
        order. Together they own the ids from start on, each exactly once. */
    method BuildBpIds(top: nat, start: nat, ghost par: Parents) returns (end: nat)
      requires Ready(table, par, top)
      modifies this`table
      ensures OnlyBps(old(table), table, Below(par, top))
      ensures start <= end && Owned(table, Below(par, top), start, end)
      decreases |par| - top
    {
      hide Ready, OnlyBps, Owned, Complete, Listed, Below, IsNumbered;
      ghost var t := table;
      TopIsBelow(t, par, top);
      end := VisitScope(top, table[top].definition.scope, start, start, []);
      assert [] + Breakpoints(t[top].definition.scope) == Breakpoints(t[top].definition.scope);
      OwnedByOne(table, top, start);
      OneChanged(t, table, top);
      ghost var done := {top};
      var left := set c | c in table[top].instances.Values;
      while left != {}
        invariant left <= t[top].instances.Values && |table| == |t| == |par|
        invariant OnlyBps(t, table, done) && top in done && done <= Below(par, top)
        invariant start <= end && Owned(table, done, start, end)
        invariant forall c :: c in left ==> Below(par, c) !! done
        invariant forall c :: c in t[top].instances.Values - left ==> Below(par, c) <= done
        decreases left
      {
        var c :| c in left;
        left := left - {c};
        ghost var before, mid := table, end;
        ReadyChild(t, table, par, top, done, c);
        end := BuildBpIds(c, end, par);
        BelowInside(par, top);
        Unchanged(before, table, Below(par, c), done);
        OwnedJoin(before, table, done, Below(par, c), start, mid, end);
        OnlyBpsTwice(t, before, table, done, Below(par, c));
        ChildrenApart(t, par, top, c, left);
        done := done + Below(par, c);
      }
      AllBelow(t, par, top, done);
    }

    /** parse makes one instance per top module. */
    method AddRoots(defs: seq<(string, Def)>)
      requires table == [] && roots == []
      modifies this
      ensures |table| == |roots| == |defs|
      ensures forall r :: 0 <= r < |defs| ==> roots[r] == r && table[r] == Root(defs[r])
    {
      for r := 0 to |defs|
        invariant |table| == |roots| == r
        invariant forall i :: 0 <= i < r ==> roots[i] == i && table[i] == Root(defs[i])
      {
        roots := roots + [|table|];
        table := table + [Root(defs[r])];
      }
    }

    /** The loop of parse_db: for every root, its instances and then its breakpoints. In the end all
        instance ids differ, and the breakpoint ids below numBps belong to one instance each. */
    method ParseDb(defs: seq<(string, Def)>) returns (numInstances: nat, numBps: nat)
      requires table == [] && roots == []
      requires forall r :: 0 <= r < |defs| ==> DistinctNames(defs[r].1)
      requires forall r, q :: 0 <= r < q < |defs| ==> defs[r].0 != defs[q].0
      modifies this
      ensures Rooted(table, roots) && |roots| == |defs| <= |table|
      ensures forall r :: 0 <= r < |defs| ==>
        roots[r] == r && table[r].name == defs[r].0 && table[r].definition == defs[r].1
      ensures forall i :: 0 <= i < |table| ==> Complete(table, i)
      ensures Distinct(table, Range(0, |table|), 0, numInstances)
      ensures Owned(table, Range(0, |table|), 0, numBps)
    {
      hide DistinctNames, Complete, Listed, Distinct, Owned, OnlyBps, Stage, Grown, Loading, Rooted;
      AddRoots(defs);
      numInstances, numBps := 0, 0;
      RootsOnly(table, |defs|);
      for r := 0 to |defs|
        invariant |roots| == |defs| <= |table| && forall i :: 0 <= i < |defs| ==> roots[i] == i
        invariant Loading(table, r, |defs|)
        invariant forall i :: 0 <= i < |defs| ==> table[i].name == defs[i].0 && table[i].definition == defs[i].1
        invariant Distinct(table, Loaded(table, r, |defs|), 0, numInstances)
        invariant Owned(table, Loaded(table, r, |defs|), 0, numBps)
      {
        numInstances, numBps := LoadRoot(r, |defs|, numInstances, numBps);
      }
      AllLoaded(table, roots);
    }

    /** One turn of the loop. */
    method LoadRoot(r: nat, ghost n: nat, instances: nat, bps: nat) returns (numInstances: nat, numBps: nat)
      requires r < n && Loading(table, r, n)
      requires Distinct(table, Loaded(table, r, n), 0, instances) && Owned(table, Loaded(table, r, n), 0, bps)
      modifies this`table
      ensures Loading(table, r + 1, n) && |old(table)| <= |table|
      ensures forall i :: 0 <= i < |old(table)| ==>
        table[i].name == old(table)[i].name && table[i].definition == old(table)[i].definition
      ensures Distinct(table, Loaded(table, r + 1, n), 0, numInstances)
      ensures Owned(table, Loaded(table, r + 1, n), 0, numBps)
    {
      hide DistinctNames, Complete, Listed, Distinct, Owned, OnlyBps, Stage, Grown, Loading;
      ghost var before := table;
      NextRoot(table, r, n);
      numInstances := BuildInstanceTree(r, instances);
      ghost var built, par := table, ParentsOf(table);
      RootIsReady(before, built, r, n);
      numBps := BuildBpIds(r, bps, par);
      ghost var area := Area(built, r, |before|);
      LoadingNext(before, built, table, r, n);
      DistinctJoin(before, built, Loaded(before, r, n), area, 0, instances, numInstances);
      DistinctAfter(built, table, Loaded(before, r, n) + area, area, 0, numInstances);
      OwnedJoin(before, table, Loaded(before, r, n), area, 0, bps, numBps);
    }

    /** The visitor that looks for an instance by its id. */
    method FindById(top: nat, id: nat, ghost par: Parents) returns (r: Option<nat>)
      requires Shaped(table, par) && top < |table|
      ensures r.Some? ==> r.value < |table| && table[r.value].id == id
      ensures r.None? ==> forall i :: i in Below(par, top) ==> table[i].id != id
      decreases |table| - top
    {
      if table[top].id == id {
        return Some(top);
      }
      r := None;
      var left := set c | c in table[top].instances.Values;
      while left != {}
        invariant left <= table[top].instances.Values
        invariant r.Some? ==> r.value < |table| && table[r.value].id == id
        invariant r.None? ==> forall c, i ::
          c in table[top].instances.Values - left && i in Below(par, c) ==> table[i].id != id
        decreases left
      {
        var c :| c in left;
        left := left - {c};
        ListedAreChildren(table, top, c);
        if r.None? {
          r := FindById(c, id, par);
        }
      }
      if r.None? {
        forall i | i in Below(par, top) ensures table[i].id != id {
          if i != top {
            var k := UnderSomeChild(table, par, i, top);
            assert i in Below(par, table[top].instances[k]);
          }
        }
      }
    }

    /** The walk up that puts a dotted name together. */
    method DottedName(i: nat) returns (name: string)
      requires i < |table| && forall j :: 0 <= j < |table| && table[j].parent.Some? ==> Listed(table, j)
      ensures CleanNames(table) ==> name == Join(Path(table, i), '.')
    {
      hide Listed, Join, CleanNames, Path;
      NothingDotted();
      name := "";
      var p: Option<nat> := Some(i);
      ghost var done: seq<string> := [];
      while p.Some?
        invariant p.Some? ==> p.value < |table|
        invariant Path(table, i) == PathUp(table, p) + done
        invariant CleanNames(table) ==> IsDotted(name, done)
        decreases if p.Some? then p.value + 1 else 0
      {
        if CleanNames(table) { DottedMore(table, p.value, name, done); }
        if name == "" {
          name := table[p.value].name;
        } else {
          name := table[p.value].name + "." + name;
        }
        if table[p.value].parent.Some? { ListedIsLater(table, p.value); }
        PathStep(table, p.value, done);
        done := [table[p.value].name] + done;
        p := table[p.value].parent;
      }
      assert [] + done == done;
    }

    /** get_instance_name. */
    method GetInstanceName(id: nat, ghost par: Parents) returns (r: Option<string>)
      requires Shaped(table, par) && Rooted(table, roots)
      ensures r.None? <==> forall i :: 0 <= i < |table| ==> table[i].id != id
      ensures CleanNames(table) && DifferentIds(table) ==>
        forall i :: 0 <= i < |table| && table[i].id == id ==> r == Some(Join(Path(table, i), '.'))
    {
      hide Complete, Listed, Path, Join, CleanNames, Below, Under;
      RootsInTable(table, roots);
      for k := 0 to |roots|
        invariant forall j, i: nat :: 0 <= j < k && i in Below(par, roots[j]) && i < |table| ==> table[i].id != id
      {
        var found := FindById(roots[k], id, par);
        if found.Some? {
          var name := DottedName(found.value);
          return Some(name);
        }
      }
      forall i | 0 <= i < |table| ensures table[i].id != id {
        var j := RootAbove(table, par, roots, i);
        InBelow(par, i, roots[j]);
      }
      r := None;
    }

    /** Together: an id leads to a name that leads back to the id. */
    method NameAndBack(id: nat, ghost par: Parents) returns (r: Option<nat>)
      requires Shaped(table, par) && Rooted(table, roots) && CleanNames(table) && DifferentIds(table)
      ensures r == if exists i :: 0 <= i < |table| && table[i].id == id then Some(id) else None
    {
      var name := GetInstanceName(id, par);
      if name.None? {
        return None;
      }
      ghost var i: nat :| i < |table| && table[i].id == id;
      NameAndIdRoundTrip(table, roots, i);
      r := GetInstanceId(name.value);
    }

    /** get_instance_id of a name with at least one token: the instance the path leads to. */
    method GetInstanceId(name: string) returns (r: Option<nat>)
      requires Rooted(table, roots) && forall i :: 0 <= i < |table| ==> Complete(table, i)
      requires TokensOf(name, ".") != []
      ensures r.Some? ==> exists i: nat ::
        i < |table| && Path(table, i) == TokensOf(name, ".") && table[i].id == r.value
      ensures forall i :: 0 <= i < |table| && Path(table, i) == TokensOf(name, ".") ==> r == Some(table[i].id)
    {
      var names := GetTokens(name, ".");
      RootsInTable(table, roots);
      for k := 0 to |roots|
        invariant forall j :: 0 <= j < k ==> table[roots[j]].name != names[0]
      {
        assert roots[k] in roots;
        if names[0] == table[roots[k]].name {
          r := Descend(roots[k], names);
          return;
        }
      }
      forall i | 0 <= i < |table| ensures Path(table, i) != names {
        var j := PathStart(table, roots, i);
      }
      r := None;
    }

    /** Follows the names after the first down from a root. */
    method Descend(root: nat, names: seq<string>) returns (r: Option<nat>)
      requires Rooted(table, roots) && forall i :: 0 <= i < |table| ==> Complete(table, i)
      requires root in roots && names != [] && names[0] == table[root].name
      ensures r.Some? ==> exists i: nat :: i < |table| && Path(table, i) == names && table[i].id == r.value
      ensures forall i :: 0 <= i < |table| && Path(table, i) == names ==> r == Some(table[i].id)
    {
      hide Complete, Listed, Path, Rooted;
      var p: nat := root;
      StartOfPath(table, roots, root);
      assert Path(table, root) == names[..1];
      for k := 1 to |names|
        invariant p < |table| && Path(table, p) == names[..k]
      {
        if names[k] !in table[p].instances {
          forall i | 0 <= i < |table| ensures Path(table, i) != names {
            if Path(table, i) == names {
              var a := PathGoesOn(table, roots, i, k);
              PathIsUnique(table, roots, a, p);
            }
          }
          return None;
        }
        var c := table[p].instances[names[k]];
        assert c in table[p].instances.Values;
        ListedByName(table, p, names[k]);
        PathOfChild(table, p, c);
        assert names[..k + 1] == names[..k] + [names[k]];
        p := c;
      }
      assert names[..|names|] == names;
      forall i | 0 <= i < |table| && Path(table, i) == names ensures i == p {
        PathIsUnique(table, roots, i, p);
      }
      r := Some(table[p].id);
    }
  }

  lemma BelowInside(par: Parents, top: nat)
    ensures forall i :: i in Below(par, top) ==> i < |par|
  {
  }

  lemma NoBreakpoints(es: seq<Entry>)
    ensures es + Breakpoints([]) == es
  {
  }

  lemma OneMore(bps: map<nat, Entry>, from: nat, es: seq<Entry>, e: Entry)
    requires IsNumbered(bps, from, es)
    ensures IsNumbered(bps[from + |es| := e], from, es + [e])
  {
  }

  lemma TopIsBelow(t: Table, par: Parents, top: nat)
    requires Ready(t, par, top)
    ensures top < |t| == |par| && top in Below(par, top) && t[top].bps == map[]
    ensures forall start: nat :: IsNumbered(map[], start, [])
    ensures forall c :: c in t[top].instances.Values ==>
      top < c < |par| && par[c] == Some(top) && Below(par, c) !! {top}
  {
    assert top in Below(par, top);
    forall c | c in t[top].instances.Values
      ensures top < c < |par| && par[c] == Some(top) && Below(par, c) !! {top}
    {
      ReadyChild(t, t, par, top, {}, c);
    }
  }

  lemma OneChanged(t: Table, t': Table, top: nat)
    requires top < |t| == |t'| && t' == t[top := t[top].(bps := t'[top].bps)]
    ensures OnlyBps(t, t', {top})
  {
  }

  lemma Unchanged(t: Table, t': Table, area: set<nat>, done: set<nat>)
    requires OnlyBps(t, t', area) && area !! done && forall i :: i in done ==> i < |t|
    ensures |t'| == |t| && forall i :: i in done ==> t'[i] == t[i]
  {
  }

  lemma ChildrenApart(t: Table, par: Parents, top: nat, c: nat, left: set<nat>)
    requires Ready(t, par, top) && c in t[top].instances.Values && c !in left && left <= t[top].instances.Values
    ensures forall d :: d in left ==> Below(par, d) !! Below(par, c)
  {
    TopIsBelow(t, par, top);
    forall d | d in left ensures Below(par, d) !! Below(par, c) {
      SubtreesApart(par, top, d, c);
    }
  }

  function Root(d: (string, Def)): Instance {
    Instance(d.0, d.1, None, 0, map[], map[])
  }

  ghost function ParentsOf(t: Table): (par: Parents)
    ensures HasParents(t, par)
  {
    seq(|t|, i requires 0 <= i < |t| => t[i].parent)
  }

  /** The first n instances are the roots; those from r on are still bare. */
  ghost predicate Loading(t: Table, r: nat, n: nat) {
    && r <= n <= |t|
    && (forall i :: 0 <= i < |t| && t[i].parent.Some? ==> Listed(t, i))
    && (forall i :: 0 <= i < |t| ==> (t[i].parent.None? <==> i < n))
    && (forall i :: 0 <= i < |t| && (i < r || i >= n) ==> Complete(t, i))
    && forall i :: r <= i < n ==> t[i].instances == map[] && t[i].bps == map[] && DistinctNames(t[i].definition)
  }

  ghost function Loaded(t: Table, r: nat, n: nat): set<nat> {
    Range(0, r) + Range(n, |t|)
  }

  lemma RootsOnly(t: Table, n: nat)
    requires |t| == n && forall i :: 0 <= i < n ==>
      t[i].parent.None? && t[i].instances == map[] && t[i].bps == map[] && DistinctNames(t[i].definition)
    ensures Loading(t, 0, n) && Distinct(t, Loaded(t, 0, n), 0, 0) && Owned(t, Loaded(t, 0, n), 0, 0)
  {
  }

  lemma NextRoot(t: Table, r: nat, n: nat)
    requires Loading(t, r, n) && r < n
    ensures r < |t| && t[r].instances == map[] && DistinctNames(t[r].definition)
  {
  }

  lemma {:induction false} NotBelowBare(t: Table, par: Parents, i: nat, r: nat)
    requires i < |t| <= |par| && r < |t| && i != r && t[r].instances == map[]
    requires forall j :: 0 <= j < |t| ==> par[j] == t[j].parent && (t[j].parent.Some? ==> Listed(t, j))
    ensures !Under(par, i, r)
    decreases i
  {
    if par[i].Some? {
      assert Listed(t, i);
      NotBelowBare(t, par, par[i].value, r);
    }
  }

  lemma {:induction false} NewIsBelow(t: Table, par: Parents, i: nat, r: nat, base: nat)
    requires HasParents(t, par) && Stage(t, r, base, {}) && base <= i < |t|
    ensures Under(par, i, r)
    decreases i
  {
    assert Listed(t, i);
    if t[i].parent.value != r { NewIsBelow(t, par, t[i].parent.value, r, base); }
  }

  lemma RootIsReady(t: Table, t': Table, r: nat, n: nat)
    requires Loading(t, r, n) && r < n && Grown(t, t', r) && Stage(t', r, |t|, {})
    ensures Ready(t', ParentsOf(t'), r) && Below(ParentsOf(t'), r) == Area(t', r, |t|)
  {
    hide Complete, Listed, DistinctNames;
    var par := ParentsOf(t');
    forall i | 0 <= i < |t'| ensures i in Below(par, r) <==> i in Area(t', r, |t|) {
      if i < |t| && i != r { NotBelowBare(t, par, i, r); }
      if i >= |t| { NewIsBelow(t', par, i, r, |t|); }
    }
    forall i | 0 <= i < |t'| && t'[i].parent.Some? ensures Listed(t', i) {
      if i < |t| { GrownKeeps(t, t', r, i); }
    }
  }

  lemma LoadingNext(t: Table, t': Table, t'': Table, r: nat, n: nat)
    requires Loading(t, r, n) && r < n && Grown(t, t', r) && Stage(t', r, |t|, {})
    requires OnlyBps(t', t'', Area(t', r, |t|))
    ensures |t| <= |t'| == |t''| && Loading(t'', r + 1, n)
    ensures Loaded(t'', r + 1, n) == Loaded(t, r, n) + Area(t', r, |t|)
    ensures Loaded(t, r, n) !! Area(t', r, |t|)
    ensures forall i :: i in Loaded(t, r, n) ==> i < |t| && t'[i] == t[i] && t''[i] == t[i]
    ensures forall i :: 0 <= i < |t| ==> t''[i].name == t[i].name && t''[i].definition == t[i].definition
  {
    hide Complete, Listed, DistinctNames;
    forall i | 0 <= i < |t''| ensures t''[i].parent.Some? ==> Listed(t'', i)
      ensures (i < r + 1 || i >= n) ==> Complete(t'', i)
    {
      if i < |t| { GrownKeeps(t, t', r, i); } else { ListedHasParent(t', i); }
      if i == r || i >= |t| { assert i in Area(t', r, |t|); }
      BpsKeepShape(t', t'', Area(t', r, |t|), i);
    }
    forall i | 0 <= i < |t''| ensures t''[i].parent.None? <==> i < n {
      if i >= |t| { ListedHasParent(t', i); }
    }
  }

  lemma DistinctAfter(t: Table, t': Table, area: set<nat>, changed: set<nat>, from: nat, end: nat)
    requires Distinct(t, area, from, end) && OnlyBps(t, t', changed)
    ensures Distinct(t', area, from, end)
  {
  }

  lemma AllLoaded(t: Table, roots: seq<nat>)
    requires Loading(t, |roots|, |roots|) && forall i :: 0 <= i < |roots| ==> roots[i] == i
    requires forall i, j :: 0 <= i < j < |roots| ==> t[i].name != t[j].name
    ensures Loaded(t, |roots|, |roots|) == Range(0, |t|) && Rooted(t, roots)
    ensures forall i :: 0 <= i < |t| ==> Complete(t, i)
  {
    hide Complete, Listed;
    forall i | 0 <= i < |roots| ensures i in roots {
      assert roots[i] == i;
    }
  }

  ghost predicate Shaped(t: Table, par: Parents) {
    && HasParents(t, par)
    && (forall i :: 0 <= i < |t| && t[i].parent.Some? ==> Listed(t, i))
    && forall i :: 0 <= i < |t| ==> Complete(t, i)
  }

  /** What an instance lists under a name has that name. */
  lemma ListedByName(t: Table, p: nat, k: string)
    requires p < |t| && Complete(t, p) && k in t[p].instances
    ensures var c := t[p].instances[k]; p < c < |t| && t[c].parent == Some(p) && t[c].name == k
  {
    var m :| 0 <= m < |t[p].definition.instances| && t[p].definition.instances[m].0 == k;
    assert IsChild(t, p, k, t[p].instances[k], t[p].definition.instances[m].1);
  }

  lemma {:induction false} RootAbove(t: Table, par: Parents, roots: seq<nat>, i: nat) returns (j: nat)
    requires HasParents(t, par) && Rooted(t, roots) && i < |t|
    ensures j < |roots| && Under(par, i, roots[j])
    decreases i
  {
    if t[i].parent.Some? {
      assert Listed(t, i);
      j := RootAbove(t, par, roots, t[i].parent.value);
    } else {
      j :| 0 <= j < |roots| && roots[j] == i;
    }
  }

  lemma {:induction false} PathStart(t: Table, roots: seq<nat>, i: nat) returns (j: nat)
    requires Rooted(t, roots) && i < |t|
    ensures j < |roots| && roots[j] < |t| && Path(t, i) != [] && Path(t, i)[0] == t[roots[j]].name
    decreases i
  {
    if t[i].parent.Some? {
      assert Listed(t, i);
      j := PathStart(t, roots, t[i].parent.value);
    } else {
      j :| 0 <= j < |roots| && roots[j] == i;
    }
  }

  /** get_instance_id undoes get_instance_name: the dotted name of an instance is split into its
      path, and no other instance has that path. */
  lemma NameAndIdRoundTrip(t: Table, roots: seq<nat>, i: nat)
    requires Rooted(t, roots) && CleanNames(t) && i < |t|
    ensures TokensOf(Join(Path(t, i), '.'), ".") == Path(t, i) != []
    ensures forall j :: 0 <= j < |t| && Path(t, j) == TokensOf(Join(Path(t, i), '.'), ".") ==> j == i
  {
    NameSplits(t, i);
    PathLength(t, i);
    forall j | 0 <= j < |t| && Path(t, j) == Path(t, i) ensures j == i {
      PathIsUnique(t, roots, j, i);
    }
  }

  ghost predicate DifferentIds(t: Table) {
    forall i, j :: 0 <= i < j < |t| ==> t[i].id != t[j].id
  }

  lemma RootsInTable(t: Table, roots: seq<nat>)
    requires Rooted(t, roots)
    ensures forall k :: 0 <= k < |roots| ==> roots[k] < |t| && t[roots[k]].parent.None?
  {
    assert forall k :: 0 <= k < |roots| ==> roots[k] in roots;
  }

  lemma StartOfPath(t: Table, roots: seq<nat>, root: nat)
    requires Rooted(t, roots) && root in roots
    ensures root < |t| && Path(t, root) == [t[root].name]
  {
  }

  lemma PathOfChild(t: Table, p: nat, c: nat)
    requires p < c < |t| && t[c].parent == Some(p)
    ensures Path(t, c) == Path(t, p) + [t[c].name]
  {
  }

  lemma InBelow(par: Parents, i: nat, top: nat)
    requires i < |par| && Under(par, i, top)
    ensures i in Below(par, top)
  {
  }

  /** name is the words put together with dots, none of them empty. */
  ghost predicate IsDotted(name: string, words: seq<string>) {
    name == Join(words, '.') && (name == "" <==> words == [])
  }

  lemma NothingDotted()
    ensures IsDotted("", [])
  {
  }

  lemma DottedMore(t: Table, p: nat, name: string, words: seq<string>)
    requires CleanNames(t) && p < |t| && IsDotted(name, words)
    ensures IsDotted(if name == "" then t[p].name else t[p].name + "." + name, [t[p].name] + words)
  {
    if words != [] { JoinCons(t[p].name, words); }
  }

  lemma ListedIsLater(t: Table, i: nat)
    requires i < |t| && Listed(t, i)
    ensures t[i].parent.Some? && t[i].parent.value < i
  {
  }
}
