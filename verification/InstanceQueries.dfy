/** What breakpoint ids and instance names mean over a table of instances. */
module InstanceQueries {
  import opened Common
  import opened ScopeReorder
  import opened Tokens
  import opened Ancestors
  import opened InstanceTable

  // ---- ancestors

  ghost predicate HasParents(t: Table, par: Parents) {
    |t| == |par| && forall i :: 0 <= i < |t| ==> t[i].parent == par[i]
  }

  ghost function Below(par: Parents, top: nat): set<nat> {
    set i | i in Range(0, |par|) && Under(par, i, top)
  }

  /** Everything below top, other than top, is below one of the instances top lists. */
  lemma {:induction false} UnderSomeChild(t: Table, par: Parents, i: nat, top: nat) returns (k: string)
    requires HasParents(t, par) && i < |t| && top < |t| && i != top && Under(par, i, top)
    requires forall j :: 0 <= j < |t| && t[j].parent.Some? ==> Listed(t, j)
    ensures k in t[top].instances && Under(par, i, t[top].instances[k])
    decreases i
  {
    if par[i] == Some(top) {
      k := t[i].name;
    } else {
      k := UnderSomeChild(t, par, par[i].value, top);
    }
  }

  // ---- breakpoint ids

  /** The entries that get a breakpoint, in the order of the scope: statements that have a line. */
  function Breakpoints(s: seq<Entry>): seq<Entry> {
    if s == [] then [] else Breakpoints(s[..|s| - 1]) + BreakpointsOf(s[|s| - 1])
  }

  function BreakpointsOf(e: Entry): seq<Entry> {
    match e.kind
    case Block => Breakpoints(e.scope)
    case ModuleDef => Breakpoints(e.scope)
    case _ => if e.line > 0 then [e] else []
  }

  lemma BreakpointsGrow(s: seq<Entry>, n: nat)
    requires n < |s|
    ensures Breakpoints(s[..n + 1]) == Breakpoints(s[..n]) + BreakpointsOf(s[n])
  {
    assert s[..n + 1][..n] == s[..n];
  }

  /** x is a statement of the scope, in whatever blocks and modules inside. */
  ghost predicate IsStatement(x: Entry, s: seq<Entry>)
    decreases s
  {
    exists k :: 0 <= k < |s| &&
      if s[k].kind == Block || s[k].kind == ModuleDef then IsStatement(x, s[k].scope) else x == s[k]
  }

  /** The statements that get a breakpoint are those with a line, in the order of the scope. */
  lemma {:induction false} BreakpointsAre(s: seq<Entry>, x: Entry)
    ensures x in Breakpoints(s) <==> IsStatement(x, s) && x.line > 0
    decreases s
  {
    if s != [] {
      var front, e := s[..|s| - 1], s[|s| - 1];
      BreakpointsAre(front, x);
      if e.kind == Block || e.kind == ModuleDef { BreakpointsAre(e.scope, x); }
      LastStatement(x, s);
    }
  }

  lemma LastStatement(x: Entry, s: seq<Entry>)
    requires s != []
    ensures var e := s[|s| - 1];
      IsStatement(x, s) <==>
        || IsStatement(x, s[..|s| - 1])
        || if e.kind == Block || e.kind == ModuleDef then IsStatement(x, e.scope) else x == e
  {
    var front := s[..|s| - 1];
    assert forall k :: 0 <= k < |front| ==> front[k] == s[k];
  }

  lemma {:induction false} BreakpointsSplit(a: seq<Entry>, b: seq<Entry>)
    ensures Breakpoints(a + b) == Breakpoints(a) + Breakpoints(b)
    decreases b
  {
    if b == [] {
      assert a + b == a;
    } else {
      var front := b[..|b| - 1];
      assert (a + b)[..|a + b| - 1] == a + front;
      BreakpointsSplit(a, front);
      assert Breakpoints(a) + Breakpoints(front) + BreakpointsOf(b[|b| - 1])
          == Breakpoints(a) + (Breakpoints(front) + BreakpointsOf(b[|b| - 1]));
    }
  }

  /** The ids from start on stand for the entries, in order and without a gap. */
  ghost predicate IsNumbered(bps: map<nat, Entry>, start: nat, es: seq<Entry>) {
    bps.Keys == Range(start, start + |es|) && forall id :: id in bps ==> bps[id] == es[id - start]
  }

  /** The ids of one instance follow the order of its scope. */
  ghost predicate InOrder(i: Instance) {
    exists start: nat :: IsNumbered(i.bps, start, Breakpoints(i.definition.scope))
  }

  /** The ids in [from, end) belong to the instances of an area, each to exactly one. */
  ghost predicate Owned(t: Table, area: set<nat>, from: nat, end: nat) {
    && (forall i :: i in area ==> i < |t| && InOrder(t[i]) && t[i].bps.Keys <= Range(from, end))
    && (forall i, j :: i in area && j in area && i != j ==> t[i].bps.Keys !! t[j].bps.Keys)
    && forall id :: id in Range(from, end) ==> exists i :: i in area && id in t[i].bps
  }

  lemma OwnedJoin(t: Table, t': Table, a: set<nat>, b: set<nat>, from: nat, mid: nat, end: nat)
    requires Owned(t, a, from, mid) && Owned(t', b, mid, end) && from <= mid <= end
    requires forall i :: i in a ==> i < |t'| && t'[i] == t[i]
    ensures Owned(t', a + b, from, end)
  {
    hide InOrder;
    forall id | id in Range(from, end) ensures exists i :: i in a + b && id in t'[i].bps {
      if id < mid {
        assert id in Range(from, mid);
        var i :| i in a && id in t[i].bps;
        assert id in t'[i].bps;
      } else {
        assert id in Range(mid, end);
        var i :| i in b && id in t'[i].bps;
        assert i in a + b;
      }
    }
  }

  lemma OwnedByOne(t: Table, top: nat, start: nat)
    requires top < |t| && IsNumbered(t[top].bps, start, Breakpoints(t[top].definition.scope))
    ensures Owned(t, {top}, start, start + |Breakpoints(t[top].definition.scope)|)
  {
  }

  /** Only breakpoints changed, and only in an area. */
  ghost predicate OnlyBps(t: Table, t': Table, area: set<nat>) {
    |t'| == |t| && forall i :: 0 <= i < |t| ==>
      t'[i] == t[i].(bps := t'[i].bps) && (i !in area ==> t'[i] == t[i])
  }

  /** The tree below top is complete and has no breakpoints yet. */
  ghost predicate Ready(t: Table, par: Parents, top: nat) {
    && HasParents(t, par) && top < |t|
    && (forall i :: 0 <= i < |t| && t[i].parent.Some? ==> Listed(t, i))
    && forall i :: i in Below(par, top) ==> Complete(t, i) && t[i].bps == map[]
  }

  lemma BpsKeepShape(t: Table, t': Table, area: set<nat>, i: nat)
    requires OnlyBps(t, t', area) && i < |t|
    ensures Complete(t, i) ==> Complete(t', i)
    ensures Listed(t, i) ==> Listed(t', i)
  {
    if Complete(t, i) {
      forall m | 0 <= m < |t[i].definition.instances|
        ensures var (k, d) := t[i].definition.instances[m];
          k in t'[i].instances && IsChild(t', i, k, t'[i].instances[k], d)
      {
        var (k, d) := t[i].definition.instances[m];
        assert IsChild(t, i, k, t[i].instances[k], d);
      }
    }
  }

  /** What top lists are its children. */
  lemma ListedAreChildren(t: Table, top: nat, c: nat)
    requires top < |t| && Complete(t, top) && c in t[top].instances.Values
    ensures top < c < |t| && t[c].parent == Some(top)
  {
    var k :| k in t[top].instances && t[top].instances[k] == c;
    var m :| 0 <= m < |t[top].definition.instances| && t[top].definition.instances[m].0 == k;
    assert IsChild(t, top, k, c, t[top].definition.instances[m].1);
  }

  lemma ReadyChild(t: Table, t': Table, par: Parents, top: nat, area: set<nat>, c: nat)
    requires Ready(t, par, top) && OnlyBps(t, t', area) && Below(par, c) !! area
    requires c in t[top].instances.Values && top in Below(par, top)
    ensures Ready(t', par, c) && top < c < |par| && par[c] == Some(top) && Below(par, c) <= Below(par, top) - {top}
  {
    hide Complete, Listed;
    ListedAreChildren(t, top, c);
    forall i | i in Below(par, c) ensures i in Below(par, top) && i != top {
      UnderParent(par, i, c);
    }
    forall i | 0 <= i < |t| ensures Complete(t, i) ==> Complete(t', i)
      ensures Listed(t, i) ==> Listed(t', i)
    {
      BpsKeepShape(t, t', area, i);
    }
  }

  lemma SubtreesApart(par: Parents, top: nat, c: nat, d: nat)
    requires top < c < |par| && top < d < |par| && par[c] == Some(top) && par[d] == Some(top) && c != d
    ensures Below(par, c) !! Below(par, d)
  {
    forall i | i in Below(par, c) ensures i !in Below(par, d) {
      SiblingsApart(par, i, c, d);
    }
  }

  /** All that is below top is top and what is below the instances it lists. */
  lemma AllBelow(t: Table, par: Parents, top: nat, done: set<nat>)
    requires Ready(t, par, top) && top in done && done <= Below(par, top)
    requires forall c :: c in t[top].instances.Values ==> Below(par, c) <= done
    ensures done == Below(par, top)
  {
    hide Complete, Listed;
    forall i | i in Below(par, top) ensures i in done {
      if i != top {
        var k := UnderSomeChild(t, par, i, top);
        assert i in Below(par, t[top].instances[k]);
      }
    }
  }

  lemma OnlyBpsTwice(t: Table, t': Table, t'': Table, a: set<nat>, b: set<nat>)
    requires OnlyBps(t, t', a) && OnlyBps(t', t'', b)
    ensures OnlyBps(t, t'', a + b)
  {
  }

  // ---- names

  /** Names from the root down to i. */
  ghost function Path(t: Table, i: nat): seq<string>
    requires i < |t|
    decreases i
  {
    if t[i].parent.Some? && t[i].parent.value < i then Path(t, t[i].parent.value) + [t[i].name]
    else [t[i].name]
  }

  /** The path of the instance above, if there is one. */
  ghost function PathUp(t: Table, p: Option<nat>): seq<string>
    requires p.Some? ==> p.value < |t|
  {
    if p.Some? then Path(t, p.value) else []
  }

  lemma PathStep(t: Table, i: nat, done: seq<string>)
    requires i < |t| && (t[i].parent.Some? ==> t[i].parent.value < i)
    ensures Path(t, i) + done == PathUp(t, t[i].parent) + ([t[i].name] + done)
  {
    var up := PathUp(t, t[i].parent);
    assert Path(t, i) == up + [t[i].name];
    hide *;
    Regrouped(up, t[i].name, done);
  }

  lemma Regrouped(up: seq<string>, name: string, done: seq<string>)
    ensures up + [name] + done == up + ([name] + done)
  {
  }

  /** Parents stand before and list their children; roots are known by name. */
  ghost predicate Rooted(t: Table, roots: seq<nat>) {
    && (forall i :: 0 <= i < |t| && t[i].parent.Some? ==> Listed(t, i))
    && (forall i :: 0 <= i < |t| && t[i].parent.None? ==> i in roots)
    && (forall r :: r in roots ==> r < |t| && t[r].parent.None?)
    && forall r, q :: r in roots && q in roots && t[r].name == t[q].name ==> r == q
  }

  /** A path leads to one instance. */
  lemma {:induction false} PathIsUnique(t: Table, roots: seq<nat>, i: nat, j: nat)
    requires Rooted(t, roots) && i < |t| && j < |t| && Path(t, i) == Path(t, j)
    ensures i == j
    decreases i
  {
    hide Path;
    PathEnds(t, i);
    PathEnds(t, j);
    if t[i].parent.Some? && t[j].parent.Some? {
      assert Listed(t, i) && Listed(t, j);
      PathIsUnique(t, roots, t[i].parent.value, t[j].parent.value);
    } else if t[i].parent.Some? {
      assert Listed(t, i);
      PathLength(t, t[i].parent.value);
    } else if t[j].parent.Some? {
      assert Listed(t, j);
      PathLength(t, t[j].parent.value);
    }
  }

  /** A path is that of the parent, and the name. */
  lemma PathEnds(t: Table, i: nat)
    requires i < |t|
    ensures var p := Path(t, i);
      && p != [] && p[|p| - 1] == t[i].name
      && p[..|p| - 1] == (if t[i].parent.Some? && t[i].parent.value < i then Path(t, t[i].parent.value) else [])
  {
  }

  lemma PathLength(t: Table, i: nat)
    requires i < |t|
    ensures |Path(t, i)| >= 1
  {
  }

  /** On the way to i, the instance reached after n names lists the next one. */
  lemma {:induction false} PathGoesOn(t: Table, roots: seq<nat>, i: nat, n: nat) returns (a: nat)
    requires Rooted(t, roots) && i < |t| && 1 <= n < |Path(t, i)|
    ensures a < |t| && Path(t, a) == Path(t, i)[..n]
    ensures Path(t, i)[n] in t[a].instances
    decreases i
  {
    var p := t[i].parent.value;
    assert Listed(t, i) && Path(t, i) == Path(t, p) + [t[i].name];
    if n == |Path(t, i)| - 1 {
      a := p;
      assert Path(t, i)[..n] == Path(t, p);
    } else {
      a := PathGoesOn(t, roots, p, n);
      assert Path(t, i)[..n] == Path(t, p)[..n];
    }
  }

  ghost predicate CleanNames(t: Table) {
    forall i :: 0 <= i < |t| ==> IsToken(t[i].name, ".")
  }

  lemma {:induction false} PathIsClean(t: Table, i: nat)
    requires CleanNames(t) && i < |t|
    ensures forall w :: w in Path(t, i) ==> IsToken(w, ".")
    decreases i
  {
    if t[i].parent.Some? && t[i].parent.value < i { PathIsClean(t, t[i].parent.value); }
  }

  /** The dotted name of an instance splits into its path. */
  lemma NameSplits(t: Table, i: nat)
    requires CleanNames(t) && i < |t|
    ensures TokensOf(Join(Path(t, i), '.'), ".") == Path(t, i)
  {
    PathIsClean(t, i);
    SplitOfJoin(Path(t, i), '.');
    assert ['.'] == ".";
  }

  lemma JoinCons(w: string, words: seq<string>)
    requires words != []
    ensures Join([w] + words, '.') == w + "." + Join(words, '.')
  {
    assert ([w] + words)[1..] == words;
  }
}
