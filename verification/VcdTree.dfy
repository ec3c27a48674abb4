/** The scopes and variables of a dump as the rewriter keeps them (hgdb-rewrite-vcd.cc): tables of
    objects that refer to each other. Positions in the tables stand for addresses. */
module VcdTree {
  import opened Common
  import opened VcdText
  import opened VcdRoundTrip

  /** A scope; a variable moved away leaves an empty place. */
  datatype Node = Node(
    kind: string, name: string, scopes: seq<nat>, vars: seq<Option<nat>>, parent: Option<nat>)

  datatype Tables = Tables(scopes: seq<Node>, vars: seq<Var>)

  // ---- the tree the tables stand for

  function VarsAt(vs: seq<Var>, refs: seq<Option<nat>>): seq<Var> {
    if refs == [] then []
    else (if refs[0].Some? && refs[0].value < |vs| then [vs[refs[0].value]] else []) + VarsAt(vs, refs[1..])
  }

  function TreeOf(t: Tables, i: nat): Scope
    requires i < |t.scopes|
    decreases |t.scopes| - i, |t.scopes[i].scopes| + 1
  {
    var n := t.scopes[i];
    Scope(n.kind, n.name, VarsAt(t.vars, n.vars), TreesOf(t, i, n.scopes))
  }

  /** The trees of scopes cs inside scope i. */
  function TreesOf(t: Tables, i: nat, cs: seq<nat>): seq<Scope>
    requires i < |t.scopes|
    decreases |t.scopes| - i, |cs|
  {
    if cs == [] then []
    else (if i < cs[0] < |t.scopes| then [TreeOf(t, cs[0])] else []) + TreesOf(t, i, cs[1..])
  }

  /** Scope i and what is behind it refer to nothing outside the tables. */
  ghost predicate Closed(t: Tables, i: nat) {
    forall j :: i <= j < |t.scopes| ==>
      && (forall c :: c in t.scopes[j].scopes ==> j < c < |t.scopes|)
      && forall k :: 0 <= k < |t.scopes[j].vars| && t.scopes[j].vars[k].Some? ==> t.scopes[j].vars[k].value < |t.vars|
  }

  /** u has everything t has from scope i on. */
  ghost predicate Keeps(t: Tables, u: Tables, i: nat) {
    && |t.scopes| <= |u.scopes| && t.vars <= u.vars
    && forall j :: i <= j < |t.scopes| ==> u.scopes[j] == t.scopes[j]
  }

  lemma {:induction false} VarsStay(vs: seq<Var>, ws: seq<Var>, refs: seq<Option<nat>>)
    requires vs <= ws && forall k :: 0 <= k < |refs| && refs[k].Some? ==> refs[k].value < |vs|
    ensures VarsAt(ws, refs) == VarsAt(vs, refs)
  {
    if refs != [] { VarsStay(vs, ws, refs[1..]); }
  }

  lemma {:induction false} TreeStays(t: Tables, u: Tables, i: nat)
    requires i < |t.scopes| && Closed(t, i) && Keeps(t, u, i)
    ensures TreeOf(u, i) == TreeOf(t, i)
    decreases |t.scopes| - i, |t.scopes[i].scopes| + 1
  {
    VarsStay(t.vars, u.vars, t.scopes[i].vars);
    TreesStay(t, u, i, t.scopes[i].scopes);
  }

  lemma {:induction false} TreesStay(t: Tables, u: Tables, i: nat, cs: seq<nat>)
    requires i < |t.scopes| && Closed(t, i) && Keeps(t, u, i)
    requires forall c :: c in cs ==> i < c < |t.scopes|
    ensures TreesOf(u, i, cs) == TreesOf(t, i, cs)
    decreases |t.scopes| - i, |cs|
  {
    if cs != [] {
      assert cs[0] in cs && forall c :: c in cs[1..] ==> c in cs;
      assert Closed(t, cs[0]) && Keeps(t, u, cs[0]);
      TreeStays(t, u, cs[0]);
      TreesStay(t, u, i, cs[1..]);
    }
  }

  lemma {:induction false} TreesCat(t: Tables, i: nat, a: seq<nat>, b: seq<nat>)
    requires i < |t.scopes|
    ensures TreesOf(t, i, a + b) == TreesOf(t, i, a) + TreesOf(t, i, b)
    decreases |a|
  {
    if a == [] {
      assert a + b == b;
    } else {
      hide *;
      assert (a + b)[0] == a[0] && (a + b)[1..] == a[1..] + b;
      FirstTree(t, i, a + b);
      FirstTree(t, i, a);
      TreesCat(t, i, a[1..], b);
    }
  }

  lemma FirstTree(t: Tables, i: nat, a: seq<nat>)
    requires i < |t.scopes| && a != []
    ensures TreesOf(t, i, a) ==
      (if i < a[0] < |t.scopes| then [TreeOf(t, a[0])] else []) + TreesOf(t, i, a[1..])
  {
  }

  lemma VarsFirst(vs: seq<Var>, refs: seq<Option<nat>>)
    requires refs != []
    ensures VarsAt(vs, refs) == VarsAt(vs, [refs[0]]) + VarsAt(vs, refs[1..])
  {
    var one := [refs[0]];
    assert |one[1..]| == 0;
  }

  lemma {:induction false} VarsCat(vs: seq<Var>, a: seq<Option<nat>>, b: seq<Option<nat>>)
    ensures VarsAt(vs, a + b) == VarsAt(vs, a) + VarsAt(vs, b)
    decreases |a|
  {
    if a == [] {
      assert a + b == b;
    } else {
      var first := VarsAt(vs, [a[0]]);
      VarsFirst(vs, a);
      VarsFirst(vs, a + b);
      assert (a + b)[1..] == a[1..] + b;
      hide *;
      VarsCat(vs, a[1..], b);
    }
  }

  // ---- the callbacks while the definitions are read

  /** The tables and the scopes being read, outermost first. */
  datatype Reading = Reading(t: Tables, stack: seq<nat>)

  /** on_scope_def, on_var_def and exit_scope. None: a variable or a second root outside of any
      scope, or an exit too many. */
  function Heard(r: Reading, e: Event): Option<Reading> {
    var t := r.t;
    var n := |t.scopes|;
    match e
    case EnterScope(kind, name) =>
      if n == 0 then
        Some(Reading(Tables([Node(kind, name, [], [], None)], t.vars), r.stack + [0]))
      else if r.stack == [] || r.stack[|r.stack| - 1] >= n then None
      else
        var top := r.stack[|r.stack| - 1];
        var parent := t.scopes[top].(scopes := t.scopes[top].scopes + [n]);
        Some(Reading(
          Tables(t.scopes[top := parent] + [Node(kind, name, [], [], Some(top))], t.vars), r.stack + [n]))
    case VarDef(kind, width, identifier, name, slice) =>
      if r.stack == [] || r.stack[|r.stack| - 1] >= n then None
      else
        var top := r.stack[|r.stack| - 1];
        var owner := t.scopes[top].(vars := t.scopes[top].vars + [Some(|t.vars|)]);
        Some(Reading(
          Tables(t.scopes[top := owner], t.vars + [Var(kind, width, identifier, name, slice)]), r.stack))
    case ExitScope => if r.stack == [] then None else Some(Reading(t, r.stack[..|r.stack| - 1]))
    case _ => Some(r)
  }

  function HeardAll(r: Reading, es: seq<Event>): Option<Reading>
    decreases |es|
  {
    if es == [] then Some(r)
    else match Heard(r, es[0])
      case None => None
      case Some(next) => HeardAll(next, es[1..])
  }

  lemma {:induction false} HeardCat(r: Reading, a: seq<Event>, b: seq<Event>)
    ensures HeardAll(r, a + b) ==
      match HeardAll(r, a) { case None => None case Some(next) => HeardAll(next, b) }
    decreases |a|
  {
    if a == [] {
      assert a + b == b;
    } else {
      assert (a + b)[1..] == a[1..] + b;
      match Heard(r, a[0]) {
        case None =>
        case Some(next) => HeardCat(next, a[1..], b);
      }
    }
  }

  /** Scope top, on the stack, got new children cs and nothing else before base changed. */
  ghost predicate Extended(r: Reading, q: Reading, top: nat, cs: seq<nat>) {
    && q.stack == r.stack && top < |r.t.scopes| <= |q.t.scopes| && r.t.vars <= q.t.vars
    && (forall j :: 0 <= j < |r.t.scopes| && j != top ==> q.t.scopes[j] == r.t.scopes[j])
    && q.t.scopes[top] == r.t.scopes[top].(scopes := r.t.scopes[top].scopes + cs)
    && (forall c :: c in cs ==> |r.t.scopes| <= c < |q.t.scopes|)
    && Closed(q.t, |r.t.scopes|)
  }

  lemma {:induction false} VarsHeard(r: Reading, vars: seq<Var>, top: nat)
    requires r.stack != [] && r.stack[|r.stack| - 1] == top < |r.t.scopes|
    ensures var q := HeardAll(r, VarEvents(vars));
      && q.Some? && q.value.stack == r.stack && |q.value.t.scopes| == |r.t.scopes|
      && q.value.t.vars == r.t.vars + vars
      && (forall j :: 0 <= j < |r.t.scopes| && j != top ==> q.value.t.scopes[j] == r.t.scopes[j])
      && q.value.t.scopes[top] == r.t.scopes[top].(vars := r.t.scopes[top].vars + NewRefs(|r.t.vars|, |vars|))
    decreases |vars|
  {
    if vars == [] {
      assert r.t.vars + vars == r.t.vars;
      assert r.t.scopes[top].vars + [] == r.t.scopes[top].vars;
    } else {
      var next := Heard(r, VarEvent(vars[0])).value;
      VarsHeard(next, vars[1..], top);
      assert r.t.vars + [vars[0]] + vars[1..] == r.t.vars + vars;
      var refs := r.t.scopes[top].vars;
      assert refs + [Some(|r.t.vars|)] + NewRefs(|r.t.vars| + 1, |vars| - 1) == refs + NewRefs(|r.t.vars|, |vars|);
    }
  }

  function NewRefs(from: nat, count: nat): seq<Option<nat>>
    decreases count
  {
    if count == 0 then [] else [Some(from)] + NewRefs(from + 1, count - 1)
  }

  lemma {:induction false} NewRefsAre(from: nat, count: nat)
    ensures |NewRefs(from, count)| == count
    ensures forall k :: 0 <= k < count ==> NewRefs(from, count)[k] == Some(from + k)
    decreases count
  {
    if count > 0 { NewRefsAre(from + 1, count - 1); }
  }

  lemma {:induction false} NewRefsRead(vs: seq<Var>, from: nat, vars: seq<Var>)
    requires from + |vars| <= |vs| && vs[from..from + |vars|] == vars
    ensures VarsAt(vs, NewRefs(from, |vars|)) == vars
    decreases |vars|
  {
    if vars != [] {
      assert vs[from] == vs[from..from + |vars|][0] == vars[0];
      assert vs[from + 1..from + |vars|] == vs[from..from + |vars|][1..];
      NewRefsRead(vs, from + 1, vars[1..]);
      assert NewRefs(from, |vars|)[1..] == NewRefs(from + 1, |vars| - 1);
    }
  }

  lemma ExtendedTwice(r: Reading, q: Reading, p: Reading, top: nat, a: seq<nat>, b: seq<nat>)
    requires Extended(r, q, top, a) && Extended(q, p, top, b)
    ensures Extended(r, p, top, a + b) && Keeps(q.t, p.t, |r.t.scopes|)
  {
    assert r.t.scopes[top].scopes + a + b == r.t.scopes[top].scopes + (a + b);
    forall j | |r.t.scopes| <= j < |p.t.scopes|
      ensures forall c :: c in p.t.scopes[j].scopes ==> j < c < |p.t.scopes|
      ensures forall k :: 0 <= k < |p.t.scopes[j].vars| && p.t.scopes[j].vars[k].Some? ==>
        p.t.scopes[j].vars[k].value < |p.t.vars|
    {
      if j < |q.t.scopes| { assert p.t.scopes[j] == q.t.scopes[j]; }
    }
  }

  /** Inside the new scope n: its variables, its child scopes, and out again. */
  lemma {:induction false} InsideHeard(r: Reading, s: Scope, n: nat)
    requires r.stack != [] && r.stack[|r.stack| - 1] == n && |r.t.scopes| == n + 1
    requires r.t.scopes[n] == Node(s.kind, s.name, [], [], r.t.scopes[n].parent)
    ensures var q := HeardAll(r, VarEvents(s.vars) + ScopesEvents(s.scopes) + [ExitScope]);
      && q.Some? && q.value.stack == r.stack[..|r.stack| - 1]
      && n < |q.value.t.scopes| && r.t.vars <= q.value.t.vars
      && (forall j :: 0 <= j < n ==> q.value.t.scopes[j] == r.t.scopes[j])
      && q.value.t.scopes[n].parent == r.t.scopes[n].parent
      && Closed(q.value.t, n) && TreeOf(q.value.t, n) == s
    decreases s, 0
  {
    hide VarEvents, ScopesEvents, TreesOf, VarsAt;
    VarsHeard(r, s.vars, n);
    var v := HeardAll(r, VarEvents(s.vars)).value;
    var cs := ScopesHeard(v, s.scopes, n);
    var c := HeardAll(v, ScopesEvents(s.scopes)).value;
    HeardCat(r, VarEvents(s.vars), ScopesEvents(s.scopes));
    HeardCat(r, VarEvents(s.vars) + ScopesEvents(s.scopes), [ExitScope]);
    var q := Reading(c.t, c.stack[..|c.stack| - 1]);
    assert HeardAll(c, [ExitScope]) == Some(q) by { OneHeard(c, ExitScope); }
    assert [] + NewRefs(|r.t.vars|, |s.vars|) == NewRefs(|r.t.vars|, |s.vars|) && [] + cs == cs;
    assert v.t.vars[|r.t.vars|..|r.t.vars| + |s.vars|] == s.vars;
    NewRefsRead(v.t.vars, |r.t.vars|, s.vars);
    NewRefsAre(|r.t.vars|, |s.vars|);
    VarsStay(v.t.vars, c.t.vars, NewRefs(|r.t.vars|, |s.vars|));
    assert c.t.scopes[n] == Node(s.kind, s.name, cs, NewRefs(|r.t.vars|, |s.vars|), r.t.scopes[n].parent);
  }

  lemma OneHeard(r: Reading, e: Event)
    ensures HeardAll(r, [e]) == Heard(r, e)
  {
    assert [e][1..] == [];
  }

  lemma {:induction false} ScopeHeard(r: Reading, s: Scope, top: nat)
    requires r.stack != [] && r.stack[|r.stack| - 1] == top < |r.t.scopes|
    ensures var q := HeardAll(r, ScopeEvents(s));
      && q.Some? && Extended(r, q.value, top, [|r.t.scopes|]) && |r.t.scopes| < |q.value.t.scopes|
      && TreeOf(q.value.t, |r.t.scopes|) == s
    decreases s, 1
  {
    hide VarEvents, ScopesEvents, TreeOf;
    var n := |r.t.scopes|;
    var enter := EnterScope(s.kind, s.name);
    var next := Heard(r, enter).value;
    InsideHeard(next, s, n);
    var es := VarEvents(s.vars) + ScopesEvents(s.scopes) + [ExitScope];
    HeardCat(r, [enter], es);
    OneHeard(r, enter);
    assert ScopeEvents(s) == [enter] + es;
    assert next.stack[..|next.stack| - 1] == r.stack;
  }

  lemma {:induction false} ScopesHeard(r: Reading, scopes: seq<Scope>, top: nat) returns (cs: seq<nat>)
    requires r.stack != [] && r.stack[|r.stack| - 1] == top < |r.t.scopes|
    ensures var q := HeardAll(r, ScopesEvents(scopes));
      && q.Some? && Extended(r, q.value, top, cs) && TreesOf(q.value.t, top, cs) == scopes
    decreases scopes
  {
    hide ScopeEvents, TreeOf, Heard;
    if scopes == [] {
      cs := [];
      assert r.t.scopes[top].scopes + [] == r.t.scopes[top].scopes;
    } else {
      var n := |r.t.scopes|;
      ScopeHeard(r, scopes[0], top);
      var q := HeardAll(r, ScopeEvents(scopes[0])).value;
      var more := ScopesHeard(q, scopes[1..], top);
      HeardCat(r, ScopeEvents(scopes[0]), ScopesEvents(scopes[1..]));
      var p := HeardAll(q, ScopesEvents(scopes[1..])).value;
      cs := [n] + more;
      ExtendedTwice(r, q, p, top, [n], more);
      TreeStays(q.t, p.t, n);
      assert cs[1..] == more;
    }
  }

  const NOTHING: Reading := Reading(Tables([], []), [])

  /** The callbacks put the tree together again: the first scope is its root, and all scopes are
      closed in the end. */
  lemma RootHeard(s: Scope)
    ensures var q := HeardAll(NOTHING, ScopeEvents(s) + [DefinitionsEnd]);
      q.Some? && q.value.stack == [] && q.value.t.scopes != [] && TreeOf(q.value.t, 0) == s
  {
    hide VarEvents, ScopesEvents, TreeOf;
    var enter := EnterScope(s.kind, s.name);
    var next := Reading(Tables([Node(s.kind, s.name, [], [], None)], []), [0]);
    assert NOTHING.stack + [0] == [0];
    assert Heard(NOTHING, enter) == Some(next);
    InsideHeard(next, s, 0);
    var es := VarEvents(s.vars) + ScopesEvents(s.scopes) + [ExitScope];
    HeardCat(NOTHING, [enter], es);
    OneHeard(NOTHING, enter);
    assert ScopeEvents(s) == [enter] + es;
    HeardCat(NOTHING, ScopeEvents(s), [DefinitionsEnd]);
    OneHeard(HeardAll(NOTHING, ScopeEvents(s)).value, DefinitionsEnd);
  }

  /** A written definition section, parsed and handed to the callbacks, gives the same tree. */
  lemma TreeRoundTrip(root: Scope, changes: seq<Event>)
    requires WritableScope(root) && AreChanges(changes, 0) && forall e :: e in changes ==> Fits(e)
    ensures var r := ParseDefs(Reads(FileText(root, changes), 0));
      && r.outcome == Done && r.events == ScopeEvents(root) + [DefinitionsEnd] + changes
      && var q := HeardAll(NOTHING, ScopeEvents(root) + [DefinitionsEnd]);
         q.Some? && q.value.t.scopes != [] && TreeOf(q.value.t, 0) == root
  {
    WrittenFileReadsBack(root, changes);
    RootHeard(root);
  }
}
