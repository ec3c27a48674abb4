/** What moving variables between scopes keeps: the signals under the root of the scope tables. */
module VcdSignals {
  import opened Common
  import opened VcdRoundTrip
  import opened VcdTree
  import opened Ancestors

  /** A variable but for its name. */
  datatype Signal = Signal(identifier: string, kind: string, width: nat, slice: string)

  function SignalOf(v: Var): Signal { Signal(v.identifier, v.kind, v.width, v.slice) }

  function VarSignals(vars: seq<Var>): multiset<Signal> {
    if vars == [] then multiset{} else multiset{SignalOf(vars[0])} + VarSignals(vars[1..])
  }

  /** Every signal of a scope tree, as often as it is written out. */
  function SignalsOf(s: Scope): multiset<Signal>
    decreases s, 0
  {
    VarSignals(s.vars) + SignalsIn(s.scopes)
  }

  function SignalsIn(scopes: seq<Scope>): multiset<Signal>
    decreases scopes
  {
    if scopes == [] then multiset{} else SignalsOf(scopes[0]) + SignalsIn(scopes[1..])
  }

  /** Scope i is listed by its parent, which was there before it. */
  ghost predicate InPlace(t: Tables, i: nat)
    requires i < |t.scopes|
  {
    t.scopes[i].parent.Some? && t.scopes[i].parent.value < i && i in t.scopes[t.scopes[i].parent.value].scopes
  }

  /** What scope i lists are its children, each once, and variables that exist. */
  ghost predicate Lists(t: Tables, i: nat)
    requires i < |t.scopes|
  {
    && (forall c :: c in t.scopes[i].scopes ==> i < c < |t.scopes| && t.scopes[c].parent == Some(i))
    && (forall j, k :: 0 <= j < k < |t.scopes[i].scopes| ==> t.scopes[i].scopes[j] != t.scopes[i].scopes[k])
    && forall k :: 0 <= k < |t.scopes[i].vars| && t.scopes[i].vars[k].Some? ==> t.scopes[i].vars[k].value < |t.vars|
  }

  /** The scopes form a tree with root 0. */
  ghost predicate Shape(t: Tables) {
    && t.scopes != [] && t.scopes[0].parent.None?
    && (forall i :: 0 < i < |t.scopes| ==> InPlace(t, i))
    && forall i :: 0 <= i < |t.scopes| ==> Lists(t, i)
  }

  ghost function ParentsIn(t: Tables): (par: Parents)
    ensures |par| == |t.scopes| && forall i :: 0 <= i < |par| ==> par[i] == t.scopes[i].parent
  {
    seq(|t.scopes|, i requires 0 <= i < |t.scopes| => t.scopes[i].parent)
  }

  lemma {:induction false} AllUnderRoot(t: Tables, i: nat)
    requires Shape(t) && i < |t.scopes|
    ensures Under(ParentsIn(t), i, 0)
    decreases i
  {
    if i > 0 {
      assert InPlace(t, i);
      AllUnderRoot(t, t.scopes[i].parent.value);
    }
  }

  /** s below i, other than i, is below one of the scopes i lists. */
  lemma {:induction false} UnderListed(t: Tables, s: nat, i: nat)
    requires Shape(t) && s < |t.scopes| && i < |t.scopes| && s != i && Under(ParentsIn(t), s, i)
    ensures exists c :: c in t.scopes[i].scopes && Under(ParentsIn(t), s, c)
    decreases s
  {
    assert InPlace(t, s);
    var p := t.scopes[s].parent.value;
    if p == i {
      assert s in t.scopes[i].scopes && Under(ParentsIn(t), s, s);
    } else {
      UnderListed(t, p, i);
      var c :| c in t.scopes[i].scopes && Under(ParentsIn(t), p, c);
      assert Under(ParentsIn(t), s, c);
    }
  }

  function Own(t: Tables, i: nat): multiset<Signal>
    requires i < |t.scopes|
  {
    VarSignals(VarsAt(t.vars, t.scopes[i].vars))
  }

  function Total(t: Tables, i: nat): multiset<Signal>
    requires i < |t.scopes|
  {
    SignalsOf(TreeOf(t, i))
  }

  function Below(t: Tables, i: nat, cs: seq<nat>): multiset<Signal>
    requires i < |t.scopes|
  {
    SignalsIn(TreesOf(t, i, cs))
  }

  lemma TotalParts(t: Tables, i: nat)
    requires i < |t.scopes|
    ensures Total(t, i) == Own(t, i) + Below(t, i, t.scopes[i].scopes)
  {
  }

  lemma BelowParts(t: Tables, i: nat, cs: seq<nat>)
    requires i < |t.scopes| && cs != [] && i < cs[0] < |t.scopes|
    ensures Below(t, i, cs) == Total(t, cs[0]) + Below(t, i, cs[1..])
  {
    var ts := TreesOf(t, i, cs);
    assert ts[0] == TreeOf(t, cs[0]) && ts[1..] == TreesOf(t, i, cs[1..]);
  }

  function When(b: bool, m: multiset<Signal>): multiset<Signal> {
    if b then m else multiset{}
  }

  /** Only scope s has other signals of its own: y instead of x. */
  ghost predicate Changed(t: Tables, u: Tables, s: nat, x: multiset<Signal>, y: multiset<Signal>) {
    && |u.scopes| == |t.scopes| && s < |t.scopes|
    && (forall i :: 0 <= i < |t.scopes| ==>
          u.scopes[i].scopes == t.scopes[i].scopes && (i != s ==> Own(u, i) == Own(t, i)))
    && Own(u, s) + x == Own(t, s) + y
  }

  /** Then the totals of s and its ancestors change by as much, and no others. */
  lemma {:induction false} TotalChanges(
      t: Tables, u: Tables, s: nat, x: multiset<Signal>, y: multiset<Signal>, i: nat)
    requires Shape(t) && Changed(t, u, s, x, y) && i < |t.scopes|
    ensures var b := Under(ParentsIn(t), s, i); Total(u, i) + When(b, x) == Total(t, i) + When(b, y)
    decreases |t.scopes| - i, |t.scopes[i].scopes| + 1
  {
    hide Own, Total, Below;
    assert Lists(t, i);
    var cs := t.scopes[i].scopes;
    TotalParts(t, i);
    TotalParts(u, i);
    BelowChanges(t, u, s, x, y, i, cs);
    ListedUnder(t, s, i);
    Shift(Own(t, i), Own(u, i), Below(t, i, cs), Below(u, i, cs), x, y);
  }

  /** The scopes that i lists have s below them exactly when i does and is not s itself. */
  lemma ListedUnder(t: Tables, s: nat, i: nat)
    requires Shape(t) && s < |t.scopes| && i < |t.scopes|
    ensures (exists c :: c in t.scopes[i].scopes && Under(ParentsIn(t), s, c)) <==>
      s != i && Under(ParentsIn(t), s, i)
  {
    var par := ParentsIn(t);
    assert Lists(t, i);
    forall c | c in t.scopes[i].scopes && Under(par, s, c) ensures s != i && Under(par, s, i) {
      UnderParent(par, s, c);
    }
    if s != i && Under(par, s, i) { UnderListed(t, s, i); }
  }

  lemma Shift(
      a: multiset<Signal>, a': multiset<Signal>, b: multiset<Signal>, b': multiset<Signal>,
      x: multiset<Signal>, y: multiset<Signal>)
    ensures a' + x == a + y && b' == b ==> (a' + b') + x == (a + b) + y
    ensures a' == a && b' + x == b + y ==> (a' + b') + x == (a + b) + y
    ensures a + multiset{} == a && a' + multiset{} == a' && b + multiset{} == b && b' + multiset{} == b'
  {
    assert (a' + b') + x == (a' + x) + b' == a' + (b' + x);
    assert (a + b) + y == (a + y) + b == a + (b + y);
  }

  lemma {:induction false} BelowChanges(
      t: Tables, u: Tables, s: nat, x: multiset<Signal>, y: multiset<Signal>, i: nat, cs: seq<nat>)
    requires Shape(t) && Changed(t, u, s, x, y) && i < |t.scopes|
    requires forall c :: c in cs ==> c in t.scopes[i].scopes
    requires forall j, k :: 0 <= j < k < |cs| ==> cs[j] != cs[k]
    ensures var b := exists c :: c in cs && Under(ParentsIn(t), s, c);
      Below(u, i, cs) + When(b, x) == Below(t, i, cs) + When(b, y)
    decreases |t.scopes| - i, |cs|
  {
    hide Own, Total, Below, Changed, Under, Shape;
    ListsChildren(t, i);
    SameLists(t, u, s, x, y);
    if cs == [] {
      NothingBelow(t, i);
      NothingBelow(u, i);
    } else {
      var first, more := cs[0], cs[1..];
      assert first in cs && forall c :: c in more ==> c in cs;
      TotalChanges(t, u, s, x, y, first);
      BelowChanges(t, u, s, x, y, i, more);
      BelowParts(t, i, cs);
      BelowParts(u, i, cs);
      if Under(ParentsIn(t), s, first) {
        forall c | c in more ensures !Under(ParentsIn(t), s, c) {
          SiblingsApart(ParentsIn(t), s, first, c);
        }
      } else {
        forall c | c in cs && Under(ParentsIn(t), s, c) ensures c in more {
        }
      }
      Shift(Total(t, first), Total(u, first), Below(t, i, more), Below(u, i, more), x, y);
    }
  }

  lemma ListsChildren(t: Tables, i: nat)
    requires Shape(t) && i < |t.scopes|
    ensures forall c :: c in t.scopes[i].scopes ==> i < c < |t.scopes| && t.scopes[c].parent == Some(i)
  {
    assert Lists(t, i);
  }

  lemma SameLists(t: Tables, u: Tables, s: nat, x: multiset<Signal>, y: multiset<Signal>)
    requires Changed(t, u, s, x, y)
    ensures |u.scopes| == |t.scopes|
  {
  }

  lemma NothingBelow(t: Tables, i: nat)
    requires i < |t.scopes|
    ensures Below(t, i, []) == multiset{}
  {
  }

  // ---- a new empty scope

  function WithScope(t: Tables, p: nat, kind: string, name: string): Tables
    requires p < |t.scopes|
  {
    var n := |t.scopes|;
    t.(scopes := t.scopes[p := t.scopes[p].(scopes := t.scopes[p].scopes + [n])] + [Node(kind, name, [], [], Some(p))])
  }

  lemma ScopeKeepsShape(t: Tables, p: nat, kind: string, name: string)
    requires Shape(t) && p < |t.scopes|
    ensures Shape(WithScope(t, p, kind, name))
  {
    var u, n := WithScope(t, p, kind, name), |t.scopes|;
    forall i | 0 < i <= n ensures InPlace(u, i) {
      if i < n {
        assert InPlace(t, i);
      } else {
        assert u.scopes[p].scopes[|t.scopes[p].scopes|] == n;
      }
    }
    forall i | 0 <= i < n ensures Lists(u, i) {
      assert Lists(t, i);
      var was, now := t.scopes[i].scopes, u.scopes[i].scopes;
      forall c | c in now ensures i < c < |u.scopes| && u.scopes[c].parent == Some(i) {
        if c != n { assert c in was; }
      }
      forall j, k | 0 <= j < k < |now| ensures now[j] != now[k] {
        assert was[j] in was && (k < |was| ==> was[j] != was[k]);
      }
    }
    assert Lists(u, n);
  }

  lemma {:induction false} ScopeAddsNothing(t: Tables, p: nat, kind: string, name: string, i: nat)
    requires Shape(t) && p < |t.scopes| && i < |t.scopes|
    ensures Total(WithScope(t, p, kind, name), i) == Total(t, i)
    decreases |t.scopes| - i, |t.scopes[i].scopes| + 1
  {
    hide Shape, Total, Below;
    var u, n, cs := WithScope(t, p, kind, name), |t.scopes|, t.scopes[i].scopes;
    TotalParts(t, i);
    TotalParts(u, i);
    BelowStays(t, p, kind, name, i, cs);
    if i == p {
      BelowCat(u, i, cs, [n]);
      BelowParts(u, i, [n]);
      var one := [n];
      assert |one[1..]| == 0;
      NothingBelow(u, i);
      EmptyScope(u, n);
    }
  }

  lemma EmptyScope(u: Tables, n: nat)
    requires n < |u.scopes| && u.scopes[n].vars == [] && u.scopes[n].scopes == []
    ensures Total(u, n) == multiset{}
  {
    TotalParts(u, n);
    NothingBelow(u, n);
    assert Own(u, n) == multiset{};
  }

  lemma {:induction false} SignalsCat(a: seq<Scope>, b: seq<Scope>)
    ensures SignalsIn(a + b) == SignalsIn(a) + SignalsIn(b)
    decreases |a|
  {
    if a == [] {
      assert a + b == b;
    } else {
      assert (a + b)[0] == a[0] && (a + b)[1..] == a[1..] + b;
      assert SignalsIn(a + b) == SignalsOf(a[0]) + SignalsIn(a[1..] + b);
      assert SignalsIn(a) == SignalsOf(a[0]) + SignalsIn(a[1..]);
      hide *;
      SignalsCat(a[1..], b);
    }
  }

  lemma BelowCat(t: Tables, i: nat, a: seq<nat>, b: seq<nat>)
    requires i < |t.scopes|
    ensures Below(t, i, a + b) == Below(t, i, a) + Below(t, i, b)
  {
    TreesCat(t, i, a, b);
    SignalsCat(TreesOf(t, i, a), TreesOf(t, i, b));
  }

  lemma {:induction false} BelowStays(t: Tables, p: nat, kind: string, name: string, i: nat, cs: seq<nat>)
    requires Shape(t) && p < |t.scopes| && i < |t.scopes| && forall c :: c in cs ==> c in t.scopes[i].scopes
    ensures Below(WithScope(t, p, kind, name), i, cs) == Below(t, i, cs)
    decreases |t.scopes| - i, |cs|
  {
    hide Shape, Total, Below;
    ListsChildren(t, i);
    var u := WithScope(t, p, kind, name);
    if cs == [] {
      NothingBelow(t, i);
      NothingBelow(u, i);
    } else {
      assert cs[0] in cs && forall c :: c in cs[1..] ==> c in cs;
      ScopeAddsNothing(t, p, kind, name, cs[0]);
      BelowStays(t, p, kind, name, i, cs[1..]);
      BelowParts(t, i, cs);
      BelowParts(u, i, cs);
    }
  }

  // ---- moving a variable

  lemma {:induction false} SignalsStay(vs: seq<Var>, ws: seq<Var>, refs: seq<Option<nat>>)
    requires |ws| == |vs| && forall k :: 0 <= k < |vs| ==> SignalOf(ws[k]) == SignalOf(vs[k])
    ensures VarSignals(VarsAt(ws, refs)) == VarSignals(VarsAt(vs, refs))
  {
    if refs != [] {
      var first := if refs[0].Some? && refs[0].value < |vs| then [vs[refs[0].value]] else [];
      var other := if refs[0].Some? && refs[0].value < |vs| then [ws[refs[0].value]] else [];
      SignalsStay(vs, ws, refs[1..]);
      VarSignalsCat(first, VarsAt(vs, refs[1..]));
      VarSignalsCat(other, VarsAt(ws, refs[1..]));
      OneSignal(vs);
      OneSignal(ws);
    }
  }

  lemma OneSignal(vs: seq<Var>)
    ensures forall k :: 0 <= k < |vs| ==> VarSignals([vs[k]]) == multiset{SignalOf(vs[k])}
  {
    forall k | 0 <= k < |vs| ensures VarSignals([vs[k]]) == multiset{SignalOf(vs[k])} {
      var one := [vs[k]];
      assert one[1..] == [];
    }
  }

  lemma {:induction false} VarSignalsCat(a: seq<Var>, b: seq<Var>)
    ensures VarSignals(a + b) == VarSignals(a) + VarSignals(b)
    decreases |a|
  {
    if a == [] {
      assert a + b == b;
    } else {
      var first := multiset{SignalOf(a[0])};
      assert (a + b)[0] == a[0] && (a + b)[1..] == a[1..] + b;
      assert VarSignals(a + b) == first + VarSignals(a[1..] + b) && VarSignals(a) == first + VarSignals(a[1..]);
      hide *;
      VarSignalsCat(a[1..], b);
    }
  }

  lemma RefsCat(vs: seq<Var>, a: seq<Option<nat>>, b: seq<Option<nat>>)
    ensures VarSignals(VarsAt(vs, a + b)) == VarSignals(VarsAt(vs, a)) + VarSignals(VarsAt(vs, b))
  {
    VarsCat(vs, a, b);
    VarSignalsCat(VarsAt(vs, a), VarsAt(vs, b));
  }

  lemma OneRef(vs: seq<Var>, v: nat)
    requires v < |vs|
    ensures VarSignals(VarsAt(vs, [Some(v)])) == multiset{SignalOf(vs[v])}
    ensures VarSignals(VarsAt(vs, [None])) == multiset{}
  {
    OneSignal(vs);
    var some: seq<Option<nat>>, none: seq<Option<nat>> := [Some(v)], [None];
    assert |some[1..]| == 0 && |none[1..]| == 0;
  }

  /** Variable v under a new name, also in scope s. */
  function WithVar(t: Tables, s: nat, v: nat, name: string): Tables
    requires s < |t.scopes| && v < |t.vars|
  {
    Tables(
      t.scopes[s := t.scopes[s].(vars := t.scopes[s].vars + [Some(v)])],
      t.vars[v := t.vars[v].(name := name)])
  }

  function WithoutVar(t: Tables, s: nat, k: nat): Tables
    requires s < |t.scopes| && k < |t.scopes[s].vars|
  {
    t.(scopes := t.scopes[s := t.scopes[s].(vars := t.scopes[s].vars[k := None])])
  }

  lemma AddedRef(vs: seq<Var>, ws: seq<Var>, refs: seq<Option<nat>>, v: nat)
    requires v < |vs| == |ws| && forall k :: 0 <= k < |vs| ==> SignalOf(ws[k]) == SignalOf(vs[k])
    ensures VarSignals(VarsAt(ws, refs + [Some(v)])) == VarSignals(VarsAt(vs, refs)) + multiset{SignalOf(vs[v])}
  {
    hide VarsAt, VarSignals;
    SignalsStay(vs, ws, refs);
    RefsCat(ws, refs, [Some(v)]);
    OneRef(ws, v);
  }

  lemma VarIsAdded(t: Tables, s: nat, v: nat, name: string)
    requires Shape(t) && s < |t.scopes| && v < |t.vars|
    ensures var u := WithVar(t, s, v, name);
      Shape(u) && Total(u, 0) == Total(t, 0) + multiset{SignalOf(t.vars[v])}
  {
    var u := WithVar(t, s, v, name);
    VarKeepsShape(t, s, v, name);
    forall i | 0 <= i < |t.scopes| && i != s ensures Own(u, i) == Own(t, i) {
      SignalsStay(t.vars, u.vars, t.scopes[i].vars);
    }
    AddedRef(t.vars, u.vars, t.scopes[s].vars, v);
    hide Shape, VarsAt, VarSignals, Total;
    TotalChanges(t, u, s, multiset{}, multiset{SignalOf(t.vars[v])}, 0);
    AllUnderRoot(t, s);
  }

  lemma VarKeepsShape(t: Tables, s: nat, v: nat, name: string)
    requires Shape(t) && s < |t.scopes| && v < |t.vars|
    ensures Shape(WithVar(t, s, v, name))
  {
    var u := WithVar(t, s, v, name);
    forall i | 0 <= i < |t.scopes| ensures i > 0 ==> InPlace(u, i) ensures Lists(u, i) {
      assert i > 0 ==> InPlace(t, i);
      assert Lists(t, i);
    }
  }

  lemma ClearedRef(vs: seq<Var>, refs: seq<Option<nat>>, k: nat)
    requires k < |refs| && refs[k].Some? && refs[k].value < |vs|
    ensures VarSignals(VarsAt(vs, refs)) ==
      VarSignals(VarsAt(vs, refs[k := None])) + multiset{SignalOf(vs[refs[k].value])}
  {
    var v := refs[k].value;
    assert refs == refs[..k] + ([Some(v)] + refs[k + 1..]);
    assert refs[k := None] == refs[..k] + ([None] + refs[k + 1..]);
    hide VarsAt, VarSignals;
    RefsCat(vs, refs[..k], [Some(v)] + refs[k + 1..]);
    RefsCat(vs, [Some(v)], refs[k + 1..]);
    RefsCat(vs, refs[..k], [None] + refs[k + 1..]);
    RefsCat(vs, [None], refs[k + 1..]);
    OneRef(vs, v);
  }

  lemma VarIsRemoved(t: Tables, s: nat, k: nat)
    requires Shape(t) && s < |t.scopes| && k < |t.scopes[s].vars| && t.scopes[s].vars[k].Some?
    ensures t.scopes[s].vars[k].value < |t.vars|
    ensures var u := WithoutVar(t, s, k);
      Shape(u) && Total(t, 0) == Total(u, 0) + multiset{SignalOf(t.vars[t.scopes[s].vars[k].value])}
  {
    assert Lists(t, s);
    var u, v := WithoutVar(t, s, k), t.scopes[s].vars[k].value;
    WithoutVarShape(t, s, k);
    ClearedRef(t.vars, t.scopes[s].vars, k);
    hide Shape, VarsAt, VarSignals, Total;
    TotalChanges(t, u, s, multiset{SignalOf(t.vars[v])}, multiset{}, 0);
    AllUnderRoot(t, s);
  }

  lemma WithoutVarShape(t: Tables, s: nat, k: nat)
    requires Shape(t) && s < |t.scopes| && k < |t.scopes[s].vars| && t.scopes[s].vars[k].Some?
    ensures Shape(WithoutVar(t, s, k))
  {
    var u := WithoutVar(t, s, k);
    forall i | 0 <= i < |t.scopes| ensures i > 0 ==> InPlace(u, i) ensures Lists(u, i) {
      assert i > 0 ==> InPlace(t, i);
      assert Lists(t, i);
    }
  }

  /** Scopes keep their place and what they list; new ones come at the end. */
  ghost predicate OnlyAdds(t: Tables, u: Tables) {
    && |t.scopes| <= |u.scopes| && |u.vars| == |t.vars|
    && (forall k :: 0 <= k < |t.vars| ==> SignalOf(u.vars[k]) == SignalOf(t.vars[k]))
    && forall i :: 0 <= i < |t.scopes| ==>
      && u.scopes[i].kind == t.scopes[i].kind && u.scopes[i].name == t.scopes[i].name
      && u.scopes[i].parent == t.scopes[i].parent && t.scopes[i].scopes <= u.scopes[i].scopes
  }

  lemma Cancel(a: multiset<Signal>, b: multiset<Signal>, m: multiset<Signal>)
    requires a + m == b + m
    ensures a == b
  {
    forall x: Signal ensures a[x] == b[x] {
      assert (a + m)[x] == (b + m)[x];
    }
  }

  lemma OnlyAddsTwice(t: Tables, u: Tables, w: Tables)
    requires OnlyAdds(t, u) && OnlyAdds(u, w)
    ensures OnlyAdds(t, w)
  {
  }

  lemma StepsOnlyAdd(t: Tables)
    ensures OnlyAdds(t, t)
    ensures forall p, kind, name | 0 <= p < |t.scopes| :: OnlyAdds(t, WithScope(t, p, kind, name))
    ensures forall s, v, name | 0 <= s < |t.scopes| && 0 <= v < |t.vars| :: OnlyAdds(t, WithVar(t, s, v, name))
    ensures forall s, k | 0 <= s < |t.scopes| && 0 <= k < |t.scopes[s].vars| :: OnlyAdds(t, WithoutVar(t, s, k))
  {
  }

  // ---- what reading leaves

  ghost predicate Shaped(r: Reading) {
    if r.t.scopes == [] then r.stack == []
    else Shape(r.t) && forall k :: 0 <= k < |r.stack| ==> r.stack[k] < |r.t.scopes|
  }

  lemma HeardKeepsShape(r: Reading, e: VcdText.Event)
    requires Shaped(r) && Heard(r, e).Some?
    ensures Shaped(Heard(r, e).value)
  {
    var q := Heard(r, e).value;
    if e.EnterScope? && r.t.scopes == [] {
      assert Lists(q.t, 0);
    } else if e.EnterScope? {
      ScopeKeepsShape(r.t, r.stack[|r.stack| - 1], e.kind, e.name);
    } else if e.VarDef? {
      var t, u := r.t, q.t;
      forall i | 0 <= i < |t.scopes| ensures i > 0 ==> InPlace(u, i) ensures Lists(u, i) {
        assert i > 0 ==> InPlace(t, i);
        assert Lists(t, i);
      }
    }
  }

  /** Whatever is read, the scopes form a tree, so that remapping can start. */
  lemma {:induction false} ReadingIsShaped(r: Reading, es: seq<VcdText.Event>)
    requires Shaped(r) && HeardAll(r, es).Some?
    ensures Shaped(HeardAll(r, es).value)
    decreases |es|
  {
    if es != [] {
      HeardKeepsShape(r, es[0]);
      ReadingIsShaped(Heard(r, es[0]).value, es[1..]);
    }
  }
}
