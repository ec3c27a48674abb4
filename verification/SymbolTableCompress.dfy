/** Compression of a symbol table before it is written: SymbolTable::compress of include/json.hh.
    Scopes are objects with a parent pointer; file names are cleared in place, children first. */
module SymbolTableCompress {
  import opened Common

  datatype Variable = Variable(name: string, value: string, rtl: bool, id: Option<nat>)

  /** A variable of a module or statement: written out, or the id of a pooled one. */
  datatype Ref = Own(variable: Variable) | Pooled(id: nat)

  class Scope {
    const isModule: bool
    const parent: Scope?
    /** Distance from the root, to speak about ancestors. */
    const depth: nat
    var filename: string
    var vars: seq<Ref>
    var scopes: seq<Scope>

    constructor Module()
      ensures isModule && parent == null && depth == 0 && filename == "" && vars == [] && scopes == []
    {
      isModule, parent, depth := true, null, 0;
      filename, vars, scopes := "", [], [];
    }

    constructor In(parent: Scope, filename: string, vars: seq<Ref>)
      ensures !isModule && this.parent == parent && depth == parent.depth + 1
      ensures this.filename == filename && this.vars == vars && scopes == []
    {
      isModule, this.parent, depth := false, parent, parent.depth + 1;
      this.filename, this.vars, scopes := filename, vars, [];
    }

    /** create_scope. */
    method CreateScope(filename: string, vars: seq<Ref>, ghost all: set<Scope>) returns (s: Scope)
      requires Tree(all) && this in all
      modifies this`scopes
      ensures fresh(s) && !s.isModule && s.parent == this && s.filename == filename && s.vars == vars
      ensures scopes == old(scopes) + [s] && Tree(all + {s})
    {
      s := new Scope.In(this, filename, vars);
      scopes := scopes + [s];
    }
  }

  // ---- file names

  /** Parents lead to a root; depth counts them. */
  ghost predicate Rooted(all: set<Scope>) {
    forall s :: s in all ==>
      if s.parent == null then s.depth == 0 else s.parent in all && s.depth == s.parent.depth + 1
  }

  /** Parents and children agree, and no child is listed twice. */
  ghost predicate Tree(all: set<Scope>): (r: bool)
    reads all`scopes
    ensures r ==> Rooted(all)
  {
    && Rooted(all)
    && (forall s :: s in all && s.parent != null ==> s in s.parent.scopes)
    && (forall s, c :: s in all && c in s.scopes ==> c in all && c.parent == s)
    && forall s, i, j :: s in all && 0 <= i < j < |s.scopes| ==> s.scopes[i] != s.scopes[j]
  }

  type Names = map<Scope, string>

  /** get_filename over a record of the file names. */
  ghost function Effective(all: set<Scope>, names: Names, s: Scope): string
    requires Rooted(all) && s in all && names.Keys == all
    decreases s.depth
  {
    if names[s] != "" || s.parent == null then names[s] else Effective(all, names, s.parent)
  }

  /** Whether the parent already has the file name of s. Top-level scopes keep theirs. */
  ghost predicate Implied(all: set<Scope>, names: Names, s: Scope)
    requires Rooted(all) && s in all && names.Keys == all
  {
    && names[s] != "" && !s.isModule && s.parent != null && !s.parent.isModule
    && Effective(all, names, s.parent) == names[s]
  }

  ghost function Cleared(all: set<Scope>, names: Names): (r: Names)
    requires Rooted(all) && names.Keys == all
    ensures r.Keys == all
  {
    map s | s in all :: if Implied(all, names, s) then "" else names[s]
  }

  /** Clearing changes no scope's effective file name. */
  lemma {:induction false} ClearingKeepsNames(all: set<Scope>, names: Names, s: Scope)
    requires Rooted(all) && s in all && names.Keys == all
    ensures Effective(all, Cleared(all, names), s) == Effective(all, names, s)
    decreases s.depth
  {
    if s.parent != null {
      ClearingKeepsNames(all, names, s.parent);
    }
  }

  /** After clearing, no scope below the top level says what its parent already says. */
  lemma NothingLeftToClear(all: set<Scope>, names: Names, s: Scope)
    requires Rooted(all) && s in all && names.Keys == all
    ensures !Implied(all, Cleared(all, names), s)
  {
    if s.parent != null {
      ClearingKeepsNames(all, names, s.parent);
    }
  }

  /** s is x or an ancestor of x. */
  ghost predicate IsBelow(all: set<Scope>, x: Scope, s: Scope)
    requires Rooted(all) && x in all
    decreases x.depth
  {
    x == s || (x.parent != null && IsBelow(all, x.parent, s))
  }

  lemma {:induction false} BelowIsDeeper(all: set<Scope>, x: Scope, s: Scope)
    requires Rooted(all) && x in all && IsBelow(all, x, s)
    ensures s in all && s.depth <= x.depth && (s.depth == x.depth ==> s == x)
    decreases x.depth
  {
    if x != s { BelowIsDeeper(all, x.parent, s); }
  }

  lemma {:induction false} OneAncestorPerDepth(all: set<Scope>, x: Scope, a: Scope, b: Scope)
    requires Rooted(all) && x in all && IsBelow(all, x, a) && IsBelow(all, x, b) && a.depth == b.depth
    ensures a == b
    decreases x.depth
  {
    if x == a { BelowIsDeeper(all, x, b); }
    else if x == b { BelowIsDeeper(all, x, a); }
    else { OneAncestorPerDepth(all, x.parent, a, b); }
  }

  lemma {:induction false} BelowChild(all: set<Scope>, x: Scope, c: Scope)
    requires Rooted(all) && x in all && c in all && c.parent != null && IsBelow(all, x, c)
    ensures IsBelow(all, x, c.parent) && x != c.parent
    decreases x.depth
  {
    BelowIsDeeper(all, x, c);
    if x != c { BelowChild(all, x.parent, c); }
  }

  /** Whatever is under s, other than s, is under one of its children. */
  lemma {:induction false} BelowSomeChild(all: set<Scope>, x: Scope, s: Scope)
    requires Tree(all) && x in all && x != s && IsBelow(all, x, s)
    ensures exists i :: 0 <= i < |s.scopes| && IsBelow(all, x, s.scopes[i])
    decreases x.depth
  {
    if x.parent == s {
      assert x in s.scopes;
      assert IsBelow(all, x, x);
    } else {
      BelowSomeChild(all, x.parent, s);
    }
  }

  /** s and everything inside it. */
  ghost function Below(all: set<Scope>, s: Scope): set<Scope>
    requires Rooted(all)
  {
    set x | x in all && IsBelow(all, x, s)
  }

  /** s and its ancestors. */
  ghost function Above(all: set<Scope>, s: Scope): set<Scope>
    requires Rooted(all) && s in all
  {
    set x | x in all && IsBelow(all, s, x)
  }

  lemma ChildrenPartition(all: set<Scope>, s: Scope, areas: seq<set<Scope>>)
    requires Tree(all) && s in all && areas == AreasOf(all, s.scopes)
    ensures forall c :: c in s.scopes ==> c in all && c.parent == s
    ensures Partition(areas, Below(all, s) - {s})
  {
    forall i, x | 0 <= i < |areas| && x in areas[i] ensures x in Below(all, s) - {s} {
      assert s.scopes[i] in s.scopes;
      BelowChild(all, x, s.scopes[i]);
    }
    forall i, j, x | 0 <= i < j < |areas| && x in areas[i] ensures x !in areas[j] {
      assert s.scopes[i].parent == s && s.scopes[j].parent == s;
      if x in areas[j] {
        OneAncestorPerDepth(all, x, s.scopes[i], s.scopes[j]);
      }
    }
    forall x | x in Below(all, s) - {s} ensures exists i :: 0 <= i < |areas| && x in areas[i] {
      BelowSomeChild(all, x, s);
      var i :| 0 <= i < |s.scopes| && IsBelow(all, x, s.scopes[i]);
      assert x in areas[i];
    }
  }

  lemma ChildAbove(all: set<Scope>, c: Scope)
    requires Rooted(all) && c in all && c.parent != null
    ensures Above(all, c) == Above(all, c.parent) + {c}
    ensures Above(all, c.parent) !! Below(all, c.parent) - {c.parent}
  {
    forall x | x in Above(all, c.parent) && x in Below(all, c.parent) ensures x == c.parent {
      BelowIsDeeper(all, c.parent, x);
      BelowIsDeeper(all, x, c.parent);
    }
  }

  lemma SelfBelow(all: set<Scope>, s: Scope)
    requires Rooted(all) && s in all
    ensures s in Below(all, s) && s in Above(all, s)
    ensures s.parent != null ==> s.depth > s.parent.depth
  {
  }

  lemma AboveSelf(all: set<Scope>, s: Scope)
    requires Rooted(all) && s in all
    ensures Above(all, s) !! Below(all, s) - {s}
  {
    forall x | x in Above(all, s) && x in Below(all, s) ensures x == s {
      BelowIsDeeper(all, s, x);
      BelowIsDeeper(all, x, s);
    }
  }

  lemma ModuleKeepsName(all: set<Scope>, names: Names, now: Names, s: Scope, area: set<Scope>)
    requires Rooted(all) && s in area && names.Keys == now.Keys == all && s in all && s.isModule
    requires Agree(now, names, area)
    ensures Painted(now, Cleared(all, names), {s}) == now
  {
  }

  ghost function NamesOf(all: set<Scope>): (r: Names)
    reads all`filename
    ensures r.Keys == all
  {
    map s | s in all :: s.filename
  }

  ghost predicate Agree(a: Names, b: Names, area: set<Scope>) {
    forall x :: x in area ==> x in a && x in b && a[x] == b[x]
  }

  /** before, with the names of an area taken from after. */
  ghost function Painted(before: Names, after: Names, area: set<Scope>): (r: Names)
    requires before.Keys == after.Keys
    ensures r.Keys == before.Keys
  {
    map x | x in before :: if x in area then after[x] else before[x]
  }

  lemma PaintedTwice(before: Names, after: Names, a: set<Scope>, b: set<Scope>)
    requires before.Keys == after.Keys
    ensures Painted(Painted(before, after, a), after, b) == Painted(before, after, a + b)
  {
  }

  lemma PaintedNothing(before: Names, after: Names)
    requires before.Keys == after.Keys
    ensures Painted(before, after, {}) == before
  {
  }

  lemma AgreeElsewhere(before: Names, after: Names, names: Names, done: set<Scope>, area: set<Scope>)
    requires before.Keys == after.Keys && Agree(before, names, area)
    ensures Agree(Painted(before, after, done), names, area - done)
  {
  }

  /** get_filename, walking up. */
  method GetFilename(s: Scope, ghost all: set<Scope>, ghost names: Names) returns (r: string)
    requires Rooted(all) && s in all && names.Keys == all && Agree(NamesOf(all), names, Above(all, s))
    ensures r == Effective(all, names, s)
    decreases s.depth
  {
    assert IsBelow(all, s, s);
    if s.filename != "" || s.parent == null {
      r := s.filename;
    } else {
      ChildAbove(all, s);
      r := GetFilename(s.parent, all, names);
    }
  }

  /** FilenameClear on one scope. */
  method Handle(s: Scope, ghost all: set<Scope>, ghost names: Names)
    requires Rooted(all) && s in all && names.Keys == all && !s.isModule
    requires Agree(NamesOf(all), names, Above(all, s))
    modifies s`filename
    ensures NamesOf(all) == Painted(old(NamesOf(all)), Cleared(all, names), {s})
  {
    assert s in Above(all, s);
    if s.filename == "" || s.parent == null || s.parent.isModule {
      return;
    }
    ChildAbove(all, s);
    var ref := GetFilename(s.parent, all, names);
    if ref == s.filename {
      s.filename := "";
    }
  }

  /** done is made of the first i areas. */
  ghost predicate Swept(areas: seq<set<Scope>>, i: nat, done: set<Scope>)
    requires i <= |areas|
  {
    && (forall j :: 0 <= j < i ==> areas[j] <= done)
    && (forall j :: i <= j < |areas| ==> areas[j] !! done)
    && forall x :: x in done ==> exists j :: 0 <= j < i && x in areas[j]
  }

  /** The areas cut want up. */
  ghost predicate Partition(areas: seq<set<Scope>>, want: set<Scope>) {
    && (forall i :: 0 <= i < |areas| ==> areas[i] <= want)
    && (forall i, j :: 0 <= i < j < |areas| ==> areas[i] !! areas[j])
    && forall x :: x in want ==> exists i :: 0 <= i < |areas| && x in areas[i]
  }

  lemma NothingSwept(areas: seq<set<Scope>>)
    ensures Swept(areas, 0, {})
  {
  }

  lemma SweptNext(areas: seq<set<Scope>>, i: nat, done: set<Scope>, want: set<Scope>)
    requires i < |areas| && Swept(areas, i, done) && Partition(areas, want)
    ensures Swept(areas, i + 1, done + areas[i])
    ensures done <= want && areas[i] <= want && areas[i] !! done
  {
    forall x | x in done ensures x in want {
      var j :| 0 <= j < i && x in areas[j];
    }
  }

  lemma SweptAll(areas: seq<set<Scope>>, done: set<Scope>, want: set<Scope>)
    requires Swept(areas, |areas|, done) && Partition(areas, want)
    ensures done == want
  {
    forall x | x in done ensures x in want {
      var j :| 0 <= j < |areas| && x in areas[j];
    }
    forall x | x in want ensures x in done {
      var j :| 0 <= j < |areas| && x in areas[j];
    }
  }

  ghost function AreasOf(all: set<Scope>, scopes: seq<Scope>): (r: seq<set<Scope>>)
    requires Rooted(all)
    ensures |r| == |scopes| && forall i :: 0 <= i < |r| ==> r[i] == Below(all, scopes[i])
  {
    seq(|scopes|, i requires 0 <= i < |scopes| => Below(all, scopes[i]))
  }

  /** What a child looks at has not been touched by the children before it. */
  lemma ChildAgrees(all: set<Scope>, now: Names, names: Names, done: set<Scope>, c: Scope)
    requires Rooted(all) && c in all && c.parent != null && c.parent in all
    requires var s := c.parent;
      && Below(all, c) <= Below(all, s) - {s} && Below(all, c) !! done && done <= Below(all, s) - {s}
      && Agree(now, names, Below(all, s) + Above(all, s) - done)
    ensures Agree(now, names, Below(all, c) + Above(all, c))
    ensures c.depth > c.parent.depth
  {
    hide Rooted, Below, Above, Agree;
    ChildAbove(all, c);
    SelfBelow(all, c);
    AgreeLess(now, names, Below(all, c.parent) + Above(all, c.parent) - done, Below(all, c) + Above(all, c));
  }

  /** visit: children first, so that the ancestors still have their names when a scope asks. */
  method Visit(s: Scope, ghost all: set<Scope>, ghost names: Names, ghost height: nat)
    requires Tree(all) && s in all && names.Keys == all && forall x :: x in all ==> x.depth <= height
    requires Agree(NamesOf(all), names, Below(all, s) + Above(all, s))
    modifies all`filename
    ensures NamesOf(all) == Painted(old(NamesOf(all)), Cleared(all, names), Below(all, s))
    decreases height - s.depth
  {
    hide Tree, Rooted, Below, Above, Implied, Cleared, Painted, NamesOf, IsBelow, Agree, Swept, Partition, Roots;
    ghost var before, after := NamesOf(all), Cleared(all, names);
    ghost var done: set<Scope> := {};
    ghost var areas := AreasOf(all, s.scopes);
    ChildrenPartition(all, s, areas);
    NothingSwept(areas);
    SelfBelow(all, s);
    AboveSelf(all, s);
    PaintedNothing(before, after);
    for i := 0 to |s.scopes|
      invariant Swept(areas, i, done)
      invariant NamesOf(all) == Painted(before, after, done)
    {
      var c := s.scopes[i];
      SweptNext(areas, i, done, Below(all, s) - {s});
      AgreeElsewhere(before, after, names, done, Below(all, s) + Above(all, s));
      ChildAgrees(all, NamesOf(all), names, done, c);
      Visit(c, all, names, height);
      PaintedTwice(before, after, done, Below(all, c));
      done := done + areas[i];
    }
    SweptAll(areas, done, Below(all, s) - {s});
    PaintedTwice(before, after, done, {s});
    assert done + {s} == Below(all, s);
    if !s.isModule {
      AgreeElsewhere(before, after, names, done, Below(all, s) + Above(all, s));
      AgreeLess(NamesOf(all), names, Below(all, s) + Above(all, s) - done, Above(all, s));
      Handle(s, all, names);
    } else {
      AgreeElsewhere(before, after, names, done, Below(all, s) + Above(all, s));
      ModuleKeepsName(all, names, NamesOf(all), s, Below(all, s) + Above(all, s) - done);
    }
  }

  lemma AgreeLess(a: Names, b: Names, more: set<Scope>, less: set<Scope>)
    requires Agree(a, b, more) && less <= more
    ensures Agree(a, b, less)
  {
  }

  /** The scopes without a parent, each once. */
  ghost predicate Roots(all: set<Scope>, modules: seq<Scope>) {
    && (forall i :: 0 <= i < |modules| ==> modules[i] in all && modules[i].parent == null)
    && (forall i, j :: 0 <= i < j < |modules| ==> modules[i] != modules[j])
    && forall x :: x in all && x.parent == null ==> x in modules
  }

  lemma RootAbove(all: set<Scope>, modules: seq<Scope>, i: nat)
    requires Rooted(all) && Roots(all, modules) && i < |modules|
    ensures modules[i] in all && Above(all, modules[i]) <= Below(all, modules[i])
  {
  }

  /** compress_filename: what every scope's file name means stays, and nothing implied is left. */
  method CompressFilename(modules: seq<Scope>, ghost all: set<Scope>, ghost height: nat)
    requires Tree(all) && forall x :: x in all ==> x.depth <= height
    requires Roots(all, modules)
    modifies all`filename
    ensures NamesOf(all) == Cleared(all, old(NamesOf(all)))
  {
    hide Tree, Rooted, Below, Above, Implied, Cleared, IsBelow, Painted, NamesOf, Agree, Swept, Partition, Roots;
    ghost var names := NamesOf(all);
    ghost var after := Cleared(all, names);
    ghost var done: set<Scope> := {};
    ghost var areas := AreasOf(all, modules);
    RootsPartition(all, modules, areas);
    NothingSwept(areas);
    PaintedNothing(names, after);
    for i := 0 to |modules|
      invariant Swept(areas, i, done)
      invariant NamesOf(all) == Painted(names, after, done)
    {
      RootAbove(all, modules, i);
      SweptNext(areas, i, done, all);
      NextRoot(names, after, done, areas[i], Above(all, modules[i]));
      Visit(modules[i], all, names, height);
      done := done + areas[i];
    }
    SweptAll(areas, done, all);
    PaintedAll(names, after, done);
  }

  lemma PaintedAll(before: Names, after: Names, area: set<Scope>)
    requires before.Keys == after.Keys <= area
    ensures Painted(before, after, area) == after
  {
  }

  lemma NextRoot(names: Names, after: Names, done: set<Scope>, area: set<Scope>, above: set<Scope>)
    requires names.Keys == after.Keys && above <= area <= names.Keys && area !! done
    ensures Agree(Painted(names, after, done), names, area + above)
    ensures Painted(Painted(names, after, done), after, area) == Painted(names, after, done + area)
  {
  }

  lemma {:induction false} RootOf(all: set<Scope>, x: Scope) returns (m: Scope)
    requires Rooted(all) && x in all
    ensures m in all && m.parent == null && IsBelow(all, x, m)
    decreases x.depth
  {
    if x.parent == null { m := x; } else { m := RootOf(all, x.parent); }
  }

  lemma RootsPartition(all: set<Scope>, modules: seq<Scope>, areas: seq<set<Scope>>)
    requires Rooted(all) && Roots(all, modules) && areas == AreasOf(all, modules)
    ensures Partition(areas, all)
  {
    forall i, j | 0 <= i < j < |areas| ensures areas[i] !! areas[j] {
      RootsApart(all, modules[i], modules[j]);
    }
    forall x | x in all ensures exists i :: 0 <= i < |areas| && x in areas[i] {
      var m := RootOf(all, x);
      var i :| 0 <= i < |modules| && modules[i] == m;
      assert x in areas[i];
    }
  }

  lemma RootsApart(all: set<Scope>, m: Scope, n: Scope)
    requires Rooted(all) && m in all && n in all && m.parent == null && n.parent == null && m != n
    ensures Below(all, m) !! Below(all, n)
  {
    forall x | x in Below(all, m) ensures x !in Below(all, n) {
      if x in Below(all, n) { OneAncestorPerDepth(all, x, m, n); }
    }
  }

  /** What compress_filename leaves: every effective name, and no name a parent implies. */
  lemma ClearingIsCompression(all: set<Scope>, names: Names)
    requires Rooted(all) && names.Keys == all
    ensures var after := Cleared(all, names);
      forall x :: x in all ==>
        Effective(all, after, x) == Effective(all, names, x) && !Implied(all, after, x)
  {
    forall x | x in all
      ensures Effective(all, Cleared(all, names), x) == Effective(all, names, x)
      ensures !Implied(all, Cleared(all, names), x)
    {
      ClearingKeepsNames(all, names, x);
      NothingLeftToClear(all, names, x);
    }
  }
}
