/** Resolution of instance names when a symbol table is loaded: resolve_module_instances and the
    root loop of parse_db in src/db.cc. Module graphs may be cyclic. */
module ModuleResolution {
  /** A module definition: declared instances wait in unresolved, name to module name, until they
      are linked. */
  class ModuleDef {
    const name: string
    var instances: map<string, ModuleDef>
    var unresolved: map<string, string>

    constructor (name: string, declared: map<string, string>)
      ensures this.name == name && instances == map[] && unresolved == declared
    {
      this.name := name;
      instances, unresolved := map[], declared;
    }

    /** The instances are the declared ones. */
    ghost predicate Linked(defs: map<string, ModuleDef>, declared: map<string, string>)
      reads this`instances
    {
      && instances.Keys == declared.Keys
      && forall n :: n in declared ==> declared[n] in defs && instances[n] == defs[declared[n]]
    }
  }

  /** All modules with the instances each of them declares. */
  type Declared = map<ModuleDef, map<string, string>>

  /** Every module is either untouched or done. */
  ghost predicate Matches(defs: map<string, ModuleDef>, g: Declared)
    reads g.Keys
  {
    && defs.Values <= g.Keys
    && forall m :: m in g ==>
         (m.unresolved == g[m] && m.instances == map[]) || (m.unresolved == map[] && m.Linked(defs, g[m]))
  }

  ghost function Pending(g: Declared): set<ModuleDef>
    reads g.Keys
  {
    set m | m in g && m.unresolved != map[]
  }

  /** The modules that def declares instances of. */
  ghost function Children(defs: map<string, ModuleDef>, g: Declared, def: ModuleDef): set<ModuleDef>
    requires def in g
  {
    set n | n in g[def] && g[def][n] in defs :: defs[g[def][n]]
  }

  /** Modules that stopped pending have no pending children. */
  ghost predicate Closed(defs: map<string, ModuleDef>, g: Declared, was: set<ModuleDef>, pending: set<ModuleDef>) {
    forall m :: m in was - pending && m in g ==> Children(defs, g, m) !! pending
  }

  /** Modules at most k declarations away from def. */
  ghost function Within(defs: map<string, ModuleDef>, g: Declared, def: ModuleDef, k: nat): set<ModuleDef> {
    if k == 0 then {def}
    else
      var near := Within(defs, g, def, k - 1);
      near + set m, c | m in near && m in g && c in Children(defs, g, m) :: c
  }

  /** Some module reachable from def declares an instance of a module that does not exist. */
  ghost predicate Missing(defs: map<string, ModuleDef>, g: Declared, def: ModuleDef) {
    exists k: nat, m, n :: m in Within(defs, g, def, k) && m in g && n in g[m] && g[m][n] !in defs
  }

  lemma {:induction false} WithinOfChild(
      defs: map<string, ModuleDef>, g: Declared, def: ModuleDef, child: ModuleDef, k: nat)
    requires def in g && child in Children(defs, g, def)
    ensures Within(defs, g, child, k) <= Within(defs, g, def, k + 1)
  {
    hide Children;
    if k == 0 {
      assert def in Within(defs, g, def, 0);
    } else {
      WithinOfChild(defs, g, def, child, k - 1);
    }
  }

  lemma MissingInChild(defs: map<string, ModuleDef>, g: Declared, def: ModuleDef, child: ModuleDef)
    requires def in g && child in Children(defs, g, def) && Missing(defs, g, child)
    ensures Missing(defs, g, def)
  {
    hide Within, Children;
    var k: nat, m, x :| m in Within(defs, g, child, k) && m in g && x in g[m] && g[m][x] !in defs;
    WithinOfChild(defs, g, def, child, k);
  }

  lemma Smaller(a: set<ModuleDef>, b: set<ModuleDef>, m: ModuleDef)
    requires a == b - {m} && m in b
    ensures |a| + 1 == |b|
  {
  }

  lemma {:induction false} FewerElements(a: set<ModuleDef>, b: set<ModuleDef>)
    requires a <= b
    ensures |a| <= |b|
    decreases |a|
  {
    if a != {} {
      var x :| x in a;
      FewerElements(a - {x}, b - {x});
    }
  }

  /** resolve_module_instances. It ends on every graph, since a module's names are cleared before
      its children are looked at. */
  method Resolve(def: ModuleDef, defs: map<string, ModuleDef>, hasError: bool, ghost g: Declared)
    returns (err: bool)
    requires def in g && (hasError || Matches(defs, g))
    modifies g.Keys
    ensures hasError ==> err
    ensures err && !hasError ==> Missing(defs, g, def)
    ensures !err ==> Matches(defs, g) && def !in Pending(g)
    ensures Pending(g) <= old(Pending(g))
    ensures !err ==> Closed(defs, g, old(Pending(g)), Pending(g))
    decreases |Pending(g)|, 1
  {
    hide Missing, Within, ModuleDef.Linked, Children;
    if hasError {
      return true;
    }
    var subs, ok := Link(def, defs, g);
    if !ok {
      return true;
    }
    def.unresolved := map[];
    assert Pending(g) == old(Pending(g)) - {def};
    err := false;
    if subs != {} {
      Smaller(Pending(g), old(Pending(g)), def);
      err := ResolveAll(def, subs, defs, g);
    }
  }

  /** The second loop: the children, in no particular order. */
  method ResolveAll(ghost def: ModuleDef, subs: set<ModuleDef>, defs: map<string, ModuleDef>, ghost g: Declared)
    returns (err: bool)
    requires Matches(defs, g) && def in g && def !in Pending(g)
    requires subs == Children(defs, g, def) && subs <= g.Keys
    modifies g.Keys
    ensures err ==> Missing(defs, g, def)
    ensures !err ==> Matches(defs, g) && subs !! Pending(g)
    ensures Pending(g) <= old(Pending(g))
    ensures !err ==> Closed(defs, g, old(Pending(g)), Pending(g))
    decreases |Pending(g)| + 1, 0
  {
    hide Missing, Within, ModuleDef.Linked, Children;
    ghost var before := Pending(g);
    err := false;
    var left := subs;
    while left != {}
      invariant left <= subs
      invariant err ==> Missing(defs, g, def)
      invariant !err ==> Matches(defs, g) && (subs - left) !! Pending(g)
      invariant Pending(g) <= before
      invariant !err ==> Closed(defs, g, before, Pending(g))
      decreases left
    {
      var m :| m in left;
      left := left - {m};
      FewerElements(Pending(g), before);
      var e := Resolve(m, defs, err, g);
      if e && !err {
        MissingInChild(defs, g, def, m);
      }
      err := e;
    }
  }

  /** The first loop: links the declared names, stopping at one that does not exist. */
  method Link(def: ModuleDef, defs: map<string, ModuleDef>, ghost g: Declared)
    returns (subs: set<ModuleDef>, ok: bool)
    requires def in g && Matches(defs, g)
    modifies def`instances
    ensures !ok ==> Missing(defs, g, def)
    ensures ok ==> def.Linked(defs, g[def]) && subs <= g.Keys
    ensures ok ==> subs == if def in Pending(g) then Children(defs, g, def) else {}
  {
    subs, ok := {}, true;
    var left := def.unresolved.Keys;
    while left != {}
      invariant left <= def.unresolved.Keys
      invariant def.instances.Keys == old(def.instances.Keys) + (def.unresolved.Keys - left)
      invariant forall n :: n in def.unresolved.Keys - left ==>
        def.unresolved[n] in defs && def.instances[n] == defs[def.unresolved[n]]
      invariant def.unresolved == map[] ==> def.instances == old(def.instances)
      invariant forall m :: m in subs <==> exists n :: n in def.unresolved.Keys - left && def.instances[n] == m
      decreases left
    {
      var n :| n in left;
      left := left - {n};
      if def.unresolved[n] !in defs {
        assert def in Within(defs, g, def, 0);
        return subs, false;
      }
      var sub := defs[def.unresolved[n]];
      if n !in def.instances {
        def.instances := def.instances[n := sub];
      }
      subs := subs + {sub};
    }
  }

  /** Once every done module's children are done, everything reachable from a done module is. */
  lemma {:induction false} DoneWithin(defs: map<string, ModuleDef>, g: Declared, def: ModuleDef, k: nat)
    requires Matches(defs, g) && Closed(defs, g, g.Keys, Pending(g)) && def in g.Keys - Pending(g)
    ensures Within(defs, g, def, k) <= g.Keys - Pending(g)
  {
    hide ModuleDef.Linked;
    if k > 0 {
      DoneWithin(defs, g, def, k - 1);
    }
  }

  /** The root loop of parse_db: succeeds exactly when no root reaches a missing module, and then
      every module reachable from a root is linked as declared. */
  method ResolveRoots(roots: seq<ModuleDef>, defs: map<string, ModuleDef>, ghost g: Declared)
    returns (ok: bool)
    requires defs.Values <= g.Keys && forall r :: r in roots ==> r in g
    requires forall m :: m in g ==> m.instances == map[] && m.unresolved == g[m]
    modifies g.Keys
    ensures ok <==> forall r :: r in roots ==> !Missing(defs, g, r)
    ensures ok ==> forall r, k: nat, m :: r in roots && m in Within(defs, g, r, k) ==>
      m in g && m.unresolved == map[] && m.Linked(defs, g[m])
  {
    hide Within, Missing, Children;
    ok := true;
    Untouched(defs, g);
    for i := 0 to |roots|
      invariant Matches(defs, g) && Closed(defs, g, g.Keys, Pending(g))
      invariant forall j :: 0 <= j < i ==> roots[j] !in Pending(g) && !Missing(defs, g, roots[j])
    {
      var err := Resolve(roots[i], defs, false, g);
      if err {
        return false;
      }
      NothingMissing(defs, g, roots[i]);
    }
    forall r, k: nat, m | r in roots && m in Within(defs, g, r, k)
      ensures m in g && m.unresolved == map[] && m.Linked(defs, g[m])
    {
      DoneWithin(defs, g, r, k);
    }
  }

  lemma Untouched(defs: map<string, ModuleDef>, g: Declared)
    requires defs.Values <= g.Keys && forall m :: m in g ==> m.instances == map[] && m.unresolved == g[m]
    ensures Matches(defs, g) && Closed(defs, g, g.Keys, Pending(g))
  {
  }

  lemma NothingMissing(defs: map<string, ModuleDef>, g: Declared, def: ModuleDef)
    requires Matches(defs, g) && Closed(defs, g, g.Keys, Pending(g)) && def in g.Keys - Pending(g)
    ensures !Missing(defs, g, def)
  {
    forall k: nat, m, n | m in Within(defs, g, def, k) && m in g && n in g[m] ensures g[m][n] in defs {
      DoneWithin(defs, g, def, k);
      assert m.unresolved == map[];
    }
  }
}
