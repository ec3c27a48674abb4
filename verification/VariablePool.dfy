/** Pooling of repeated variables before a symbol table is written: compress_var of
    include/json.hh, and what the reader makes of the ids (parse_var of src/db.cc). */
module VariablePool {
  import opened Common
  import opened SymbolTableCompress

  /** Variables compare and hash without their id. */
  function Key(v: Variable): Variable {
    v.(id := None)
  }

  /** How often refs spell out the variable k. */
  function Occurrences(refs: seq<Ref>, k: Variable): nat {
    if refs == [] then 0
    else
      var last := refs[|refs| - 1];
      Occurrences(refs[..|refs| - 1], k) + if last.Own? && Key(last.variable) == k then 1 else 0
  }

  function CountOf(count: map<Variable, nat>, k: Variable): nat {
    if k in count then count[k] else 0
  }

  /** Entries of the pool carry their position. */
  ghost predicate Numbered(pool: seq<Variable>) {
    forall i :: 0 <= i < |pool| ==> pool[i].id == Some(i)
  }

  /** The reader's table of pooled variables: the first entry with an id. */
  function Lookup(pool: seq<Variable>, id: nat): Option<Variable> {
    if pool == [] then None
    else if pool[0].id == Some(id) then Some(pool[0])
    else Lookup(pool[1..], id)
  }

  /** What the reader makes of a slot. None: an unknown id. */
  function Restore(pool: seq<Variable>, r: Ref): Option<Variable> {
    match r
    case Own(v) => Some(Key(v))
    case Pooled(i) => match Lookup(pool, i) { case None => None case Some(v) => Some(Key(v)) }
  }

  lemma {:induction false} LookupFrom(pool: seq<Variable>, id: nat, k: nat)
    requires k <= id < |pool| && Numbered(pool)
    ensures Lookup(pool[k..], id) == Some(pool[id])
    decreases id - k
  {
    assert pool[k..][0] == pool[k] && pool[k..][1..] == pool[k + 1..];
    if k < id { LookupFrom(pool, id, k + 1); }
  }

  lemma LookupIsPosition(pool: seq<Variable>, id: nat)
    requires id < |pool| && Numbered(pool)
    ensures Lookup(pool, id) == Some(pool[id])
  {
    LookupFrom(pool, id, 0);
    assert pool[0..] == pool;
  }

  lemma OccurrencesGrow(refs: seq<Ref>, r: Ref, k: Variable)
    ensures Occurrences(refs + [r], k) ==
      Occurrences(refs, k) + if r.Own? && Key(r.variable) == k then 1 else 0
  {
    assert (refs + [r])[..|refs|] == refs;
  }

  lemma {:induction false} OccurrencesAppend(a: seq<Ref>, b: seq<Ref>, k: Variable)
    ensures Occurrences(a + b, k) == Occurrences(a, k) + Occurrences(b, k)
    decreases |b|
  {
    if b == [] {
      assert a + b == a;
    } else {
      var most, last := b[..|b| - 1], b[|b| - 1];
      OccurrencesAppend(a, most, k);
      OccurrencesGrow(a + most, last, k);
      OccurrencesGrow(most, last, k);
      assert a + b == a + most + [last] && b == most + [last];
    }
  }

  /** VariableCount on one scope. */
  method CountVars(refs: seq<Ref>, count: map<Variable, nat>) returns (r: map<Variable, nat>)
    ensures forall k :: CountOf(r, k) == CountOf(count, k) + Occurrences(refs, k)
    ensures (forall k :: k in count ==> Key(k) == k) ==> forall k :: k in r ==> Key(k) == k
  {
    r := count;
    for i := 0 to |refs|
      invariant forall k :: CountOf(r, k) == CountOf(count, k) + Occurrences(refs[..i], k)
      invariant (forall k :: k in count ==> Key(k) == k) ==> forall k :: k in r ==> Key(k) == k
    {
      forall k ensures Occurrences(refs[..i + 1], k) ==
        Occurrences(refs[..i], k) + if refs[i].Own? && Key(refs[i].variable) == k then 1 else 0
      {
        OccurrencesGrow(refs[..i], refs[i], k);
        assert refs[..i + 1] == refs[..i] + [refs[i]];
      }
      if refs[i].Own? {
        var v := Key(refs[i].variable);
        r := r[v := CountOf(r, v) + 1];
      }
    }
    assert refs[..|refs|] == refs;
  }

  /** What VarAssign makes of a slot. */
  function Assigned(ids: map<Variable, nat>, r: Ref): Ref {
    if r.Own? && Key(r.variable) in ids then Pooled(ids[Key(r.variable)]) else r
  }

  /** VarAssign on one scope. */
  method AssignVars(s: Scope, ids: map<Variable, nat>)
    modifies s`vars
    ensures |s.vars| == |old(s.vars)|
    ensures forall i :: 0 <= i < |s.vars| ==> s.vars[i] == Assigned(ids, old(s.vars)[i])
  {
    for i := 0 to |s.vars|
      invariant |s.vars| == |old(s.vars)|
      invariant forall j :: 0 <= j < |s.vars| ==>
        s.vars[j] == if j < i then Assigned(ids, old(s.vars)[j]) else old(s.vars)[j]
    {
      if s.vars[i].Own? {
        var key := Key(s.vars[i].variable);
        if key in ids {
          s.vars := s.vars[i := Pooled(ids[key])];
        }
      }
    }
  }

  /** ids leads from exactly the repeated variables to their entries in pool, none of which is in
      the first n. */
  ghost predicate Indexes(ids: map<Variable, nat>, pool: seq<Variable>, n: nat, k: Variable)
    requires n <= |pool|
  {
    k in ids ==> n <= ids[k] < |pool| && Key(pool[ids[k]]) == k
  }

  /** The pool of the variables that occur more than once, in no particular order. */
  method BuildPool(count: map<Variable, nat>, pool: seq<Variable>)
    returns (r: seq<Variable>, ids: map<Variable, nat>)
    requires Numbered(pool) && forall k :: k in count ==> Key(k) == k
    ensures Numbered(r) && pool <= r
    ensures forall k :: k in ids <==> k in count && count[k] > 1
    ensures forall k :: Indexes(ids, r, |pool|, k)
    ensures forall i, j :: |pool| <= i < j < |r| ==> Key(r[i]) != Key(r[j])
    ensures forall i :: |pool| <= i < |r| ==> Key(r[i]) in ids
  {
    r, ids := pool, map[];
    var left := count.Keys;
    while left != {}
      invariant left <= count.Keys && Numbered(r) && pool <= r
      invariant forall k :: k in ids <==> k in count && k !in left && count[k] > 1
      invariant forall k :: Indexes(ids, r, |pool|, k)
      invariant forall i, j :: |pool| <= i < j < |r| ==> Key(r[i]) != Key(r[j])
      invariant forall i :: |pool| <= i < |r| ==> Key(r[i]) in ids
      decreases left
    {
      var k :| k in left;
      left := left - {k};
      if count[k] > 1 {
        ghost var known, shorter := ids, r;
        ids := ids[k := |r|];
        r := r + [k.(id := Some(|r|))];
        forall x ensures Indexes(ids, r, |pool|, x) {
          assert Indexes(known, shorter, |pool|, x) && Key(k) == k;
        }
      }
    }
  }

  ghost function AllVars(scopes: seq<Scope>): seq<Ref>
    reads scopes`vars
  {
    if scopes == [] then [] else AllVars(scopes[..|scopes| - 1]) + scopes[|scopes| - 1].vars
  }

  /** Every pooled slot points into the pool. */
  ghost predicate InPool(refs: seq<Ref>, pool: seq<Variable>) {
    forall i :: 0 <= i < |refs| && refs[i].Pooled? ==> refs[i].id < |pool|
  }

  /** now reads back as was, and pools exactly what occurs more than once in all. */
  ghost predicate PooledRight(
      was: seq<Ref>, now: seq<Ref>, before: seq<Variable>, after: seq<Variable>, all: seq<Ref>)
  {
    |now| == |was| && forall i :: 0 <= i < |was| ==>
      && Restore(after, now[i]) == Restore(before, was[i]) && Restore(after, now[i]).Some?
      && (was[i].Pooled? ==> now[i] == was[i])
      && (was[i].Own? ==> (now[i].Pooled? <==> Occurrences(all, Key(was[i].variable)) > 1))
      && (now[i].Own? ==> now[i] == was[i])
  }

  lemma AssignedReadsBack(
      was: seq<Ref>, now: seq<Ref>, before: seq<Variable>, after: seq<Variable>, all: seq<Ref>,
      ids: map<Variable, nat>)
    requires Numbered(before) && Numbered(after) && before <= after && InPool(was, before)
    requires forall k :: Indexes(ids, after, |before|, k)
    requires forall k :: k in ids <==> Occurrences(all, k) > 1
    requires |now| == |was| && forall i :: 0 <= i < |was| ==> now[i] == Assigned(ids, was[i])
    ensures PooledRight(was, now, before, after, all)
  {
    forall i | 0 <= i < |was|
      ensures Restore(after, now[i]) == Restore(before, was[i]) && Restore(after, now[i]).Some?
    {
      match was[i] {
        case Pooled(id) =>
          LookupIsPosition(before, id);
          LookupIsPosition(after, id);
        case Own(v) =>
          assert Indexes(ids, after, |before|, Key(v));
          if Key(v) in ids { LookupIsPosition(after, ids[Key(v)]); }
      }
    }
  }

  class Pool {
    var variables: seq<Variable>

    constructor ()
      ensures variables == []
    {
      variables := [];
    }

    /** compress_var over the scopes in the order they are visited. */
    method CompressVar(scopes: seq<Scope>)
      requires Numbered(variables) && forall s :: s in scopes ==> InPool(s.vars, variables)
      requires forall i, j :: 0 <= i < j < |scopes| ==> scopes[i] != scopes[j]
      modifies this, scopes`vars
      ensures Numbered(variables) && old(variables) <= variables
      ensures forall i, j :: |old(variables)| <= i < j < |variables| ==> Key(variables[i]) != Key(variables[j])
      ensures forall s :: s in scopes ==>
        PooledRight(old(s.vars), s.vars, old(variables), variables, old(AllVars(scopes)))
    {
      hide Occurrences, Numbered, InPool, PooledRight, Indexes, CountOf, Assigned;
      var count: map<Variable, nat> := map[];
      ghost var all := AllVars(scopes);
      NothingCounted();
      for i := 0 to |scopes|
        invariant forall k :: k in count ==> Key(k) == k
        invariant Counts(count, AllVars(scopes[..i]))
        modifies {}
      {
        ghost var was := count;
        count := CountVars(scopes[i].vars, count);
        CountsNext(was, count, AllVars(scopes[..i]), scopes[i].vars);
        AllVarsGrow(scopes, i);
      }
      assert scopes[..|scopes|] == scopes;
      ghost var before := variables;
      var pool, ids := BuildPool(count, variables);
      variables := pool;
      CountsRepeated(count, all, ids);
      for i := 0 to |scopes|
        invariant variables == pool
        invariant forall j :: i <= j < |scopes| ==> scopes[j].vars == old(scopes[j].vars)
        invariant forall j :: 0 <= j < i ==>
          PooledRight(old(scopes[j].vars), scopes[j].vars, before, pool, all)
      {
        AssignVars(scopes[i], ids);
        AssignedReadsBack(old(scopes[i].vars), scopes[i].vars, before, pool, all, ids);
      }
    }
  }

  ghost predicate Counts(count: map<Variable, nat>, refs: seq<Ref>) {
    forall k :: CountOf(count, k) == Occurrences(refs, k)
  }

  lemma NothingCounted()
    ensures Counts(map[], [])
  {
  }

  lemma CountsNext(was: map<Variable, nat>, now: map<Variable, nat>, a: seq<Ref>, b: seq<Ref>)
    requires Counts(was, a) && forall k :: CountOf(now, k) == CountOf(was, k) + Occurrences(b, k)
    ensures Counts(now, a + b)
  {
    forall k ensures CountOf(now, k) == Occurrences(a + b, k) {
      OccurrencesAppend(a, b, k);
      assert CountOf(was, k) == Occurrences(a, k);
    }
  }

  lemma CountsRepeated(count: map<Variable, nat>, all: seq<Ref>, ids: map<Variable, nat>)
    requires Counts(count, all) && forall k :: k in ids <==> k in count && count[k] > 1
    ensures forall k :: k in ids <==> Occurrences(all, k) > 1
  {
    forall k ensures k in ids <==> Occurrences(all, k) > 1 {
      assert CountOf(count, k) == Occurrences(all, k);
    }
  }

  lemma AllVarsGrow(scopes: seq<Scope>, i: nat)
    requires i < |scopes|
    ensures AllVars(scopes[..i + 1]) == AllVars(scopes[..i]) + scopes[i].vars
  {
    assert scopes[..i + 1][..i] == scopes[..i];
  }
}
