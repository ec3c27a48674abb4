/** Reordering of scope trees when a symbol table is loaded: BlockReorderingVisitor of src/db.cc.
    Every block is sorted, takes its line from its first entry, and has neighbouring declarations
    or assignments of one statement merged. */
module ScopeReorder {
  import opened Common

  /** ScopeEntryType, in its numeric order. */
  datatype Kind = Generic | Declaration | Block | Assign | ModuleDef

  datatype VarDef = VarDef(name: string, value: string, rtl: bool, depth: nat)

  datatype Index = Index(variable: VarDef, min: nat, max: nat)

  /** A scope entry. uid stands for the identity of the object, which other tables point to;
      fields a kind does not have are empty. */
  datatype Entry = Entry(
    uid: nat, kind: Kind, line: nat, column: nat, condition: string,
    vars: seq<VarDef>, indices: seq<Index>, filename: string, scope: seq<Entry>)

  function KindRank(k: Kind): nat {
    match k
    case Generic => 0
    case Declaration => 1
    case Block => 2
    case Assign => 3
    case ModuleDef => 4
  }

  // ---- the three stable sorts

  /** The key of each pass: type first, then column, then line. */
  function PassKey(pass: nat, e: Entry): nat {
    match pass
    case 1 => KindRank(e.kind)
    case 2 => e.column
    case _ => e.line
  }

  /** Order established by passes 1 to n: the last pass weighs most. */
  ghost predicate Leq(n: nat, a: Entry, b: Entry) {
    n == 0 || PassKey(n, a) < PassKey(n, b)
    || (PassKey(n, a) == PassKey(n, b) && Leq(n - 1, a, b))
  }

  ghost predicate Sorted(n: nat, s: seq<Entry>) {
    forall i, j :: 0 <= i < j < |s| ==> Leq(n, s[i], s[j])
  }

  /** Puts e, which came first, in front of everything not smaller. */
  function Insert(pass: nat, e: Entry, s: seq<Entry>): seq<Entry> {
    if s == [] || PassKey(pass, e) <= PassKey(pass, s[0]) then [e] + s
    else [s[0]] + Insert(pass, e, s[1..])
  }

  function StableSort(pass: nat, s: seq<Entry>): seq<Entry> {
    if s == [] then [] else Insert(pass, s[0], StableSort(pass, s[1..]))
  }

  /** sort_block: by type, then by column, then by line. */
  function SortBlock(s: seq<Entry>): seq<Entry> {
    StableSort(3, StableSort(2, StableSort(1, s)))
  }

  lemma {:induction false} InsertElements(pass: nat, e: Entry, s: seq<Entry>)
    ensures multiset(Insert(pass, e, s)) == multiset(s) + multiset{e}
    ensures forall x :: x in Insert(pass, e, s) <==> x == e || x in s
  {
    if s == [] || PassKey(pass, e) <= PassKey(pass, s[0]) {
    } else {
      InsertElements(pass, e, s[1..]);
      assert s == [s[0]] + s[1..];
    }
  }

  lemma {:induction false} SortElements(pass: nat, s: seq<Entry>)
    ensures multiset(StableSort(pass, s)) == multiset(s)
    ensures forall x :: x in StableSort(pass, s) <==> x in s
  {
    if s != [] {
      SortElements(pass, s[1..]);
      InsertElements(pass, s[0], StableSort(pass, s[1..]));
      assert s == [s[0]] + s[1..];
    }
  }

  lemma {:induction false} InsertSorts(n: nat, e: Entry, s: seq<Entry>)
    requires n > 0 && Sorted(n, s) && forall x :: x in s ==> Leq(n - 1, e, x)
    ensures Sorted(n, Insert(n, e, s))
  {
    if s == [] {
    } else if PassKey(n, e) <= PassKey(n, s[0]) {
      forall j | 0 <= j < |s| ensures Leq(n, e, s[j]) {
        assert s[j] in s && (j > 0 ==> Leq(n, s[0], s[j]));
      }
    } else {
      assert forall x :: x in s[1..] ==> x in s;
      InsertSorts(n, e, s[1..]);
      InsertElements(n, e, s[1..]);
      var r := Insert(n, e, s[1..]);
      forall j | 0 <= j < |r| ensures Leq(n, s[0], r[j]) {
        assert r[j] in r;
        if r[j] != e {
          var k :| 0 <= k < |s[1..]| && s[1..][k] == r[j];
          assert s[k + 1] == r[j];
        }
      }
    }
  }

  /** A stable pass over a list ordered by the earlier passes orders it by all of them. */
  lemma {:induction false} PassSorts(n: nat, s: seq<Entry>)
    requires n > 0 && Sorted(n - 1, s)
    ensures Sorted(n, StableSort(n, s))
    decreases s
  {
    if s != [] {
      PassSorts(n, s[1..]);
      SortElements(n, s[1..]);
      forall x | x in StableSort(n, s[1..]) ensures Leq(n - 1, s[0], x) {
        var k :| 0 <= k < |s[1..]| && s[1..][k] == x;
        assert s[k + 1] == x;
      }
      InsertSorts(n, s[0], StableSort(n, s[1..]));
    }
  }

  lemma SortBlockSorts(s: seq<Entry>)
    ensures Sorted(3, SortBlock(s)) && multiset(SortBlock(s)) == multiset(s)
    ensures forall x :: x in SortBlock(s) <==> x in s
  {
    hide Leq;
    assert Sorted(0, s) by { LeqZero(s); }
    PassSorts(1, s);
    PassSorts(2, StableSort(1, s));
    PassSorts(3, StableSort(2, StableSort(1, s)));
    SortElements(1, s);
    SortElements(2, StableSort(1, s));
    SortElements(3, StableSort(2, StableSort(1, s)));
  }

  lemma LeqZero(s: seq<Entry>)
    ensures Sorted(0, s)
  {
  }

  /** a and b tie in every pass. */
  ghost predicate Ties(a: Entry, b: Entry) {
    a.line == b.line && a.column == b.column && a.kind == b.kind
  }

  /** The entries of s that tie with e, in order. */
  ghost function Tied(s: seq<Entry>, e: Entry): seq<Entry> {
    if s == [] then []
    else (if Ties(s[0], e) then [s[0]] else []) + Tied(s[1..], e)
  }

  lemma {:induction false} InsertKeepsTied(pass: nat, e: Entry, s: seq<Entry>, x: Entry)
    requires 1 <= pass <= 3
    ensures Tied(Insert(pass, e, s), x) == (if Ties(e, x) then [e] else []) + Tied(s, x)
  {
    if s == [] || PassKey(pass, e) <= PassKey(pass, s[0]) {
      assert ([e] + s)[1..] == s;
    } else {
      InsertKeepsTied(pass, e, s[1..], x);
      var r := Insert(pass, e, s[1..]);
      assert ([s[0]] + r)[1..] == r;
      assert !(Ties(e, x) && Ties(s[0], x));
    }
  }

  lemma {:induction false} SortKeepsTied(pass: nat, s: seq<Entry>, x: Entry)
    requires 1 <= pass <= 3
    ensures Tied(StableSort(pass, s), x) == Tied(s, x)
  {
    if s != [] {
      SortKeepsTied(pass, s[1..], x);
      InsertKeepsTied(pass, s[0], StableSort(pass, s[1..]), x);
    }
  }

  lemma {:induction false} TiedIn(s: seq<Entry>, e: Entry)
    requires e in s
    ensures Tied(s, e) != []
  {
    if s[0] != e {
      TiedIn(s[1..], e);
    }
  }

  lemma {:induction false} TiedOut(s: seq<Entry>, e: Entry)
    ensures Tied(s, e) != [] ==> exists k :: 0 <= k < |s| && Ties(s[k], e)
  {
    if s != [] && !Ties(s[0], e) {
      TiedOut(s[1..], e);
      if Tied(s[1..], e) != [] {
        var k :| 0 <= k < |s[1..]| && Ties(s[1..][k], e);
        assert Ties(s[k + 1], e);
      }
    }
  }

  /** The order of all three passes: line, then column, then type. */
  lemma LeqMeans(a: Entry, b: Entry)
    ensures Leq(3, a, b) <==>
      (a.line < b.line || (a.line == b.line &&
      (a.column < b.column || (a.column == b.column && KindRank(a.kind) <= KindRank(b.kind)))))
  {
    assert Leq(1, a, b) <==> PassKey(1, a) < PassKey(1, b) || (PassKey(1, a) == PassKey(1, b) && Leq(0, a, b));
    assert Leq(2, a, b) <==> PassKey(2, a) < PassKey(2, b) || (PassKey(2, a) == PassKey(2, b) && Leq(1, a, b));
  }

  lemma LeqBothWays(a: Entry, b: Entry)
    requires Leq(3, a, b) && Leq(3, b, a)
    ensures Ties(a, b)
  {
    LeqMeans(a, b);
    LeqMeans(b, a);
  }

  lemma LeqOfTies(a: Entry, b: Entry, c: Entry)
    requires Ties(b, c)
    ensures Leq(3, a, b) <==> Leq(3, a, c)
    ensures Leq(3, b, a) <==> Leq(3, c, a)
  {
    LeqMeans(a, b);
    LeqMeans(a, c);
    LeqMeans(b, a);
    LeqMeans(c, a);
  }

  /** The head of a sorted list is not above anything the list has a tie for. */
  lemma HeadIsLeast(s: seq<Entry>, e: Entry)
    requires Sorted(3, s) && s != [] && Tied(s, e) != []
    ensures Leq(3, s[0], e)
  {
    hide Leq;
    TiedOut(s, e);
    var k :| 0 <= k < |s| && Ties(s[k], e);
    LeqOfTies(s[0], s[k], e);
    LeqMeans(s[0], s[0]);
  }

  lemma NothingTied(s: seq<Entry>)
    ensures s == [] || Tied(s, s[0]) != Tied([], s[0])
  {
    if s != [] { TiedIn(s, s[0]); }
  }

  /** Sorted lists with the same ties in the same order are the same list. */
  lemma {:induction false} SortedUnique(a: seq<Entry>, b: seq<Entry>)
    requires Sorted(3, a) && Sorted(3, b) && forall x :: Tied(a, x) == Tied(b, x)
    ensures a == b
    decreases a
  {
    if a == [] {
      NothingTied(b);
    } else {
      TiedIn(a, a[0]);
      assert Tied(a, a[0]) == Tied(b, a[0]);
      TiedOut(b, a[0]);
      TiedIn(b, b[0]);
      assert Tied(a, b[0]) == Tied(b, b[0]);
      HeadIsLeast(a, b[0]);
      HeadIsLeast(b, a[0]);
      LeqBothWays(a[0], b[0]);
      assert Tied(a, a[0])[0] == a[0] && Tied(b, a[0])[0] == b[0];
      forall x ensures Tied(a[1..], x) == Tied(b[1..], x) {
        TiedRest(a, x);
        TiedRest(b, x);
        assert Tied(a, x) == Tied(b, x);
      }
      SortedUnique(a[1..], b[1..]);
      assert a == [a[0]] + a[1..] && b == [b[0]] + b[1..];
    }
  }

  lemma TiedRest(s: seq<Entry>, x: Entry)
    requires s != []
    ensures Tied(s[1..], x) == if Ties(s[0], x) then Tied(s, x)[1..] else Tied(s, x)
  {
  }

  /** Sorting a sorted block moves nothing. */
  lemma SortIsIdempotent(s: seq<Entry>)
    requires Sorted(3, s)
    ensures SortBlock(s) == s
  {
    hide Leq, Tied, StableSort;
    SortBlockSorts(s);
    forall x ensures Tied(SortBlock(s), x) == Tied(s, x) {
      SortKeepsTied(1, s, x);
      SortKeepsTied(2, StableSort(1, s), x);
      SortKeepsTied(3, StableSort(2, StableSort(1, s)), x);
    }
    SortedUnique(SortBlock(s), s);
  }

  // ---- merging

  predicate HasIndex(e: Entry) {
    e.kind.Assign? && e.indices != []
  }

  /** t, which follows e, belongs to the same statement. */
  predicate CanMerge(e: Entry, t: Entry) {
    (e.kind.Assign? || e.kind.Declaration?)
    && t.kind == e.kind && t.line == e.line && t.column == e.column && t.condition == e.condition
    && !HasIndex(t) && !HasIndex(e)
  }

  function Absorb(e: Entry, t: Entry): Entry {
    e.(vars := e.vars + t.vars)
  }

  function Merge(s: seq<Entry>): seq<Entry>
    decreases |s|
  {
    if |s| < 2 then s
    else if CanMerge(s[0], s[1]) then Merge([Absorb(s[0], s[1])] + s[2..])
    else [s[0]] + Merge(s[1..])
  }

  /** Two declarations, or two assignments without indices, at one place under one condition. */
  ghost predicate OneStatement(a: Entry, b: Entry) {
    && ((a.kind == Declaration && b.kind == Declaration)
        || (a.kind == Assign && b.kind == Assign && a.indices == [] && b.indices == []))
    && a.line == b.line && a.column == b.column && a.condition == b.condition
  }

  /** Nothing is left to merge: no two neighbours are parts of one statement. */
  ghost predicate Unmergeable(s: seq<Entry>) {
    forall i :: 0 < i < |s| ==> !OneStatement(s[i - 1], s[i])
  }

  /** x differs from y in its variables only. */
  ghost predicate SameStatement(x: Entry, y: Entry) {
    x == y || ((x.kind.Assign? || x.kind.Declaration?) && x == y.(vars := x.vars))
  }

  lemma {:induction false} MergeElements(s: seq<Entry>)
    ensures s != [] ==> Merge(s) != [] && SameStatement(Merge(s)[0], s[0])
    ensures forall x :: x in Merge(s) ==> exists k :: 0 <= k < |s| && SameStatement(x, s[k])
    decreases |s|
  {
    if |s| < 2 {
      forall x | x in s ensures exists k :: 0 <= k < |s| && SameStatement(x, s[k]) {
        assert SameStatement(x, s[0]);
      }
    } else if CanMerge(s[0], s[1]) {
      var t := [Absorb(s[0], s[1])] + s[2..];
      MergeElements(t);
      forall x | x in Merge(t) ensures exists k :: 0 <= k < |s| && SameStatement(x, s[k]) {
        var k :| 0 <= k < |t| && SameStatement(x, t[k]);
        if k == 0 { assert SameStatement(x, s[0]); } else { assert t[k] == s[k + 1]; }
      }
    } else {
      MergeElements(s[1..]);
      forall x | x in Merge(s) ensures exists k :: 0 <= k < |s| && SameStatement(x, s[k]) {
        if x == s[0] {
          assert SameStatement(x, s[0]);
        } else {
          var k :| 0 <= k < |s[1..]| && SameStatement(x, s[1..][k]);
          assert s[1..][k] == s[k + 1];
        }
      }
    }
  }

  lemma {:induction false} MergeIsFinal(s: seq<Entry>)
    ensures Unmergeable(Merge(s))
    decreases |s|
  {
    if |s| < 2 {
    } else if CanMerge(s[0], s[1]) {
      MergeIsFinal([Absorb(s[0], s[1])] + s[2..]);
    } else {
      MergeIsFinal(s[1..]);
      MergeElements(s[1..]);
    }
  }

  lemma {:induction false} NothingToMerge(s: seq<Entry>)
    requires Unmergeable(s)
    ensures Merge(s) == s
  {
    if |s| >= 2 {
      assert !OneStatement(s[0], s[1]);
      assert Unmergeable(s[1..]) by {
        forall i | 0 < i < |s[1..]| ensures !OneStatement(s[1..][i - 1], s[1..][i]) {
          assert !OneStatement(s[i], s[i + 1]);
        }
      }
      NothingToMerge(s[1..]);
    }
  }

  function AllVars(s: seq<Entry>): seq<VarDef> {
    if s == [] then [] else s[0].vars + AllVars(s[1..])
  }

  /** A run of parts of one statement becomes one entry, the first, with all their variables in
      order. */
  lemma {:induction false} RunBecomesOne(s: seq<Entry>)
    requires s != [] && forall k :: 0 < k < |s| ==> OneStatement(s[0], s[k])
    ensures Merge(s) == [s[0].(vars := AllVars(s))]
    decreases |s|
  {
    assert s[0].vars + [] == s[0].vars;
    if |s| > 1 {
      var t := [Absorb(s[0], s[1])] + s[2..];
      RunBecomesOne(t);
      assert t[1..] == s[1..][1..];
      assert s[0].vars + s[1].vars + AllVars(s[2..]) == s[0].vars + (s[1].vars + AllVars(s[2..]));
    }
  }

  /** Where two neighbours are not parts of one statement, both sides are merged apart. */
  lemma {:induction false} MergesApart(a: seq<Entry>, b: seq<Entry>)
    requires a != [] && b != [] && !OneStatement(a[|a| - 1], b[0])
    ensures Merge(a + b) == Merge(a) + Merge(b)
    decreases |a|
  {
    assert (a + b)[1..] == a[1..] + b;
    if |a| == 1 {
      assert a[1..] + b == b && a + b == [a[0]] + b;
    } else if CanMerge(a[0], a[1]) {
      var t := [Absorb(a[0], a[1])] + a[2..];
      assert [Absorb(a[0], a[1])] + (a + b)[2..] == t + b;
      assert |a| == 2 ==> t == [Absorb(a[0], a[1])];
      MergesApart(t, b);
    } else {
      MergesApart(a[1..], b);
      assert [a[0]] + (Merge(a[1..]) + Merge(b)) == [a[0]] + Merge(a[1..]) + Merge(b);
    }
  }

  /** Types come in the order generic, declaration, block, assignment, module. */
  lemma TypesInOrder()
    ensures KindRank(Generic) < KindRank(Declaration) < KindRank(Block) < KindRank(Assign) < KindRank(ModuleDef)
  {
  }

  lemma {:induction false} MergeKeepsOrder(s: seq<Entry>)
    requires Sorted(3, s)
    ensures Sorted(3, Merge(s))
    decreases |s|
  {
    hide Leq;
    if |s| < 2 {
    } else if CanMerge(s[0], s[1]) {
      var t := [Absorb(s[0], s[1])] + s[2..];
      forall i, j | 0 <= i < j < |t| ensures Leq(3, t[i], t[j]) {
        assert t[j] == s[j + 1];
        if i > 0 { assert t[i] == s[i + 1]; } else { LeqOfTies(t[j], s[0], t[0]); }
      }
      MergeKeepsOrder(t);
    } else {
      var m := Merge(s[1..]);
      assert forall k :: 0 <= k < |s[1..]| ==> s[1..][k] == s[k + 1];
      MergeKeepsOrder(s[1..]);
      MergeElements(s[1..]);
      forall j | 0 <= j < |m| ensures Leq(3, s[0], m[j]) {
        assert m[j] in m;
        var k :| 0 <= k < |s[1..]| && SameStatement(m[j], s[1..][k]);
        assert Leq(3, s[0], s[k + 1]);
        LeqOfTies(s[0], s[k + 1], m[j]);
      }
    }
  }

  // ---- whole trees

  /** visit of the reordering visitor: a block after its children, modules only through theirs. */
  function Reorder(e: Entry): Entry
    decreases e, 0
  {
    match e.kind
    case Block =>
      var sorted := SortBlock(ReorderAll(e.scope));
      e.(line := if sorted == [] then e.line else sorted[0].line, scope := Merge(sorted))
    case ModuleDef => e.(scope := ReorderAll(e.scope))
    case _ => e
  }

  function ReorderAll(s: seq<Entry>): (r: seq<Entry>)
    ensures |r| == |s|
    decreases s
  {
    if s == [] then [] else [Reorder(s[0])] + ReorderAll(s[1..])
  }

  /** Every block of e is sorted by line, column and type, starts at the line of its first entry
      and has nothing left to merge. */
  ghost predicate Ordered(e: Entry)
    decreases e
  {
    (e.kind.Block? || e.kind.ModuleDef? ==> forall x :: x in e.scope ==> Ordered(x))
    && (e.kind.Block? ==>
      Sorted(3, e.scope) && Unmergeable(e.scope) && (e.scope != [] ==> e.line == e.scope[0].line))
  }

  lemma {:induction false} ReorderOrders(e: Entry)
    ensures Ordered(Reorder(e))
    decreases e, 0
  {
    hide Sorted, Merge, Unmergeable, SortBlock, ReorderAll;
    if e.kind.ModuleDef? {
      ReorderAllOrders(e.scope);
    } else if e.kind.Block? {
      ReorderAllOrders(e.scope);
      var all := ReorderAll(e.scope);
      SortBlockSorts(all);
      BlockIsOrdered(e, SortBlock(all));
    }
  }

  lemma BlockIsOrdered(e: Entry, s: seq<Entry>)
    requires e.kind.Block? && Sorted(3, s) && forall x :: x in s ==> Ordered(x)
    ensures Ordered(e.(line := if s == [] then e.line else s[0].line, scope := Merge(s)))
  {
    hide Sorted, Merge, Unmergeable;
    MergeKeepsOrder(s);
    MergeIsFinal(s);
    MergeElements(s);
    if s == [] { NothingToMergeInEmpty(); }
    forall x | x in Merge(s) ensures Ordered(x) {
      var k :| 0 <= k < |s| && SameStatement(x, s[k]);
      assert s[k] in s;
    }
  }

  lemma NothingToMergeInEmpty()
    ensures Merge([]) == []
  {
  }

  lemma {:induction false} ReorderAllOrders(s: seq<Entry>)
    ensures forall x :: x in ReorderAll(s) ==> Ordered(x)
    decreases s
  {
    if s != [] {
      ReorderOrders(s[0]);
      ReorderAllOrders(s[1..]);
    }
  }

  lemma {:induction false} OrderedIsFixed(e: Entry)
    requires Ordered(e)
    ensures Reorder(e) == e
    decreases e, 0
  {
    hide Sorted, Merge, Unmergeable, SortBlock, ReorderAll;
    if e.kind.ModuleDef? || e.kind.Block? {
      OrderedAreFixed(e.scope);
      if e.kind.Block? {
        SortIsIdempotent(e.scope);
        NothingToMerge(e.scope);
      }
    }
  }

  lemma {:induction false} OrderedAreFixed(s: seq<Entry>)
    requires forall x :: x in s ==> Ordered(x)
    ensures ReorderAll(s) == s
    decreases s
  {
    if s != [] {
      OrderedIsFixed(s[0]);
      OrderedAreFixed(s[1..]);
    }
  }

  /** Reordering again, as loading does once per root, moves, merges and renumbers nothing, so
      pointers taken after the first time stay right. */
  lemma ReorderIsIdempotent(e: Entry)
    ensures Reorder(Reorder(e)) == Reorder(e)
  {
    ReorderOrders(e);
    OrderedIsFixed(Reorder(e));
  }

  // ---- nothing is lost or invented

  /** What a statement is, apart from its variables. */
  datatype Statement = Statement(kind: Kind, line: nat, column: nat, condition: string, indices: seq<Index>)

  /** One variable of a declaration or assignment, or a plain statement. */
  datatype Occurrence = Occurrence(statement: Statement, variable: Option<VarDef>)

  function StatementOf(e: Entry): Statement {
    Statement(e.kind, e.line, e.column, e.condition, if e.kind.Assign? then e.indices else [])
  }

  ghost function OccursVars(at: Statement, vars: seq<VarDef>): multiset<Occurrence> {
    if vars == [] then multiset{} else multiset{Occurrence(at, Some(vars[0]))} + OccursVars(at, vars[1..])
  }

  ghost function Occurs(e: Entry): multiset<Occurrence>
    decreases e, 0
  {
    match e.kind
    case Generic => multiset{Occurrence(StatementOf(e), None)}
    case Declaration => OccursVars(StatementOf(e), e.vars)
    case Assign => OccursVars(StatementOf(e), e.vars)
    case _ => OccursAll(e.scope)
  }

  ghost function OccursAll(s: seq<Entry>): multiset<Occurrence>
    decreases s
  {
    if s == [] then multiset{} else Occurs(s[0]) + OccursAll(s[1..])
  }

  lemma {:induction false} OccursVarsAppend(at: Statement, a: seq<VarDef>, b: seq<VarDef>)
    ensures OccursVars(at, a + b) == OccursVars(at, a) + OccursVars(at, b)
  {
    if a == [] {
      assert a + b == b;
    } else {
      hide *;
      assert (a + b)[0] == a[0] && (a + b)[1..] == a[1..] + b;
      OccursVarsFirst(at, a);
      OccursVarsFirst(at, a + b);
      OccursVarsAppend(at, a[1..], b);
      Regroup(multiset{Occurrence(at, Some(a[0]))}, OccursVars(at, a[1..]), OccursVars(at, b));
    }
  }

  lemma OccursVarsFirst(at: Statement, a: seq<VarDef>)
    requires a != []
    ensures OccursVars(at, a) == multiset{Occurrence(at, Some(a[0]))} + OccursVars(at, a[1..])
  {
  }

  lemma Regroup<T>(a: multiset<T>, b: multiset<T>, c: multiset<T>)
    ensures a + (b + c) == (a + b) + c
  {
  }

  lemma OccursCons(e: Entry, s: seq<Entry>)
    ensures OccursAll([e] + s) == Occurs(e) + OccursAll(s)
  {
    assert ([e] + s)[1..] == s;
  }

  lemma {:induction false} InsertKeepsOccurrences(pass: nat, e: Entry, s: seq<Entry>)
    ensures OccursAll(Insert(pass, e, s)) == Occurs(e) + OccursAll(s)
  {
    hide Occurs, OccursAll;
    if s == [] || PassKey(pass, e) <= PassKey(pass, s[0]) {
      OccursCons(e, s);
    } else {
      InsertKeepsOccurrences(pass, e, s[1..]);
      OccursCons(s[0], Insert(pass, e, s[1..]));
      OccursCons(s[0], s[1..]);
      assert [s[0]] + s[1..] == s;
    }
  }

  lemma {:induction false} SortKeepsOccurrences(pass: nat, s: seq<Entry>)
    ensures OccursAll(StableSort(pass, s)) == OccursAll(s)
  {
    hide Occurs, OccursAll;
    if s != [] {
      SortKeepsOccurrences(pass, s[1..]);
      InsertKeepsOccurrences(pass, s[0], StableSort(pass, s[1..]));
      OccursCons(s[0], s[1..]);
      assert [s[0]] + s[1..] == s;
    }
  }

  lemma AbsorbKeepsOccurrences(e: Entry, t: Entry)
    requires CanMerge(e, t)
    ensures Occurs(Absorb(e, t)) == Occurs(e) + Occurs(t)
  {
    hide OccursVars, OccursAll;
    assert StatementOf(t) == StatementOf(e) == StatementOf(Absorb(e, t));
    OccursVarsAppend(StatementOf(e), e.vars, t.vars);
  }

  lemma {:induction false} MergeKeepsOccurrences(s: seq<Entry>)
    ensures OccursAll(Merge(s)) == OccursAll(s)
    decreases |s|
  {
    hide Occurs, OccursAll;
    if |s| >= 2 {
      OccursCons(s[0], s[1..]);
      assert [s[0]] + s[1..] == s;
      if CanMerge(s[0], s[1]) {
        var t := Absorb(s[0], s[1]);
        MergeKeepsOccurrences([t] + s[2..]);
        AbsorbKeepsOccurrences(s[0], s[1]);
        OccursCons(t, s[2..]);
        OccursCons(s[1], s[2..]);
        assert [s[1]] + s[2..] == s[1..];
      } else {
        MergeKeepsOccurrences(s[1..]);
        OccursCons(s[0], Merge(s[1..]));
      }
    }
  }

  /** Every occurrence of a statement and of each of its variables survives, exactly as often. */
  lemma {:induction false} ReorderKeepsOccurrences(e: Entry)
    ensures Occurs(Reorder(e)) == Occurs(e)
    decreases e, 0
  {
    hide OccursAll, Merge, StableSort, ReorderAll;
    if e.kind.ModuleDef? || e.kind.Block? {
      ReorderAllKeepsOccurrences(e.scope);
      if e.kind.Block? {
        var all := ReorderAll(e.scope);
        SortKeepsOccurrences(1, all);
        SortKeepsOccurrences(2, StableSort(1, all));
        SortKeepsOccurrences(3, StableSort(2, StableSort(1, all)));
        MergeKeepsOccurrences(SortBlock(all));
      }
    }
  }

  lemma {:induction false} ReorderAllKeepsOccurrences(s: seq<Entry>)
    ensures OccursAll(ReorderAll(s)) == OccursAll(s)
    decreases s
  {
    if s != [] {
      ReorderKeepsOccurrences(s[0]);
      ReorderAllKeepsOccurrences(s[1..]);
      assert ([Reorder(s[0])] + ReorderAll(s[1..]))[1..] == ReorderAll(s[1..]);
    }
  }

  // ---- the visitor at work on one block

  /** The entries not yet taken over by another. */
  function Live(s: seq<Option<Entry>>): seq<Entry> {
    if s == [] then []
    else (if s[0].Some? then [s[0].value] else []) + Live(s[1..])
  }

  lemma {:induction false} LiveAppend(a: seq<Option<Entry>>, b: seq<Option<Entry>>)
    ensures Live(a + b) == Live(a) + Live(b)
  {
    if a == [] {
      assert a + b == b;
    } else {
      var head := if a[0].Some? then [a[0].value] else [];
      assert (a + b)[0] == a[0] && (a + b)[1..] == a[1..] + b;
      assert Live(a + b) == head + Live(a[1..] + b) && Live(a) == head + Live(a[1..]);
      hide *;
      LiveAppend(a[1..], b);
    }
  }

  lemma {:induction false} LiveNone(s: seq<Option<Entry>>)
    requires forall x :: x in s ==> x.None?
    ensures Live(s) == []
  {
    if s != [] {
      assert s[0] in s && s[0].None?;
      LiveNone(s[1..]);
    }
  }

  /** A block entry whose children are already in order. */
  class BlockEntry {
    var line: nat
    /** A merged entry's place is empty until the clean-up. */
    var scope: seq<Option<Entry>>

    constructor (line: nat, entries: seq<Entry>)
      ensures this.line == line && Full() && Live(scope) == entries
    {
      this.line := line;
      this.scope := Filled(entries);
      new;
      LiveFilled(entries);
    }

    ghost predicate Full()
      reads this`scope
    {
      forall i :: 0 <= i < |scope| ==> scope[i].Some?
    }

    /** The inner cursor of merge_var: entry i takes over the entries of its statement. */
    method TakeOver(i: nat) returns (ghost next: nat)
      requires i < |scope| && forall k :: i <= k < |scope| ==> scope[k].Some?
      modifies this`scope
      ensures |scope| == old(|scope|) && scope[..i] == old(scope[..i])
      ensures i < next <= |scope| && scope[i].Some?
      ensures forall k :: i < k < next ==> scope[k].None?
      ensures forall k :: next <= k < |scope| ==> scope[k].Some?
      ensures Merge(old(Live(scope[i..]))) == [scope[i].value] + Merge(Live(scope[next..]))
    {
      hide Merge, Live, CanMerge;
      ghost var all := Live(scope[i..]);
      ghost var front := scope[..i];
      var j := i + 1;
      if scope[i].value.kind.Assign? || scope[i].value.kind.Declaration? {
        while j < |scope|
          invariant i < j <= |scope| == old(|scope|) && scope[..i] == front && scope[i].Some?
          invariant forall k :: i < k < j ==> scope[k].None?
          invariant forall k :: j <= k < |scope| ==> scope[k].Some?
          invariant Merge(Live(scope[i..])) == Merge(all)
        {
          LiveAt(scope, i, j);
          LiveAt(scope, j, j + 1);
          if !CanMerge(scope[i].value, scope[j].value) {
            break;
          }
          MergeHead(scope[i].value, scope[j].value, Live(scope[j + 1..]));
          ghost var rest := scope[j + 1..];
          scope := scope[i := Some(Absorb(scope[i].value, scope[j].value))][j := None];
          j := j + 1;
          assert scope[j..] == rest;
          LiveAt(scope, i, j);
        }
      } else if j < |scope| {
        OnlyAssignments(scope[i].value, scope[j].value);
      }
      next := j;
      LiveAt(scope, i, j);
      if j < |scope| {
        LiveAt(scope, j, j + 1);
      } else {
        LiveNone(scope[j..]);
      }
      MergeTail(scope[i].value, Live(scope[j..]));
    }

    /** merge_var: two cursors over the sorted scope, then the clean-up. */
    method MergeVar()
      requires Full()
      modifies this`scope
      ensures Full() && Live(scope) == Merge(old(Live(scope)))
    {
      hide Merge, Live, CanMerge;
      ghost var want := Merge(Live(scope));
      var i := 0;
      ghost var next := 0;
      assert scope[..0] == [] && scope[0..] == scope;
      LiveNone([]);
      while i < |scope|
        invariant 0 <= i <= next <= |scope| == old(|scope|)
        invariant forall k :: i <= k < next ==> scope[k].None?
        invariant forall k :: next <= k < |scope| ==> scope[k].Some?
        invariant Live(scope[..i]) + Merge(Live(scope[i..])) == want
      {
        ghost var front := scope[..i];
        if scope[i].Some? {
          next := TakeOver(i);
          LiveSkip(scope, i + 1, next);
          assert scope[..i] == front;
        } else {
          LiveSkip(scope, i, i + 1);
        }
        LiveGrows(scope, i);
        i := i + 1;
      }
      assert scope[..i] == scope && scope[i..] == [];
      NothingToMergeInEmpty();
      CleanUp();
    }

    method CleanUp()
      modifies this`scope
      ensures Full() && Live(scope) == old(Live(scope))
    {
      var kept := Live(scope);
      scope := Filled(kept);
      LiveFilled(kept);
    }

    /** sort_block. */
    method Sort()
      requires Full()
      modifies this`scope
      ensures Full() && Live(scope) == SortBlock(old(Live(scope)))
    {
      var sorted := SortBlock(Live(scope));
      scope := Filled(sorted);
      LiveFilled(sorted);
    }

    /** handle_after: brings the block to what Reorder says of it. */
    method HandleAfter()
      requires Full()
      modifies this
      ensures Full()
      ensures forall e: Entry ::
        e.kind.Block? && e.line == old(line) && ReorderAll(e.scope) == old(Live(scope)) ==>
        Reorder(e) == e.(line := line, scope := Live(scope))
    {
      hide Merge, SortBlock, ReorderAll;
      Sort();
      LiveOfFull(scope);
      if |scope| > 0 {
        line := scope[0].value.line;
      }
      MergeVar();
    }
  }

  function Filled(s: seq<Entry>): (r: seq<Option<Entry>>)
    ensures |r| == |s| && forall i :: 0 <= i < |s| ==> r[i] == Some(s[i])
  {
    if s == [] then [] else [Some(s[0])] + Filled(s[1..])
  }

  lemma {:induction false} LiveFilled(s: seq<Entry>)
    ensures Live(Filled(s)) == s
  {
    if s != [] {
      LiveFilled(s[1..]);
      assert Filled(s)[1..] == Filled(s[1..]);
    }
  }

  lemma {:induction false} LiveOfFull(s: seq<Option<Entry>>)
    requires forall i :: 0 <= i < |s| ==> s[i].Some?
    ensures |Live(s)| == |s| && forall i :: 0 <= i < |s| ==> Live(s)[i] == s[i].value
  {
    if s != [] {
      LiveOfFull(s[1..]);
    }
  }

  /** From i on: s[i], then whatever follows the empty places up to j. */
  lemma LiveAt(s: seq<Option<Entry>>, i: nat, j: nat)
    requires i < j <= |s| && s[i].Some? && forall k :: i < k < j ==> s[k].None?
    ensures Live(s[i..]) == [s[i].value] + Live(s[j..])
  {
    LiveSkip(s, i + 1, j);
    assert s[i..][1..] == s[i + 1..];
  }

  lemma LiveSkip(s: seq<Option<Entry>>, i: nat, j: nat)
    requires i <= j <= |s| && forall k :: i <= k < j ==> s[k].None?
    ensures Live(s[i..]) == Live(s[j..])
  {
    LiveNone(s[i..j]);
    LiveAppend(s[i..j], s[j..]);
    assert s[i..] == s[i..j] + s[j..];
  }

  lemma LiveGrows(s: seq<Option<Entry>>, i: nat)
    requires i < |s|
    ensures Live(s[..i + 1]) == Live(s[..i]) + if s[i].Some? then [s[i].value] else []
  {
    LiveAppend(s[..i], [s[i]]);
    assert s[..i + 1] == s[..i] + [s[i]];
    assert Live([s[i]]) == (if s[i].Some? then [s[i].value] else []) + Live([]);
  }

  lemma MergeHead(e: Entry, t: Entry, rest: seq<Entry>)
    requires CanMerge(e, t)
    ensures Merge([e] + ([t] + rest)) == Merge([Absorb(e, t)] + rest)
  {
    var s := [e] + ([t] + rest);
    assert s[0] == e && s[1] == t && s[2..] == rest;
  }

  lemma MergeTail(e: Entry, rest: seq<Entry>)
    requires rest != [] ==> !CanMerge(e, rest[0])
    ensures Merge([e] + rest) == [e] + Merge(rest)
  {
    assert ([e] + rest)[1..] == rest;
  }

  lemma OnlyAssignments(e: Entry, t: Entry)
    requires !e.kind.Assign? && !e.kind.Declaration?
    ensures !CanMerge(e, t)
  {
  }
}
