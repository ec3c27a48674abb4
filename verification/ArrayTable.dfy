/** How the replay provider learns about packed arrays: build_array_table of
    tools/hgdb-replay/vpi.cc reads the names of array elements and grows, per bus, a tree of element
    handles. Full sets of names give the full rectangular tables the bit ranges rely on. */
module ArrayTable {
  import opened Common
  import opened Text
  import opened Tokens
  import opened PackedArrays

  /** For this index the size of the array wraps to zero; for larger ones std::stoul throws. */
  const INDEX_LIMIT: nat := 0xFFFF_FFFF_FFFF_FFFF

  // ---- names

  /** The regular expression for names of interest: a digit right behind a dot or a bracket. */
  predicate NamesElement(name: string) {
    exists i :: 0 <= i < |name| - 1 && (name[i] == '.' || name[i] == '[') && IsDigit(name[i + 1])
  }

  /** Number of tokens up to the last one that is not a number. */
  function RootLength(tokens: seq<string>): (n: nat)
    ensures n <= |tokens| && (n > 0 ==> !AllDigits(tokens[n - 1]))
    ensures forall i :: n <= i < |tokens| ==> AllDigits(tokens[i])
  {
    if tokens == [] || !AllDigits(tokens[|tokens| - 1]) then |tokens|
    else RootLength(tokens[..|tokens| - 1])
  }

  function Numbers(tokens: seq<string>): (s: seq<nat>)
    ensures |s| == |tokens|
  {
    if tokens == [] then [] else [Numeral(tokens[0], 10)] + Numbers(tokens[1..])
  }

  /** A bus and the indices of an element on it. */
  datatype Place = Place(root: string, slices: seq<nat>)

  /** None: every token is a number. */
  function PlaceOf(name: string): Option<Place> {
    var tokens := TokensOf(name, DELIMITERS);
    var n := RootLength(tokens);
    if n == 0 then None
    else Some(Place(Join(tokens[..n], '.'), Numbers(tokens[n..])))
  }

  // ---- the tree of handles

  type Table = map<Handle, seq<Handle>>

  /** The handle a path of indices leads to. */
  function Follow(t: Table, h: Handle, path: seq<nat>): Option<Handle>
    decreases path
  {
    if path == [] then Some(h)
    else if h in t && path[0] < |t[h]| && t[h][path[0]] != 0 then Follow(t, t[h][path[0]], path[1..])
    else None
  }

  /** On a walk that stays within the arrays, a handle is missing exactly when the path leads nowhere. */
  lemma {:induction false} MissingExactly(t: Table, h: Handle, path: seq<nat>)
    requires Walkable(t, h, path)
    ensures Missing(t, h, path) <==> Follow(t, h, path).None?
    decreases path
  {
    if path != [] && t[h][path[0]] != 0 {
      MissingExactly(t, t[h][path[0]], path[1..]);
    }
  }

  /** The sizes met on the way are those of the arrays the path leads to, step by step. */
  lemma {:induction false} SizesExactly(t: Table, h: Handle, path: seq<nat>, k: nat)
    requires Walkable(t, h, path) && !Missing(t, h, path) && k < |path|
    ensures var g := Follow(t, h, path[..k]);
      g.Some? && g.value in t && Sizes(t, h, path)[k] == |t[g.value]|
    decreases path
  {
    if k > 0 {
      assert path[..k][0] == path[0] && path[..k][1..] == path[1..][..k - 1];
      SizesExactly(t, t[h][path[0]], path[1..], k - 1);
    }
  }

  lemma {:induction false} FollowSnoc(t: Table, h: Handle, path: seq<nat>, i: nat)
    ensures Follow(t, h, path + [i]) ==
      match Follow(t, h, path)
      case None => None
      case Some(x) => if x in t && i < |t[x]| && t[x][i] != 0 then Some(t[x][i]) else None
    decreases path
  {
    if path == [] {
      assert [] + [i] == [i] && [i][1..] == [];
      assert Follow(t, h, [i]) == if h in t && i < |t[h]| && t[h][i] != 0 then Follow(t, t[h][i], []) else None;
    } else {
      assert (path + [i])[1..] == path[1..] + [i];
      if h in t && path[0] < |t[h]| {
        FollowSnoc(t, t[h][path[0]], path[1..], i);
      }
    }
  }

  lemma {:induction false} FollowPrefix(t: Table, h: Handle, p: seq<nat>, path: seq<nat>)
    requires p <= path && Follow(t, h, path).Some?
    ensures Follow(t, h, p).Some?
    decreases p
  {
    if p != [] {
      FollowPrefix(t, t[h][p[0]], p[1..], path[1..]);
    }
  }

  /** resize and assignment of one element of array_map_. */
  function Resized(a: seq<Handle>, n: nat): (r: seq<Handle>)
    ensures |r| == if |a| < n then n else |a|
    ensures forall i :: 0 <= i < |r| ==> r[i] == if i < |a| then a[i] else 0
  {
    if |a| < n then a + seq(n - |a|, _ => 0) else a
  }

  function ArrayOf(t: Table, h: Handle): seq<Handle> {
    if h in t then t[h] else []
  }

  /** The table after a new handle became element i of h. */
  function Grown(t: Table, h: Handle, i: nat, child: Handle): Table {
    t[h := Resized(ArrayOf(t, h), i + 1)[i := child]]
  }

  predicate Free(t: Table, h: Handle, i: nat) {
    i < |ArrayOf(t, h)| ==> t[h][i] == 0
  }

  /** Everything in the table is below the next handle; null has no elements. */
  ghost predicate Below(t: Table, next: Handle) {
    && 0 !in t
    && (forall h :: h in t ==> h < next)
    && (forall h, i :: h in t && 0 <= i < |t[h]| ==> t[h][i] < next)
  }

  /** Arrays end with an element that exists. */
  ghost predicate Trimmed(t: Table) {
    forall h :: h in t ==> t[h] != [] && t[h][|t[h]| - 1] != 0
  }

  lemma {:induction false} FollowBelow(t: Table, next: Handle, h: Handle, path: seq<nat>)
    requires Below(t, next) && h < next
    ensures Follow(t, h, path).Some? ==> Follow(t, h, path).value < next
    decreases path
  {
    if path != [] && h in t && path[0] < |t[h]| {
      FollowBelow(t, next, t[h][path[0]], path[1..]);
    }
  }

  /** The path that ends at the new element i of h. */
  predicate Opens(t: Table, h: Handle, i: nat, x: Handle, path: seq<nat>) {
    path != [] && path[|path| - 1] == i && Follow(t, x, path[..|path| - 1]) == Some(h)
  }

  lemma GrownElement(t: Table, h: Handle, i: nat, child: Handle, y: Handle, j: nat)
    requires Below(t, child) && h < child && Free(t, h, i)
    ensures var g := Grown(t, h, i, child);
      && child !in g
      && (y in g && j < |g[y]| && g[y][j] != 0 <==>
            (y in t && j < |t[y]| && t[y][j] != 0) || (y == h && j == i && child != 0))
      && (y in t && j < |t[y]| && t[y][j] != 0 ==> g[y][j] == t[y][j])
      && (y == h && j == i ==> g[y][j] == child)
  {
  }

  /** A new element opens one path, to itself, and leaves all others as they are. */
  lemma {:induction false} FollowGrown(t: Table, h: Handle, i: nat, child: Handle, x: Handle, path: seq<nat>)
    requires Below(t, child) && h < child && x < child && Free(t, h, i)
    ensures Follow(Grown(t, h, i, child), x, path) ==
      if Follow(t, x, path).Some? then Follow(t, x, path)
      else if Opens(t, h, i, x, path) then Some(child) else None
    decreases |path|
  {
    if path != [] {
      hide Below, Grown, Free, Follow;
      var front, last := path[..|path| - 1], path[|path| - 1];
      assert path == front + [last];
      FollowGrown(t, h, i, child, x, front);
      FollowSnoc(t, x, front, last);
      FollowSnoc(Grown(t, h, i, child), x, front, last);
      FollowBelow(t, child, x, front);
      GrownElement(t, h, i, child, if Follow(t, x, front).Some? then Follow(t, x, front).value else child, last);
    }
  }

  // ---- what holds of a table that grew from names

  /** Different paths from the buses lead to different handles. */
  ghost predicate Branches(t: Table, roots: set<Handle>) {
    forall r, s, p, q ::
      r in roots && s in roots && Follow(t, r, p).Some? && Follow(t, r, p) == Follow(t, s, q) ==>
        r == s && p == q
  }

  ghost predicate Tree(t: Table, roots: set<Handle>, next: Handle) {
    Below(t, next) && Trimmed(t) && Branches(t, roots) && forall r :: r in roots ==> 0 < r < next
  }

  lemma TreeGrows(t: Table, roots: set<Handle>, next: Handle, h: Handle, i: nat)
    requires Tree(t, roots, next) && 0 < h < next && Free(t, h, i)
    ensures Tree(Grown(t, h, i, next), roots, next + 1)
  {
    var g := Grown(t, h, i, next);
    GrownShape(t, next, h, i);
    hide Free, Below, Trimmed, Follow, Grown;
    forall r, s, p, q | r in roots && s in roots && Follow(g, r, p).Some? && Follow(g, r, p) == Follow(g, s, q)
      ensures r == s && p == q
    {
      FollowBelow(t, next, r, p);
      FollowBelow(t, next, s, q);
      FollowGrown(t, h, i, next, r, p);
      FollowGrown(t, h, i, next, s, q);
      if Follow(t, r, p).None? {
        OpensOnly(t, roots, h, i, s, q[..|q| - 1], r, p);
        assert q == q[..|q| - 1] + [i];
      }
    }
  }

  lemma GrownShape(t: Table, next: Handle, h: Handle, i: nat)
    requires Below(t, next) && Trimmed(t) && 0 < h < next && Free(t, h, i)
    ensures Below(Grown(t, h, i, next), next + 1) && Trimmed(Grown(t, h, i, next))
  {
    var was, now := ArrayOf(t, h), Grown(t, h, i, next)[h];
    assert |now| == if |was| < i + 1 then i + 1 else |was|;
  }

  lemma NewRoot(t: Table, roots: set<Handle>, next: Handle)
    requires Tree(t, roots, next) && next > 0
    ensures Tree(t, roots + {next}, next + 1)
    ensures forall p :: Follow(t, next, p).Some? ==> p == []
  {
    forall r, s, p, q | r in roots + {next} && s in roots + {next} && Follow(t, r, p).Some?
      && Follow(t, r, p) == Follow(t, s, q)
      ensures r == s && p == q
    {
      if r in roots { FollowBelow(t, next, r, p); }
      if s in roots { FollowBelow(t, next, s, q); }
    }
  }

  /** Every bus has exactly the listed elements: those within its dimensions. */
  ghost predicate Full(t: Table, r: Handle, dims: seq<nat>) {
    forall p :: Follow(t, r, p).Some? <==> InBounds(dims, p)
  }

  /** A bus with exactly the elements of its dimensions has a full rectangular table. */
  lemma {:induction false} FullIsRectangular(t: Table, r: Handle, dims: seq<nat>, p: seq<nat>)
    requires Trimmed(t) && Full(t, r, dims) && InBounds(dims, p)
    requires forall k :: 0 <= k < |dims| ==> dims[k] > 0
    ensures Follow(t, r, p).Some? && Rectangular(t, Follow(t, r, p).value, dims[|p|..])
    decreases |dims| - |p|
  {
    assert Follow(t, r, p).Some?;
    var h := Follow(t, r, p).value;
    if |p| < |dims| {
      ElementThere(t, r, dims, p, 0);
      forall k | 0 <= k < dims[|p|]
        ensures k < |t[h]| && t[h][k] != 0 && Rectangular(t, t[h][k], dims[|p|..][1..])
      {
        ElementThere(t, r, dims, p, k);
        FullIsRectangular(t, r, dims, p + [k]);
        assert dims[|p|..][1..] == dims[|p + [k]|..];
      }
      NoMoreElements(t, r, dims, p);
      ElementThere(t, r, dims, p, dims[|p|] - 1);
      assert dims[|p|..][0] == dims[|p|] == |t[h]|;
    } else {
      assert dims[|p|..] == [];
    }
  }

  lemma ElementThere(t: Table, r: Handle, dims: seq<nat>, p: seq<nat>, k: nat)
    requires Full(t, r, dims) && InBounds(dims, p) && |p| < |dims| && k < dims[|p|]
    ensures Follow(t, r, p).Some? && InBounds(dims, p + [k])
    ensures var h := Follow(t, r, p).value;
      h in t && k < |t[h]| && t[h][k] != 0 && Follow(t, r, p + [k]) == Some(t[h][k])
  {
    var longer := p + [k];
    assert InBounds(dims, longer);
    assert Follow(t, r, longer).Some? && Follow(t, r, p).Some?;
    FollowSnoc(t, r, p, k);
  }

  lemma NoMoreElements(t: Table, r: Handle, dims: seq<nat>, p: seq<nat>)
    requires Trimmed(t) && Full(t, r, dims) && |p| < |dims|
    requires Follow(t, r, p).Some? && Follow(t, r, p).value in t
    ensures |t[Follow(t, r, p).value]| <= dims[|p|]
  {
    var last := |t[Follow(t, r, p).value]| - 1;
    FollowSnoc(t, r, p, last);
    assert Follow(t, r, p + [last]).Some?;
    assert (p + [last])[|p|] == last;
  }

  lemma ValuesGrow(m: map<string, Handle>, n: string, h: Handle)
    requires n !in m
    ensures m[n := h].Values == m.Values + {h}
  {
    forall x | x in m.Values ensures x in m[n := h].Values {
      var k :| k in m && m[k] == x;
      assert m[n := h][k] == x;
    }
    assert m[n := h][n] == h;
  }

  /** The table after a path below a bus was filled in: that path and its prefixes are new. */
  ghost predicate Extends(t: Table, u: Table, roots: set<Handle>, root: Handle, path: seq<nat>) {
    forall r, p :: r in roots ==> ExtendsAt(t, u, root, path, r, p)
  }

  ghost predicate ExtendsAt(t: Table, u: Table, root: Handle, path: seq<nat>, r: Handle, p: seq<nat>) {
    && (Follow(t, r, p).Some? ==> Follow(u, r, p) == Follow(t, r, p))
    && (Follow(u, r, p).Some? <==> Follow(t, r, p).Some? || (r == root && p <= path))
  }

  lemma PrefixOfSnoc(p: seq<nat>, path: seq<nat>, i: nat)
    ensures p <= path + [i] <==> p <= path || p == path + [i]
  {
    if p <= path + [i] && |p| <= |path| {
      assert p == (path + [i])[..|p|] == path[..|p|];
    }
  }

  lemma ExtendsByOld(t: Table, u: Table, roots: set<Handle>, root: Handle, path: seq<nat>, i: nat)
    requires root in roots && Extends(t, u, roots, root, path) && Follow(u, root, path + [i]).Some?
    ensures Extends(t, u, roots, root, path + [i])
  {
    forall r, p | r in roots ensures ExtendsAt(t, u, root, path + [i], r, p) {
      assert ExtendsAt(t, u, root, path, r, p);
      PrefixOfSnoc(p, path, i);
    }
  }

  lemma ExtendsByNew(t: Table, u: Table, roots: set<Handle>, next: Handle, root: Handle, path: seq<nat>, i: nat)
    requires Tree(u, roots, next) && root in roots && Extends(t, u, roots, root, path)
    requires Follow(u, root, path).Some? && 0 < Follow(u, root, path).value < next
    requires Free(u, Follow(u, root, path).value, i)
    ensures var g := Grown(u, Follow(u, root, path).value, i, next);
      Extends(t, g, roots, root, path + [i]) && Follow(g, root, path + [i]) == Some(next)
  {
    hide Free, Below, Trimmed, Follow, Grown;
    var h := Follow(u, root, path).value;
    assert (path + [i])[..|path|] == path;
    forall r, p | r in roots ensures ExtendsAt(t, Grown(u, h, i, next), root, path + [i], r, p) {
      assert ExtendsAt(t, u, root, path, r, p);
      PrefixOfSnoc(p, path, i);
      FollowGrown(u, h, i, next, r, p);
      OpensOnly(u, roots, h, i, root, path, r, p);
    }
    FollowGrown(u, h, i, next, root, path + [i]);
    FollowFree(u, root, path, i);
  }

  lemma FollowFree(u: Table, root: Handle, path: seq<nat>, i: nat)
    requires Follow(u, root, path).Some? && Free(u, Follow(u, root, path).value, i)
    ensures Follow(u, root, path + [i]).None?
  {
    FollowSnoc(u, root, path, i);
  }

  /** From the buses, only one path ends at element i of h. */
  lemma OpensOnly(u: Table, roots: set<Handle>, h: Handle, i: nat, root: Handle, path: seq<nat>, r: Handle, p: seq<nat>)
    requires Branches(u, roots) && root in roots && r in roots && Follow(u, root, path) == Some(h)
    ensures Opens(u, h, i, r, p) <==> r == root && p == path + [i]
  {
    hide Follow;
    assert (path + [i])[..|path|] == path;
    if p != [] {
      assert p == p[..|p| - 1] + [p[|p| - 1]];
    }
  }

  /** reconstruct_fullname. */
  function FullName(tokens: seq<string>): string {
    if tokens == [] then "" else tokens[0] + Indexed(tokens[1..])
  }

  function Indexed(tokens: seq<string>): (s: string)
    ensures s != "" ==> s[0] in DELIMITERS
  {
    if tokens == [] then ""
    else (if AllDigits(tokens[0]) then "[" + tokens[0] + "]" else "." + tokens[0]) + Indexed(tokens[1..])
  }

  lemma IndexedStep(t: string, rest: string)
    requires IsToken(t, DELIMITERS) && (rest == "" || rest[0] in DELIMITERS)
    ensures TokensOf("[" + t + "]" + rest, DELIMITERS) == [t] + TokensOf(rest, DELIMITERS)
    ensures TokensOf("." + t + rest, DELIMITERS) == [t] + TokensOf(rest, DELIMITERS)
  {
    hide TokensOf;
    assert "[" + t + "]" + rest == ['['] + (t + ([']'] + rest));
    DelimiterFirst('[', t + ([']'] + rest), DELIMITERS);
    WordFirst(t, [']'] + rest, DELIMITERS);
    DelimiterFirst(']', rest, DELIMITERS);
    assert "." + t + rest == ['.'] + (t + rest);
    DelimiterFirst('.', t + rest, DELIMITERS);
    WordFirst(t, rest, DELIMITERS);
  }

  lemma {:induction false} IndexedTokens(tokens: seq<string>)
    requires forall t :: t in tokens ==> IsToken(t, DELIMITERS)
    ensures TokensOf(Indexed(tokens), DELIMITERS) == tokens
  {
    if tokens == [] {
      assert TokensOf("", DELIMITERS) == [];
    } else {
      hide TokensOf, IsToken;
      assert tokens[0] in tokens && forall u :: u in tokens[1..] ==> u in tokens;
      IndexedTokens(tokens[1..]);
      IndexedStep(tokens[0], Indexed(tokens[1..]));
    }
  }

  lemma FullNameTokens(tokens: seq<string>)
    requires forall t :: t in tokens ==> IsToken(t, DELIMITERS)
    ensures TokensOf(FullName(tokens), DELIMITERS) == tokens
  {
    if tokens == [] {
      assert TokensOf("", DELIMITERS) == [];
    } else {
      hide TokensOf;
      assert tokens[0] in tokens && forall u :: u in tokens[1..] ==> u in tokens;
      IndexedTokens(tokens[1..]);
      WordFirst(tokens[0], Indexed(tokens[1..]), DELIMITERS);
    }
  }

  /** The reconstructed name stands for the same place. */
  lemma FullNamePlace(name: string)
    ensures PlaceOf(FullName(TokensOf(name, DELIMITERS))) == PlaceOf(name)
  {
    hide TokensOf, FullName, RootLength, Numbers;
    TokensAreWords(name, DELIMITERS);
    FullNameTokens(TokensOf(name, DELIMITERS));
  }

  // ---- what the provider remembers

  /** array_info_: the bus and the indices of an element. */
  type Info = map<Handle, (Handle, seq<nat>)>

  type Names = map<string, Handle>

  ghost predicate OneEach(hs: Names) {
    forall n, m :: n in hs && m in hs && hs[n] == hs[m] ==> n == m
  }

  /** Recorded indices lead to the element they are recorded for. */
  ghost predicate InfoFits(t: Table, hs: Names, info: Info) {
    forall l :: l in info ==> info[l].0 in hs.Values && Follow(t, info[l].0, info[l].1) == Some(l)
  }

  ghost predicate IsAt(hs: Names, info: Info, l: Handle, place: Place) {
    l in info && place.root in hs && info[l] == (hs[place.root], place.slices)
  }

  /** A full name leads to the element it names. */
  ghost predicate ElementsFit(hs: Names, info: Info, es: Names) {
    forall f :: f in es ==> PlaceOf(f).Some? && IsAt(hs, info, es[f], PlaceOf(f).value)
  }

  /** Some element is recorded at the path or below it. */
  ghost predicate Recorded(info: Info, r: Handle, p: seq<nat>) {
    exists l :: l in info && info[l].0 == r && p <= info[l].1
  }

  /** Every path that exists belongs to a recorded element, except perhaps one. */
  ghost predicate RecordedBut(t: Table, hs: Names, info: Info, root: Handle, path: seq<nat>) {
    forall r, p :: r in hs.Values && p != [] && Follow(t, r, p).Some? ==>
      Recorded(info, r, p) || (r == root && p <= path)
  }

  lemma ExtendsKeeps(t: Table, u: Table, hs: Names, info: Info, root: Handle, path: seq<nat>)
    requires Extends(t, u, hs.Values, root, path)
    requires InfoFits(t, hs, info) && RecordedBut(t, hs, info, 0, [])
    ensures InfoFits(u, hs, info) && RecordedBut(u, hs, info, root, path)
  {
    hide Follow;
    forall l | l in info ensures info[l].0 in hs.Values && Follow(u, info[l].0, info[l].1) == Some(l) {
      assert ExtendsAt(t, u, root, path, info[l].0, info[l].1);
    }
    forall r, p | r in hs.Values && p != [] && Follow(u, r, p).Some?
      ensures Recorded(info, r, p) || (r == root && p <= path)
    {
      assert ExtendsAt(t, u, root, path, r, p);
    }
  }

  function Emplaced<K, V>(m: map<K, V>, k: K, v: V): (r: map<K, V>)
    ensures k in r && r.Keys == m.Keys + {k} && forall x :: x in m ==> r[x] == m[x]
    ensures k !in m ==> r[k] == v
  {
    if k in m then m else m[k := v]
  }

  /** The element a path leads to is recorded with that path, now or before. */
  lemma EmplacedInfo(t: Table, hs: Names, info: Info, place: Place, leaf: Handle)
    requires Branches(t, hs.Values) && InfoFits(t, hs, info) && place.root in hs
    requires Follow(t, hs[place.root], place.slices) == Some(leaf)
    ensures var more := Emplaced(info, leaf, (hs[place.root], place.slices));
      && InfoFits(t, hs, more) && IsAt(hs, more, leaf, place)
      && (leaf in info ==> info[leaf] == (hs[place.root], place.slices))
  {
    hide Follow;
    assert hs[place.root] in hs.Values;
  }

  lemma EmplacedRecords(t: Table, hs: Names, info: Info, h: Handle, path: seq<nat>, leaf: Handle)
    requires RecordedBut(t, hs, info, h, path)
    requires leaf in info ==> info[leaf] == (h, path)
    ensures RecordedBut(t, hs, Emplaced(info, leaf, (h, path)), 0, [])
  {
    hide Follow;
    var more := Emplaced(info, leaf, (h, path));
    forall r, p | r in hs.Values && p != [] && Follow(t, r, p).Some? ensures Recorded(more, r, p) {
      if Recorded(info, r, p) {
        var l :| l in info && info[l].0 == r && p <= info[l].1;
        assert l in more;
      } else {
        assert leaf in more && more[leaf] == (h, path);
      }
    }
  }

  lemma EmplacedNames(hs: Names, info: Info, es: Names, name: string, place: Place, leaf: Handle)
    requires ElementsFit(hs, info, es) && PlaceOf(name) == Some(place) && place.root in hs
    requires IsAt(hs, Emplaced(info, leaf, (hs[place.root], place.slices)), leaf, place)
    ensures var f := FullName(TokensOf(name, DELIMITERS));
      var more := Emplaced(info, leaf, (hs[place.root], place.slices));
      ElementsFit(hs, more, Emplaced(es, f, leaf)) && IsAt(hs, more, Emplaced(es, f, leaf)[f], place)
  {
    FullNamePlace(name);
    hide FullName, PlaceOf, TokensOf;
  }

  /** The table has an element for the place. */
  ghost predicate HasPlace(hs: Names, info: Info, place: Place) {
    exists l :: IsAt(hs, info, l, place)
  }

  /** Buses learned since have no elements yet, and then one more element is recorded. */
  lemma OneMorePlace(t: Table, hs: Names, more: Names, info: Info, leaf: Handle, place: Place, other: Place)
    requires OneEach(more) && InfoFits(t, hs, info) && place.root in more
    requires forall n :: n in hs ==> n in more && more[n] == hs[n]
    requires IsAt(more, Emplaced(info, leaf, (more[place.root], place.slices)), leaf, place)
    ensures HasPlace(more, Emplaced(info, leaf, (more[place.root], place.slices)), other)
      <==> HasPlace(hs, info, other) || other == place
  {
    hide Follow;
    var grown := Emplaced(info, leaf, (more[place.root], place.slices));
    if l :| IsAt(hs, info, l, other) {
      assert IsAt(more, grown, l, other);
    }
    if l :| IsAt(more, grown, l, other) {
      if l == leaf {
        assert other == place;
      } else {
        assert l in info && info[l].0 in hs.Values;
        var n :| n in hs && hs[n] == info[l].0;
        assert n == other.root;
        assert IsAt(hs, info, l, other);
      }
    }
  }

  // ---- the provider

  class ReplayVpiProvider {
    /** Full names of instances and signals the waveform database knows. */
    const known: set<string>
    /** handle_mapping_, for names of the database and for names of array elements. */
    var handles: Names
    var elements: Names
    var arrayMap: Table
    var arrayInfo: Info
    var counter: Handle

    constructor (known: set<string>)
      ensures Valid() && this.known == known && arrayInfo == map[] && handles == map[] && elements == map[]
    {
      this.known := known;
      handles, elements, arrayMap, arrayInfo, counter := map[], map[], map[], map[], 1;
    }

    ghost predicate Valid()
      reads this
    {
      && Tree(arrayMap, handles.Values, counter) && counter > 0 && OneEach(handles)
      && InfoFits(arrayMap, handles, arrayInfo) && ElementsFit(handles, arrayInfo, elements)
      && RecordedBut(arrayMap, handles, arrayInfo, 0, [])
    }

    /** The place of a name whose bus the database knows. */
    ghost predicate Lands(name: string, place: Place) {
      PlaceOf(name) == Some(place) && place.root in known
    }

    /** vpi_handle_by_name for a name without indices. */
    method HandleByName(name: string) returns (h: Option<Handle>)
      requires Valid()
      modifies this`handles, this`counter
      ensures Valid()
      ensures h.Some? <==> name in old(handles) || name in known
      ensures h.Some? ==> name in handles && h.value == handles[name]
      ensures handles.Keys == if h.Some? then old(handles.Keys) + {name} else old(handles.Keys)
      ensures forall n :: n in old(handles) ==> n in handles && handles[n] == old(handles)[n]
    {
      if name in handles {
        return Some(handles[name]);
      }
      if name !in known {
        return None;
      }
      NewRoot(arrayMap, handles.Values, counter);
      ValuesGrow(handles, name, counter);
      h := Some(counter);
      handles := handles[name := counter];
      counter := counter + 1;
    }

    /** The loop that fills out the array table along one list of indices. */
    method FillOut(root: Handle, slices: seq<nat>) returns (leaf: Handle)
      requires Tree(arrayMap, handles.Values, counter) && root in handles.Values
      modifies this`arrayMap, this`counter
      ensures Tree(arrayMap, handles.Values, counter)
      ensures Extends(old(arrayMap), arrayMap, handles.Values, root, slices)
      ensures Follow(arrayMap, root, slices) == Some(leaf)
    {
      hide Extends, Tree, Follow, Grown, Resized, Free;
      leaf := root;
      FillStarts(root);
      for k := 0 to |slices|
        invariant Tree(arrayMap, handles.Values, counter)
        invariant Extends(old(arrayMap), arrayMap, handles.Values, root, slices[..k])
        invariant Follow(arrayMap, root, slices[..k]) == Some(leaf)
      {
        var i := slices[k];
        assert slices[..k + 1] == slices[..k] + [i];
        NotNull(root, slices[..k]);
        FollowSnoc(arrayMap, root, slices[..k], i);
        var elements := ArrayOf(arrayMap, leaf);
        if i < |elements| && elements[i] != 0 {
          leaf := elements[i];
          ExtendsByOld(old(arrayMap), arrayMap, handles.Values, root, slices[..k], i);
        } else {
          IsFree(arrayMap, leaf, i);
          ExtendsByNew(old(arrayMap), arrayMap, handles.Values, counter, root, slices[..k], i);
          TreeGrows(arrayMap, handles.Values, counter, leaf, i);
          arrayMap := Grown(arrayMap, leaf, i, counter);
          leaf := counter;
          counter := counter + 1;
        }
      }
      assert slices[..|slices|] == slices;
    }

    method Fit(slices: seq<nat>) returns (ok: bool)
      ensures ok <==> forall i :: 0 <= i < |slices| ==> slices[i] < INDEX_LIMIT
    {
      for k := 0 to |slices|
        invariant forall i :: 0 <= i < k ==> slices[i] < INDEX_LIMIT
      {
        if slices[k] >= INDEX_LIMIT {
          return false;
        }
      }
      ok := true;
    }

    /** One turn of the loop over the names of interest, for a bus that is known. */
    method AddElement(name: string, place: Place)
      requires Valid() && Lands(name, place)
      modifies this
      ensures Valid()
      ensures handles.Keys == old(handles.Keys) + {place.root}
      ensures forall n :: n in old(handles) ==> n in handles && handles[n] == old(handles)[n]
      ensures forall f :: f in old(elements) ==> f in elements && elements[f] == old(elements)[f]
      ensures forall l :: l in old(arrayInfo) ==> l in arrayInfo && arrayInfo[l] == old(arrayInfo)[l]
      ensures forall other ::
        HasPlace(handles, arrayInfo, other) <==> HasPlace(old(handles), old(arrayInfo), other) || other == place
      ensures Found(name, place, handles, arrayInfo, elements)
    {
      hide Below, Trimmed, Branches, Follow, Extends, InfoFits, ElementsFit, RecordedBut, HasPlace, IsAt, Emplaced, FullName, TokensOf, PlaceOf;
      ghost var t, hs, info := arrayMap, handles, arrayInfo;
      var h := HandleByName(place.root);
      var leaf := FillOut(h.value, place.slices);
      ExtendsKeeps(t, arrayMap, handles, info, h.value, place.slices);
      EmplacedInfo(arrayMap, handles, arrayInfo, place, leaf);
      EmplacedRecords(arrayMap, handles, arrayInfo, h.value, place.slices, leaf);
      EmplacedNames(handles, arrayInfo, elements, name, place, leaf);
      forall other
        ensures HasPlace(handles, Emplaced(info, leaf, (h.value, place.slices)), other)
          <==> HasPlace(hs, info, other) || other == place
      {
        OneMorePlace(t, hs, handles, info, leaf, place, other);
      }
      arrayInfo := Emplaced(arrayInfo, leaf, (h.value, place.slices));
      elements := Emplaced(elements, FullName(TokensOf(name, DELIMITERS)), leaf);
    }

    /** Some name of the set is the name of an array element at this place. */
    ghost predicate Named(names: set<string>, place: Place) {
      exists name :: name in names && NamesElement(name) && Lands(name, place)
    }

    ghost predicate Fitting(place: Place) {
      forall i :: 0 <= i < |place.slices| ==> place.slices[i] < INDEX_LIMIT
    }

    /** The full names of the set lead to elements that carry the bus and the indices. */
    ghost predicate Findable(names: set<string>, hs: Names, info: Info, es: Names) {
      forall name, place :: name in names && NamesElement(name) && Lands(name, place) ==>
        Found(name, place, hs, info, es)
    }

    ghost predicate Found(name: string, place: Place, hs: Names, info: Info, es: Names) {
      var f := FullName(TokensOf(name, DELIMITERS));
      f in es && IsAt(hs, info, es[f], place)
    }

    /** The names of the elements of a bus are those of all indices within the dimensions. */
    ghost predicate NamesAll(names: set<string>, root: string, dims: seq<nat>) {
      && dims != [] && (forall k :: 0 <= k < |dims| ==> dims[k] > 0)
      && forall v :: Named(names, Place(root, v)) <==> |v| == |dims| && InBounds(dims, v)
    }

    /** The table holds exactly the elements the names stand for. */
    ghost predicate Built(names: set<string>)
      reads this
    {
      && Valid() && Findable(names, handles, arrayInfo, elements)
      && Holds(names, handles, arrayInfo)
    }

    ghost predicate Holds(names: set<string>, hs: Names, info: Info) {
      forall place :: HasPlace(hs, info, place) <==> Named(names, place)
    }

    ghost predicate AllFit(names: set<string>) {
      forall place :: Named(names, place) ==> Fitting(place)
    }

    /** build_array_table. False: an index does not fit. */
    method BuildArrayTable(names: set<string>) returns (ok: bool)
      requires Valid() && arrayInfo == map[] && elements == map[]
      modifies this
      ensures ok <==> AllFit(names)
      ensures ok ==> Built(names)
    {
      var left := names;
      assert names - left == {};
      while left != {}
        invariant left <= names && Built(names - left) && AllFit(names - left)
        decreases left
      {
        hide Built, AllFit;
        var name :| name in left;
        ghost var done := names - left;
        left := left - {name};
        assert names - left == done + {name};
        ok := TakeName(done, name);
        if !ok {
          FewerFit(done + {name}, names);
          return;
        }
      }
      assert names - left == names;
      ok := true;
    }

    lemma FewerFit(some: set<string>, all: set<string>)
      requires some <= all
      ensures AllFit(all) ==> AllFit(some)
    {
      forall place | Named(some, place) ensures Named(all, place) {
        StaysNamed(some, all, place);
      }
    }

    /** One turn of the loop. */
    method TakeName(ghost done: set<string>, name: string) returns (ok: bool)
      requires Built(done) && AllFit(done)
      modifies this
      ensures ok <==> AllFit(done + {name})
      ensures ok ==> Built(done + {name})
    {
      hide Valid, Findable, Holds, AllFit, Fitting, Named, NamesElement, HasPlace, Found, Lands, PlaceOf;
      ghost var hs, info, es := handles, arrayInfo, elements;
      var place := PlaceOf(name);
      ok := true;
      if NamesElement(name) && place.Some? && place.value.root in known {
        assert Lands(name, place.value) by { LandsThere(name, place.value); }
        ok := Fit(place.value.slices);
        FitsMore(done, name, place.value);
        if ok {
          AddElement(name, place.value);
          StillFindable(done, name, place.value, hs, info, es, handles, arrayInfo, elements);
          HoldsMore(done, name, place.value, hs, info, handles, arrayInfo);
        }
      } else {
        NothingMore(done, name);
      }
    }

    lemma LandsThere(name: string, place: Place)
      requires PlaceOf(name) == Some(place) && place.root in known
      ensures Lands(name, place)
    {
    }

    lemma FitsMore(done: set<string>, name: string, place: Place)
      requires AllFit(done) && NamesElement(name) && Lands(name, place)
      ensures AllFit(done + {name}) <==> forall i :: 0 <= i < |place.slices| ==> place.slices[i] < INDEX_LIMIT
    {
      NamedMore(done, name, place);
      hide Named;
      assert Named(done + {name}, place);
    }

    lemma HoldsMore(done: set<string>, name: string, place: Place, hs: Names, info: Info, hs': Names, info': Info)
      requires Holds(done, hs, info) && NamesElement(name) && Lands(name, place)
      requires forall other :: HasPlace(hs', info', other) <==> HasPlace(hs, info, other) || other == place
      ensures Holds(done + {name}, hs', info')
    {
      NamedMore(done, name, place);
      hide Named;
      hide HasPlace;
    }

    lemma StillFindable(done: set<string>, name: string, place: Place, hs: Names, info: Info, es: Names,
                        hs': Names, info': Info, es': Names)
      requires Findable(done, hs, info, es) && Lands(name, place) && Found(name, place, hs', info', es')
      requires forall n :: n in hs ==> n in hs' && hs'[n] == hs[n]
      requires forall f :: f in es ==> f in es' && es'[f] == es[f]
      requires forall l :: l in info ==> l in info' && info'[l] == info[l]
      ensures Findable(done + {name}, hs', info', es')
    {
      hide NamesElement, PlaceOf, FullName, TokensOf;
      forall n, other | n in done + {name} && NamesElement(n) && Lands(n, other)
        ensures Found(n, other, hs', info', es')
      {
        if n in done {
          assert Found(n, other, hs, info, es);
        }
      }
    }

    lemma NothingMore(done: set<string>, name: string)
      requires !(NamesElement(name) && PlaceOf(name).Some? && PlaceOf(name).value.root in known)
      requires Findable(done, handles, arrayInfo, elements) && Holds(done, handles, arrayInfo)
      ensures Findable(done + {name}, handles, arrayInfo, elements) && Holds(done + {name}, handles, arrayInfo)
      ensures AllFit(done + {name}) == AllFit(done)
    {
      NotNamed(done, name);
      hide NamesElement, HasPlace, Named;
    }

    lemma NamedMore(done: set<string>, name: string, place: Place)
      requires NamesElement(name) && Lands(name, place)
      ensures forall other :: Named(done + {name}, other) <==> Named(done, other) || other == place
    {
      hide NamesElement;
      assert Named(done + {name}, place);
      forall other | Named(done, other) ensures Named(done + {name}, other) {
        var n :| n in done && NamesElement(n) && Lands(n, other);
        assert n in done + {name};
      }
    }

    lemma NotNamed(done: set<string>, name: string)
      requires !(NamesElement(name) && PlaceOf(name).Some? && PlaceOf(name).value.root in known)
      ensures forall other :: Named(done + {name}, other) <==> Named(done, other)
    {
      hide NamesElement;
      forall other | Named(done, other) ensures Named(done + {name}, other) {
        var n :| n in done && NamesElement(n) && Lands(n, other);
        assert n in done + {name};
      }
    }

    lemma StaysNamed(some: set<string>, all: set<string>, place: Place)
      requires some <= all && Named(some, place)
      ensures Named(all, place)
    {
      hide NamesElement;
    }

    /** Once the table is built, a bus all of whose elements were named has a full rectangular
        table, so that its bit ranges are disjoint and tile it. */
    lemma FullNamesGiveRectangles(names: set<string>, root: string, dims: seq<nat>)
      requires Built(names) && NamesAll(names, root, dims)
      ensures root in handles && Rectangular(arrayMap, handles[root], dims)
      ensures forall v :: |v| == |dims| && InBounds(dims, v) ==>
        Follow(arrayMap, handles[root], v).Some?
        && IsAt(handles, arrayInfo, Follow(arrayMap, handles[root], v).value, Place(root, v))
    {
      hide Named, Follow, Rectangular;
      var zeros := seq(|dims|, _ => 0);
      HasElement(names, root, dims, zeros);
      forall v | |v| == |dims| && InBounds(dims, v)
        ensures Follow(arrayMap, handles[root], v).Some?
        ensures IsAt(handles, arrayInfo, Follow(arrayMap, handles[root], v).value, Place(root, v))
      {
        HasElement(names, root, dims, v);
      }
      forall p ensures Follow(arrayMap, handles[root], p).Some? <==> InBounds(dims, p) {
        PathsAreIndices(names, root, dims, p);
      }
      NothingFollowed(arrayMap, handles[root]);
      FullIsRectangular(arrayMap, handles[root], dims, []);
      assert dims[0..] == dims;
    }

    /** So different elements get disjoint bits of the bus. */
    lemma NamedElementsApart(names: set<string>, root: string, dims: seq<nat>, width: nat, a: seq<nat>, b: seq<nat>)
      requires Built(names) && NamesAll(names, root, dims)
      requires Named(names, Place(root, a)) && Named(names, Place(root, b)) && a != b
      ensures root in handles
      ensures var r := RangeOf(arrayMap, handles[root], a, width); var s := RangeOf(arrayMap, handles[root], b, width);
        r.lo <= r.hi <= width && s.lo <= s.hi <= width && (r.hi <= s.lo || s.hi <= r.lo)
    {
      hide Built, Named, Rectangular, RangeOf;
      FullNamesGiveRectangles(names, root, dims);
      RangesApart(arrayMap, handles[root], dims, width, a, b);
    }

    /** A named element has the bit. */
    ghost predicate HasOwner(names: set<string>, root: string, width: nat, bit: nat)
      reads this`handles, this`arrayMap
    {
      root in handles
      && exists a :: Named(names, Place(root, a)) && PackedArrays.Has(RangeOf(arrayMap, handles[root], a, width), bit)
    }

    /** And every bit belongs to one exactly when the dimensions divide the bus. */
    lemma NamedElementsTile(names: set<string>, root: string, dims: seq<nat>, width: nat)
      requires Built(names) && NamesAll(names, root, dims)
      ensures (forall bit: nat :: bit < width ==> HasOwner(names, root, width, bit)) <==> Divides(dims, width)
    {
      FullNamesGiveRectangles(names, root, dims);
      RangesCover(arrayMap, handles[root], dims, width);
      forall bit: nat
        ensures HasOwner(names, root, width, bit) <==> Owned(arrayMap, handles[root], dims, width, bit)
      {
        OwnersAreNamed(names, root, dims, width, bit);
      }
    }

    lemma OwnersAreNamed(names: set<string>, root: string, dims: seq<nat>, width: nat, bit: nat)
      requires NamesAll(names, root, dims) && root in handles
      ensures HasOwner(names, root, width, bit) <==> Owned(arrayMap, handles[root], dims, width, bit)
    {
      hide Named, RangeOf;
      if HasOwner(names, root, width, bit) {
        var a :| Named(names, Place(root, a)) && PackedArrays.Has(RangeOf(arrayMap, handles[root], a, width), bit);
        assert InBounds(dims, a);
      }
      if Owned(arrayMap, handles[root], dims, width, bit) {
        var a :| |a| == |dims| && InBounds(dims, a) && PackedArrays.Has(RangeOf(arrayMap, handles[root], a, width), bit);
        assert Named(names, Place(root, a));
      }
    }

    lemma HasElement(names: set<string>, root: string, dims: seq<nat>, v: seq<nat>)
      requires Built(names) && NamesAll(names, root, dims) && |v| == |dims| && InBounds(dims, v)
      ensures root in handles && Follow(arrayMap, handles[root], v).Some?
      ensures IsAt(handles, arrayInfo, Follow(arrayMap, handles[root], v).value, Place(root, v))
    {
      hide Named, Follow;
      assert HasPlace(handles, arrayInfo, Place(root, v));
      var l :| IsAt(handles, arrayInfo, l, Place(root, v));
      assert arrayInfo[l].0 == handles[root] && arrayInfo[l].1 == v;
    }

    lemma PathsAreIndices(names: set<string>, root: string, dims: seq<nat>, p: seq<nat>)
      requires Built(names) && NamesAll(names, root, dims) && root in handles
      ensures Follow(arrayMap, handles[root], p).Some? <==> InBounds(dims, p)
    {
      hide Named, Follow;
      var h := handles[root];
      if Follow(arrayMap, h, p).Some? && p != [] {
        assert Recorded(arrayInfo, h, p);
        var l :| l in arrayInfo && arrayInfo[l].0 == h && p <= arrayInfo[l].1;
        assert IsAt(handles, arrayInfo, l, Place(root, arrayInfo[l].1));
        assert HasPlace(handles, arrayInfo, Place(root, arrayInfo[l].1));
      }
      if InBounds(dims, p) {
        var v := p + seq(|dims| - |p|, _ => 0);
        HasElement(names, root, dims, v);
        FollowPrefix(arrayMap, h, p, v);
      }
    }

    lemma FillStarts(root: Handle)
      ensures Extends(arrayMap, arrayMap, handles.Values, root, []) && Follow(arrayMap, root, []) == Some(root)
    {
      forall r, p | r in handles.Values ensures ExtendsAt(arrayMap, arrayMap, root, [], r, p) {
        assert p <= [] ==> p == [];
      }
    }

    lemma NotNull(root: Handle, p: seq<nat>)
      requires Tree(arrayMap, handles.Values, counter) && root in handles.Values
      requires Follow(arrayMap, root, p).Some?
      ensures 0 < Follow(arrayMap, root, p).value < counter
    {
      FollowBelow(arrayMap, counter, root, p);
      FollowNotNull(arrayMap, root, p);
    }
  }

  lemma {:induction false} FollowNotNull(t: Table, h: Handle, path: seq<nat>)
    requires h != 0 && Follow(t, h, path).Some?
    ensures Follow(t, h, path).value != 0
    decreases path
  {
    if path != [] { FollowNotNull(t, t[h][path[0]], path[1..]); }
  }

  lemma NothingFollowed(t: Table, h: Handle)
    ensures Follow(t, h, []) == Some(h)
  {
  }

  lemma IsFree(t: Table, h: Handle, i: nat)
    requires i < |ArrayOf(t, h)| ==> ArrayOf(t, h)[i] == 0
    ensures Free(t, h, i)
  {
  }
}
