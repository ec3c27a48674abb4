/** Elements of packed arrays in the replay provider: the table of element handles, the bit range
    of an element on its bus, and what reading an element returns (tools/hgdb-replay/vpi.cc). */
module PackedArrays {
  import opened Common
  import opened PackedValues

  // ---- bit ranges by dimensions and indices

  datatype Range = Range(lo: nat, hi: nat)

  /** Indices into an array of the given dimensions, outermost first. */
  ghost predicate InBounds(dims: seq<nat>, idx: seq<nat>) {
    |idx| <= |dims| && forall k :: 0 <= k < |idx| ==> idx[k] < dims[k]
  }

  /** The size of one of d equal parts. */
  function Slice(width: nat, d: nat): nat
    requires d > 0
  {
    width / d
  }

  /** Where part i starts. */
  function Start(slice: nat, i: nat): nat {
    slice * i
  }

  /** Each dimension divides what the outer ones leave of the bus. */
  ghost predicate Divides(dims: seq<nat>, width: nat) {
    dims == [] || (dims[0] > 0 && width % dims[0] == 0 && Divides(dims[1..], Slice(width, dims[0])))
  }

  /** The bits idx selects out of width bits starting at lo. */
  function Select(dims: seq<nat>, idx: seq<nat>, lo: nat, width: nat): Range
    requires |idx| <= |dims| && forall k :: 0 <= k < |idx| ==> dims[k] > 0
  {
    if idx == [] then Range(lo, lo + width)
    else
      var slice := Slice(width, dims[0]);
      Select(dims[1..], idx[1..], lo + Start(slice, idx[0]), slice)
  }

  // ---- parts of a whole

  lemma {:induction false} MulLess(c: nat, a: nat, b: nat)
    ensures a < b ==> c * a + c <= c * b
  {
    if a + 1 < b {
      MulLess(c, a, b - 1);
      assert c * b == c * (b - 1) + c;
    } else {
      assert c * (a + 1) == c * a + c;
    }
  }

  /** Different parts are apart. */
  lemma PartsApart(slice: nat, i: nat, j: nat)
    requires i < j
    ensures Start(slice, i) + slice <= Start(slice, j)
  {
    MulLess(slice, i, j);
  }

  lemma FirstPart(slice: nat)
    ensures Start(slice, 0) == 0
  {
  }

  /** The parts fill the whole exactly when their number divides it. */
  lemma PartsFill(width: nat, d: nat)
    requires d > 0
    ensures Start(Slice(width, d), d) <= width
    ensures width % d == 0 <==> width == Start(Slice(width, d), d)
  {
    var slice := width / d;
    assert width == d * slice + width % d && slice * d == d * slice;
  }

  lemma PartFits(width: nat, d: nat, i: nat)
    requires d > 0 && i < d
    ensures Start(Slice(width, d), i) + Slice(width, d) <= width
  {
    hide Start, Slice;
    PartsApart(Slice(width, d), i, d);
    PartsFill(width, d);
  }

  /** The part a bit is in. */
  function PartOf(slice: nat, bit: nat): nat {
    if slice == 0 then 0 else bit / slice
  }

  lemma NoPart(slice: nat, d: nat)
    ensures slice == 0 ==> Start(slice, d) == 0
  {
  }

  lemma PartHas(slice: nat, d: nat, bit: nat)
    requires bit < Start(slice, d)
    ensures var i := PartOf(slice, bit); i < d && Start(slice, i) <= bit < Start(slice, i) + slice
  {
    NoPart(slice, d);
    if slice > 0 {
      var i := bit / slice;
      assert bit == slice * i + bit % slice;
      if i >= d && i > d {
        MulLess(slice, d, i);
      }
    }
  }

  // ---- ranges of elements

  lemma SelectStep(dims: seq<nat>, idx: seq<nat>, lo: nat, width: nat)
    requires |idx| <= |dims| && forall k :: 0 <= k < |idx| ==> dims[k] > 0
    ensures Select(dims, idx, lo, width) ==
      if idx == [] then Range(lo, lo + width)
      else Select(dims[1..], idx[1..], lo + Start(Slice(width, dims[0]), idx[0]), Slice(width, dims[0]))
  {
  }

  /** An element lies inside its array, whether or not the dimensions divide it. */
  lemma {:induction false} SelectWithin(dims: seq<nat>, idx: seq<nat>, lo: nat, width: nat)
    requires InBounds(dims, idx)
    ensures var r := Select(dims, idx, lo, width); lo <= r.lo <= r.hi <= lo + width
  {
    hide Select, Start, Slice;
    SelectStep(dims, idx, lo, width);
    if idx != [] {
      var slice := Slice(width, dims[0]);
      PartFits(width, dims[0], idx[0]);
      SelectWithin(dims[1..], idx[1..], lo + Start(slice, idx[0]), slice);
    }
  }

  /** An element lies in the part of its first index. */
  lemma SelectInside(dims: seq<nat>, idx: seq<nat>, lo: nat, width: nat)
    requires InBounds(dims, idx) && idx != []
    ensures var r := Select(dims, idx, lo, width); var slice := Slice(width, dims[0]);
      lo + Start(slice, idx[0]) <= r.lo <= r.hi <= (lo + Start(slice, idx[0])) + slice
  {
    hide Select, Start, Slice;
    SelectStep(dims, idx, lo, width);
    var slice := Slice(width, dims[0]);
    SelectWithin(dims[1..], idx[1..], lo + Start(slice, idx[0]), slice);
  }

  /** a comes first: at the first index in which they differ it has the smaller one. */
  ghost predicate Before(a: seq<nat>, b: seq<nat>)
    requires |a| == |b|
  {
    a != [] && (a[0] < b[0] || (a[0] == b[0] && Before(a[1..], b[1..])))
  }

  /** Elements lie on the bus in the order of their indices, the outer ones first. */
  lemma {:induction false} SelectOrdered(dims: seq<nat>, a: seq<nat>, b: seq<nat>, lo: nat, width: nat)
    requires InBounds(dims, a) && InBounds(dims, b) && |a| == |b| && Before(a, b)
    ensures Select(dims, a, lo, width).hi <= Select(dims, b, lo, width).lo
    decreases |a|
  {
    hide Select, Start, Slice;
    var slice := Slice(width, dims[0]);
    if a[0] == b[0] {
      SelectStep(dims, a, lo, width);
      SelectStep(dims, b, lo, width);
      SelectOrdered(dims[1..], a[1..], b[1..], lo + Start(slice, a[0]), slice);
    } else {
      SelectInside(dims, a, lo, width);
      SelectInside(dims, b, lo, width);
      PartsApart(slice, a[0], b[0]);
    }
  }

  function Product(dims: seq<nat>): nat {
    if dims == [] then 1 else dims[0] * Product(dims[1..])
  }

  /** Every element has as many bits as fit into the bus that often. */
  lemma {:induction false} SelectSize(dims: seq<nat>, idx: seq<nat>, lo: nat, width: nat)
    requires InBounds(dims, idx) && |idx| == |dims|
    ensures Product(dims) > 0
    ensures var r := Select(dims, idx, lo, width); r.hi - r.lo == width / Product(dims)
    decreases |dims|
  {
    hide Start;
    if dims != [] {
      var slice := Slice(width, dims[0]);
      SelectStep(dims, idx, lo, width);
      SelectSize(dims[1..], idx[1..], lo + Start(slice, idx[0]), slice);
      DivideTwice(width, dims[0], Product(dims[1..]));
    }
  }

  lemma DivideTwice(w: nat, a: nat, b: nat)
    requires a > 0 && b > 0
    ensures a * b > 0 && w / a / b == w / (a * b)
  {
    MulPositive(a, b);
    var q, r := w / a, w % a;
    var p, t := q / b, q % b;
    assert w == a * q + r;
    assert q == b * p + t;
    Expand(a, b, p, t, r);
    MulLess(a, t, b);
    hide *;
    Quotient(p, a * b, a * t + r);
  }

  lemma MulPositive(a: nat, b: nat)
    requires a > 0 && b > 0
    ensures a * b > 0
  {
  }

  lemma Expand(a: nat, b: nat, p: nat, t: nat, r: nat)
    ensures a * (b * p + t) + r == (a * b) * p + (a * t + r)
  {
  }

  /** Different elements have disjoint ranges. */
  lemma {:induction false} SelectDisjoint(dims: seq<nat>, a: seq<nat>, b: seq<nat>, lo: nat, width: nat)
    requires InBounds(dims, a) && InBounds(dims, b) && |a| == |b| && a != b
    ensures var r := Select(dims, a, lo, width); var s := Select(dims, b, lo, width);
      r.hi <= s.lo || s.hi <= r.lo
  {
    hide Select, Start, Slice;
    var slice := Slice(width, dims[0]);
    if a[0] == b[0] {
      assert a == [a[0]] + a[1..] && b == [b[0]] + b[1..];
      SelectStep(dims, a, lo, width);
      SelectStep(dims, b, lo, width);
      SelectDisjoint(dims[1..], a[1..], b[1..], lo + Start(slice, a[0]), slice);
    } else {
      SelectInside(dims, a, lo, width);
      SelectInside(dims, b, lo, width);
      if a[0] < b[0] {
        PartsApart(slice, a[0], b[0]);
      } else {
        PartsApart(slice, b[0], a[0]);
      }
    }
  }

  /** The element a bit belongs to. */
  function Owner(dims: seq<nat>, width: nat, bit: nat): (idx: seq<nat>)
    requires forall k :: 0 <= k < |dims| ==> dims[k] > 0
    ensures |idx| == |dims|
  {
    if dims == [] then []
    else
      var slice := Slice(width, dims[0]);
      var i := PartOf(slice, bit);
      [i] + Owner(dims[1..], slice, if Start(slice, i) <= bit then bit - Start(slice, i) else 0)
  }

  predicate Has(r: Range, bit: nat) { r.lo <= bit < r.hi }

  /** When the dimensions divide the bus, every bit of it is in the range of some element. */
  lemma {:induction false} SelectCovers(dims: seq<nat>, lo: nat, width: nat, bit: nat)
    requires bit < width && Divides(dims, width) && forall k :: 0 <= k < |dims| ==> dims[k] > 0
    ensures var idx := Owner(dims, width, bit);
      InBounds(dims, idx) && Has(Select(dims, idx, lo, width), lo + bit)
  {
    hide Select, Start, Slice, PartOf;
    var idx := Owner(dims, width, bit);
    SelectStep(dims, idx, lo, width);
    if dims != [] {
      var slice := Slice(width, dims[0]);
      PartsFill(width, dims[0]);
      PartHas(slice, dims[0], bit);
      var i := PartOf(slice, bit);
      var low := Start(slice, i);
      assert idx[0] == i && idx[1..] == Owner(dims[1..], slice, bit - low);
      SelectCovers(dims[1..], lo + low, slice, bit - low);
    }
  }

  /** The range of some element has the bit. */
  ghost predicate Covered(dims: seq<nat>, lo: nat, width: nat, bit: nat) {
    exists idx :: |idx| == |dims| && InBounds(dims, idx) && Has(Select(dims, idx, lo, width), lo + bit)
  }

  /** Dimensions that do not divide what they are to divide leave a bit over. */
  lemma {:induction false} LeavesOver(dims: seq<nat>, lo: nat, width: nat) returns (bit: nat)
    requires !Divides(dims, width) && forall k :: 0 <= k < |dims| ==> dims[k] > 0
    ensures bit < width && !Covered(dims, lo, width, bit)
  {
    hide Select, Start, Slice;
    var slice := Slice(width, dims[0]);
    PartsFill(width, dims[0]);
    PartFits(width, dims[0], 0);
    if width % dims[0] != 0 {
      bit := width - 1;
    } else {
      bit := LeavesOver(dims[1..], lo, slice);
    }
    forall idx | |idx| == |dims| && InBounds(dims, idx) ensures !Has(Select(dims, idx, lo, width), lo + bit) {
      NotHere(dims, idx, lo, width, bit);
    }
  }

  lemma NotHere(dims: seq<nat>, idx: seq<nat>, lo: nat, width: nat, bit: nat)
    requires |idx| == |dims| && InBounds(dims, idx) && dims != []
    requires var slice := Slice(width, dims[0]);
      || bit >= Start(slice, dims[0])
      || (bit < slice && !Covered(dims[1..], lo, slice, bit))
    ensures !Has(Select(dims, idx, lo, width), lo + bit)
  {
    hide Select, Start, Slice;
    var slice := Slice(width, dims[0]);
    SelectInside(dims, idx, lo, width);
    PartsApart(slice, idx[0], dims[0]);
    if bit < Start(slice, dims[0]) {
      FirstPart(slice);
      if idx[0] == 0 {
        SelectStep(dims, idx, lo, width);
        assert InBounds(dims[1..], idx[1..]);
        assert !Has(Select(dims[1..], idx[1..], lo, slice), lo + bit);
      } else {
        PartsApart(slice, 0, idx[0]);
      }
    }
  }

  /** The elements cover the bus exactly when each dimension divides what the outer ones leave. */
  lemma CoversExactly(dims: seq<nat>, width: nat)
    requires forall k :: 0 <= k < |dims| ==> dims[k] > 0
    ensures (forall bit: nat :: bit < width ==> Covered(dims, 0, width, bit)) <==> Divides(dims, width)
  {
    hide Select, Divides, Owner;
    if Divides(dims, width) {
      forall bit: nat | bit < width ensures Covered(dims, 0, width, bit) {
        SelectCovers(dims, 0, width, bit);
        assert Has(Select(dims, Owner(dims, width, bit), 0, width), 0 + bit);
      }
    } else {
      var bit := LeavesOver(dims, 0, width);
    }
  }

  // ---- reading a slice out of a recorded value

  /** vpi_get_value on an array element: nothing when the slice starts above the recorded bits. */
  function Extract(raw: string, r: Range): (v: Option<string>)
    requires r.lo <= r.hi
  {
    if r.lo >= |raw| then None
    else
      var hi := if r.hi < |raw| then r.hi else |raw|;
      Some(raw[|raw| - hi..|raw| - r.lo])
  }

  /** The slice denotes bits lo to hi of the recorded number, dropped leading zeros included. */
  lemma ExtractDenotes(raw: string, r: Range)
    requires r.lo < r.hi
    ensures (match Extract(raw, r) case Some(v) => Value(v) case None => 0)
      == Value(raw) / Pow2(r.lo) % Pow2(r.hi - r.lo)
  {
    hide Value, Pow2;
    if r.lo >= |raw| {
      ValueBound(raw);
      Pow2Grows(|raw|, r.lo);
      NoBits(Value(raw), Pow2(r.lo), Pow2(r.hi - r.lo));
    } else {
      var hi := if r.hi < |raw| then r.hi else |raw|;
      var top, mid, low := raw[..|raw| - hi], raw[|raw| - hi..|raw| - r.lo], raw[|raw| - r.lo..];
      assert raw == (top + mid) + low;
      Pow2Grows(|mid|, r.hi - r.lo);
      assert hi == |raw| ==> top == [];
      MiddleBits(top, mid, low, r.hi - r.lo);
    }
  }

  lemma NoBits(v: nat, d: nat, m: nat)
    requires v < d && 0 < m
    ensures v / d % m == 0
  {
    Quotient(0, d, v);
  }

  lemma MiddleBits(top: string, mid: string, low: string, size: nat)
    requires |mid| == size || (top == [] && Pow2(|mid|) <= Pow2(size))
    ensures Value(top + mid + low) / Pow2(|low|) % Pow2(size) == Value(mid)
  {
    ValueAppend(top + mid, low);
    ValueAppend(top, mid);
    ValueBound(low);
    ValueBound(mid);
    Quotient(Value(top + mid), Pow2(|low|), Value(low));
    Quotient(Value(top), Pow2(size), Value(mid));
  }

  lemma Quotient(q: nat, d: nat, r: nat)
    requires r < d
    ensures (q * d + r) / d == q && (q * d + r) % d == r
  {
    var n := q * d + r;
    assert n == d * (n / d) + n % d && q * d == d * q;
    MulLess(d, n / d, q);
    MulLess(d, q, n / d);
  }

  // ---- the table of element handles

  /** Handles are numbers; 0 is the null handle. */
  type Handle = nat

  /** Below handle h the table is a full rectangle of the given dimensions. */
  ghost predicate Rectangular(table: map<Handle, seq<Handle>>, h: Handle, dims: seq<nat>)
    decreases dims
  {
    dims == [] || (
      && h in table && |table[h]| == dims[0] > 0
      && forall k :: 0 <= k < dims[0] ==>
           table[h][k] != 0 && Rectangular(table, table[h][k], dims[1..]))
  }

  lemma {:induction false} RectangularDims(table: map<Handle, seq<Handle>>, h: Handle, dims: seq<nat>)
    requires Rectangular(table, h, dims)
    ensures forall k :: 0 <= k < |dims| ==> dims[k] > 0
    decreases dims
  {
    if dims != [] {
      assert table[h][0] != 0;
      RectangularDims(table, table[h][0], dims[1..]);
    }
  }

  /** get_array_info finds its way: every array it looks into exists and has the index. A null
      handle behind the first array ends the search. */
  ghost predicate Walkable(table: map<Handle, seq<Handle>>, h: Handle, idx: seq<nat>)
    decreases idx
  {
    idx != [] ==>
      && h in table && idx[0] < |table[h]|
      && (table[h][idx[0]] != 0 ==> Walkable(table, table[h][idx[0]], idx[1..]))
  }

  /** Some handle on the way is null. */
  predicate Missing(table: map<Handle, seq<Handle>>, h: Handle, idx: seq<nat>)
    decreases idx
  {
    idx != [] && h in table && idx[0] < |table[h]|
    && (table[h][idx[0]] == 0 || Missing(table, table[h][idx[0]], idx[1..]))
  }

  /** The sizes of the arrays on the way. */
  function Sizes(table: map<Handle, seq<Handle>>, h: Handle, idx: seq<nat>): (dims: seq<nat>)
    ensures |dims| == |idx| && forall k :: 0 <= k < |dims| ==> dims[k] > 0
    decreases idx
  {
    if idx == [] then []
    else if h in table && idx[0] < |table[h]| then
      [|table[h]|] + Sizes(table, table[h][idx[0]], idx[1..])
    else [1] + Sizes(table, 0, idx[1..])
  }

  /** The range computation of get_array_info: it walks down the table, dividing the width it is
      left with by the size of each array it meets, whatever the sizes of the others are. The
      first handle is not checked, so it is not null here. None: a null handle on the way. */
  method ArrayRange(table: map<Handle, seq<Handle>>, root: Handle, width: nat, idx: seq<nat>)
    returns (r: Option<Range>)
    requires idx != [] && Walkable(table, root, idx) && table[root][idx[0]] != 0
    ensures r == if Missing(table, root, idx) then None
      else Some(Select(Sizes(table, root, idx), idx, 0, width))
  {
    hide Select, Start, Slice;
    var slice := Slice(width, |table[root]|);
    var lo: nat := Start(slice, idx[0]);
    var hi: nat := lo + slice;
    var h := table[root][idx[0]];
    var k := 1;
    SelectStep(Sizes(table, root, idx), idx, 0, width);
    while k < |idx|
      invariant 1 <= k <= |idx| && h != 0 && lo <= hi
      invariant Walkable(table, h, idx[k..])
      invariant Missing(table, h, idx[k..]) == Missing(table, root, idx)
      invariant Select(Sizes(table, h, idx[k..]), idx[k..], lo, hi - lo)
        == Select(Sizes(table, root, idx), idx, 0, width)
    {
      assert idx[k..][0] == idx[k] && idx[k..][1..] == idx[k + 1..];
      SelectStep(Sizes(table, h, idx[k..]), idx[k..], lo, hi - lo);
      var elements := table[h];
      h := elements[idx[k]];
      if h == 0 {
        return None;
      }
      slice := Slice(hi - lo, |elements|);
      lo := lo + Start(slice, idx[k]);
      hi := lo + slice;
      k := k + 1;
    }
    SelectStep([], [], lo, hi - lo);
    r := Some(Range(lo, hi));
  }

  /** In a full rectangular table every element is found, and the sizes are the dimensions. */
  lemma {:induction false} RectangularWalk(table: map<Handle, seq<Handle>>, h: Handle, dims: seq<nat>, idx: seq<nat>)
    requires Rectangular(table, h, dims) && InBounds(dims, idx)
    ensures Walkable(table, h, idx) && !Missing(table, h, idx) && Sizes(table, h, idx) == dims[..|idx|]
    decreases idx
  {
    if idx != [] {
      assert table[h][idx[0]] != 0;
      RectangularWalk(table, table[h][idx[0]], dims[1..], idx[1..]);
      assert dims[..|idx|] == [dims[0]] + dims[1..][..|idx| - 1];
    }
  }

  lemma {:induction false} SelectPrefix(dims: seq<nat>, idx: seq<nat>, lo: nat, width: nat)
    requires InBounds(dims, idx)
    ensures Select(dims[..|idx|], idx, lo, width) == Select(dims, idx, lo, width)
  {
    hide Select, Start, Slice;
    SelectStep(dims, idx, lo, width);
    SelectStep(dims[..|idx|], idx, lo, width);
    if idx != [] {
      var slice := Slice(width, dims[0]);
      assert dims[..|idx|][1..] == dims[1..][..|idx| - 1];
      SelectPrefix(dims[1..], idx[1..], lo + Start(slice, idx[0]), slice);
    }
  }

  /** The bits an element gets from the sizes met on the way to it. */
  function RangeOf(table: map<Handle, seq<Handle>>, root: Handle, idx: seq<nat>, width: nat): Range {
    Select(Sizes(table, root, idx), idx, 0, width)
  }

  /** In a full rectangular table the ranges of different elements are disjoint and on the bus. */
  lemma RangesApart(table: map<Handle, seq<Handle>>, root: Handle, dims: seq<nat>, width: nat, a: seq<nat>, b: seq<nat>)
    requires Rectangular(table, root, dims)
    requires InBounds(dims, a) && InBounds(dims, b) && |a| == |b| && a != b
    ensures var r := RangeOf(table, root, a, width); var s := RangeOf(table, root, b, width);
      r.lo <= r.hi <= width && s.lo <= s.hi <= width && (r.hi <= s.lo || s.hi <= r.lo)
  {
    RangeIs(table, root, dims, a, width);
    RangeIs(table, root, dims, b, width);
    SelectWithin(dims, a, 0, width);
    SelectWithin(dims, b, 0, width);
    SelectDisjoint(dims, a, b, 0, width);
  }

  /** The range of some full index vector in the table has the bit. */
  ghost predicate Owned(table: map<Handle, seq<Handle>>, root: Handle, dims: seq<nat>, width: nat, bit: nat) {
    exists a :: |a| == |dims| && InBounds(dims, a) && Has(RangeOf(table, root, a, width), bit)
  }

  /** And they tile the bus exactly when the dimensions divide it. */
  lemma RangesCover(table: map<Handle, seq<Handle>>, root: Handle, dims: seq<nat>, width: nat)
    requires Rectangular(table, root, dims)
    ensures (forall bit: nat :: bit < width ==> Owned(table, root, dims, width, bit)) <==> Divides(dims, width)
  {
    RectangularDims(table, root, dims);
    CoversExactly(dims, width);
    forall bit: nat ensures Owned(table, root, dims, width, bit) <==> Covered(dims, 0, width, bit) {
      OwnedIsCovered(table, root, dims, width, bit);
    }
  }

  lemma OwnedIsCovered(table: map<Handle, seq<Handle>>, root: Handle, dims: seq<nat>, width: nat, bit: nat)
    requires Rectangular(table, root, dims)
    ensures Owned(table, root, dims, width, bit) <==> Covered(dims, 0, width, bit)
  {
    hide RangeOf, Rectangular;
    forall a | |a| == |dims| && InBounds(dims, a)
      ensures RangeOf(table, root, a, width) == Select(dims, a, 0, width)
    {
      RangeIs(table, root, dims, a, width);
    }
    if Covered(dims, 0, width, bit) {
      var a :| |a| == |dims| && InBounds(dims, a) && Has(Select(dims, a, 0, width), 0 + bit);
      assert Has(RangeOf(table, root, a, width), bit);
    }
    if Owned(table, root, dims, width, bit) {
      var a :| |a| == |dims| && InBounds(dims, a) && Has(RangeOf(table, root, a, width), bit);
      assert Has(Select(dims, a, 0, width), 0 + bit);
    }
  }

  lemma RangeIs(table: map<Handle, seq<Handle>>, root: Handle, dims: seq<nat>, idx: seq<nat>, width: nat)
    requires Rectangular(table, root, dims) && InBounds(dims, idx)
    ensures RangeOf(table, root, idx, width) == Select(dims, idx, 0, width)
  {
    RectangularWalk(table, root, dims, idx);
    SelectPrefix(dims, idx, 0, width);
  }
}
