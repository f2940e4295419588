/** bbox_flat and the linked-queue search bbox_to_intv. */
module BoxToIntervals {
  import opened Arithmetic
  import opened BitStrings
  import opened MachineWords
  import opened HilbertIndex
  import opened HilbertCode
  import opened AlignedCubes
  import opened Boxes
  import opened Intervals
  import opened LinkedQueue
  import opened Decomposition
  import opened SearchEnds

  // ----- corners

  /** Corner i of a box: bit d of i chooses the upper bound in dimension d. */
  function CornerOf(b: Box, i: nat): (p: Point)
    requires |b.lb| == |b.ub|
    ensures |p| == |b.lb|
  {
    var up := FromValue(i, |b.lb|);
    seq(|b.lb|, d requires 0 <= d < |b.lb| => if up[d] then b.ub[d] else b.lb[d])
  }

  lemma CornerInCube(m: nat, c: Cube, i: nat)
    requires c.base != [] && c.k <= m && InGrid(c.base, m - c.k)
    ensures InCube(c, CornerOf(CubeBox(c), i)) && InGrid(CornerOf(CubeBox(c), i), m)
    ensures FirstIndex(m, c) <= Index(|c.base|, m, CornerOf(CubeBox(c), i)) <= LastIndex(m, c)
  {
    var n, p := |c.base|, CornerOf(CubeBox(c), i);
    assert In(CubeBox(c), p);
    InCubeBox(c, p);
    forall d | 0 <= d < n
      ensures p[d] < Pow2(m)
    {
      CubeTop(c.base[d], m, c.k);
    }
    CubeInterval(n, m, c, p);
  }

  lemma CubeTop(b: nat, m: nat, k: nat)
    requires k <= m && b < Pow2(m - k)
    ensures Times(b, Pow2(k)) + Pow2(k) <= Pow2(m)
  {
    Pow2Add(m - k, k);
    TimesMonotone(b + 1, Pow2(m - k), Pow2(k));
  }

  /** A corner point is corner i for the i with a bit wherever the point is at the upper bound. */
  lemma WhichCorner(c: Cube, p: Point) returns (i: nat)
    requires IsCorner(p, c)
    ensures i < Pow2(|c.base|) && CornerOf(CubeBox(c), i) == p
    ensures (exists d :: 0 <= d < |p| && p[d] != CubeBox(c).lb[d]) ==> i > 0
  {
    var n, b := |c.base|, CubeBox(c);
    var up := seq(n, d requires 0 <= d < n => p[d] != b.lb[d]);
    i := Value(up);
    ValueBound(up);
    ValueField(up);
    if i == 0 {
      ValueZeros(n);
      ValueField(Zeros(n));
      assert up == Zeros(n);
    }
    assert CornerOf(b, i) == p;
  }

  lemma {:induction false} EvenCornerSum(b: seq<nat>, k: nat, p: Point)
    requires k > 0 && |p| == |b| && forall d :: 0 <= d < |b| ==> p[d] == Times(b[d], Pow2(k))
    ensures !Odd(Sum(p))
  {
    if p != [] {
      TimesDouble(b[0], Pow2(k - 1));
      EvenCornerSum(b[1..], k, p[1..]);
    }
  }

  lemma EvenProduct(n: nat, k: nat, x: nat)
    requires n >= 1 && k >= 1
    ensures !Odd(Times(x, Size(n, k)))
  {
    TimesAssociates(x, Size(n, k - 1), Pow2(n));
    TimesDouble(Times(x, Size(n, k - 1)), Pow2(n - 1));
  }

  /** The lower corner of a cube of more than one point is never its last point. */
  lemma LowerCornerNotLast(m: nat, c: Cube)
    requires c.base != [] && 0 < c.k <= m && InGrid(c.base, m - c.k)
    ensures Index(|c.base|, m, CubeBox(c).lb) != LastIndex(m, c)
  {
    hide Index;
    var n := |c.base|;
    IndexParity(n, m, CubeBox(c).lb);
    EvenCornerSum(c.base, c.k, CubeBox(c).lb);
    EvenProduct(n, c.k, Index(n, m - c.k, c.base));
    EvenProduct(n, c.k, 1);
    assert Times(1, Size(n, c.k)) == Size(n, c.k);
  }

  /** Corners of least and greatest index; the one of greatest index is visited after the lower corner. */
  lemma ExtremeCorners(m: nat, c: Cube) returns (first: nat, last: nat)
    requires c.base != [] && c.k <= m && InGrid(c.base, m - c.k)
    ensures first < Pow2(|c.base|) && Index(|c.base|, m, CornerOf(CubeBox(c), first)) == FirstIndex(m, c)
    ensures 0 < last < Pow2(|c.base|) && Index(|c.base|, m, CornerOf(CubeBox(c), last)) == LastIndex(m, c)
  {
    hide Index, PointAt, Size;
    var n, b := |c.base|, CubeBox(c);
    PointOfIndex(n, m - c.k, c.base);
    SizeSplit(n, m, c.k);
    HighLowOrder(Index(n, m - c.k, c.base), Size(n, c.k) - 1, Size(n, m - c.k), Size(n, c.k));
    IndexOfPoint(n, m, FirstIndex(m, c));
    IndexOfPoint(n, m, LastIndex(m, c));
    ExtremesAreCorners(n, m, c);
    first := WhichCorner(c, PointAt(n, m, FirstIndex(m, c)));
    last := WhichCorner(c, PointAt(n, m, LastIndex(m, c)));
    if last == 0 {
      assert CornerOf(b, 0) == b.lb by {
        LowerCorner(b);
      }
      if c.k > 0 {
        LowerCornerNotLast(m, c);
      }
      SinglePoint(c);
      last := 1;
    }
  }

  lemma LowerCorner(b: Box)
    requires |b.lb| == |b.ub|
    ensures CornerOf(b, 0) == b.lb
  {
    ValueZeros(|b.lb|);
    ValueField(Zeros(|b.lb|));
  }

  lemma SinglePoint(c: Cube)
    ensures c.k == 0 ==> CornerOf(CubeBox(c), 1) == CornerOf(CubeBox(c), 0)
    ensures c.base != [] ==> Pow2(|c.base|) >= 2
  {
    if c.k == 0 {
      assert Pow2(c.k) == 1;
      assert CubeBox(c).lb == CubeBox(c).ub;
    }
  }

  // ----- bbox_flat

  const MAX_WORD: nat := 0xFFFF_FFFF_FFFF_FFFF

  lemma MaxWord()
    ensures Pow2(WIDTH) == MAX_WORD + 1
  {
    assert Pow2(4) == 16;
    Pow2Add(4, 4);
    TimesIsProduct(16, 16);
    Pow2Add(8, 8);
    TimesIsProduct(256, 256);
    Pow2Add(16, 16);
    TimesIsProduct(65536, 65536);
    Pow2Add(32, 32);
    TimesIsProduct(0x1_0000_0000, 0x1_0000_0000);
  }

  lemma WordsOfPoint(coord: seq<Word>, p: Point, m: nat)
    requires |coord| == |p| && m <= WIDTH && InGrid(p, m)
    requires forall d :: 0 <= d < |p| ==> coord[d] == FromValue(p[d], WIDTH)
    ensures PointIn(coord) == p
  {
    Pow2Monotone(m, WIDTH);
    forall d | 0 <= d < |p|
      ensures Value(coord[d]) == p[d]
    {
      FieldValue(p[d], WIDTH);
    }
  }

  /** One turn of the corner loop: the index of corner i. */
  method VisitCorner(bb: Box, bpd: nat, i: nat, sfc_coord: array<Word>) returns (index: nat)
    requires 1 <= |bb.lb| == |bb.ub| < 32 && bpd >= 1 && |bb.lb| * bpd <= WIDTH && bpd <= WIDTH
    requires InGrid(CornerOf(bb, i), bpd) && sfc_coord.Length == |bb.lb|
    modifies sfc_coord
    ensures index == Index(|bb.lb|, bpd, CornerOf(bb, i))
  {
    hide Index, InGrid, PointIn;
    var dims := |bb.lb|;
    for k := 0 to dims
      invariant forall d :: 0 <= d < k ==> sfc_coord[d] == FromValue(bb.lb[d], WIDTH)
    {
      sfc_coord[k] := FromValue(bb.lb[k], WIDTH);
    }
    var up := FromValue(i, dims);
    var j := 0;
    while j < dims
      invariant 0 <= j <= dims
      invariant forall d :: 0 <= d < j ==> sfc_coord[d] == FromValue(CornerOf(bb, i)[d], WIDTH)
      invariant forall d :: j <= d < dims ==> sfc_coord[d] == FromValue(bb.lb[d], WIDTH)
    {
      if up[j] {
        sfc_coord[j] := FromValue(bb.ub[j], WIDTH);
      }
      j := j + 1;
    }
    WordsOfPoint(sfc_coord[..], CornerOf(bb, i), bpd);
    var w := HilbertC2I(dims, bpd, sfc_coord);
    index := Value(w);
  }

  /** The interval of an aligned cube, found by visiting the cube's corners. */
  method BBoxFlat(bb: Box, bpd: nat, ghost c: Cube) returns (itv: Intv)
    requires bb == CubeBox(c) && 1 <= |c.base| < 32 && bpd >= 1 && |c.base| * bpd <= WIDTH
    requires c.k <= bpd && InGrid(c.base, bpd - c.k)
    ensures itv == Flat(bpd, c)
  {
    hide Index, InGrid, CornerOf, FirstIndex, LastIndex, CubeBox;
    var dims := |bb.lb|;
    ghost var first, last := ExtremeCorners(bpd, c);
    var lb, ub := MAX_WORD, 0;
    FitsWord(dims, bpd, c);
    var sfc_coord := new Word[dims](_ => Zeros(WIDTH));
    for i := 0 to Pow2(dims)
      invariant 0 <= ub <= LastIndex(bpd, c) && FirstIndex(bpd, c) <= lb
      invariant forall l :: 0 <= l < i ==> lb <= Index(dims, bpd, CornerOf(bb, l))
      invariant forall l :: 0 < l < i ==>
        Index(dims, bpd, CornerOf(bb, l)) <= ub || Index(dims, bpd, CornerOf(bb, l)) < Index(dims, bpd, CornerOf(bb, 0))
    {
      CornerInCube(bpd, c, i);
      var index := VisitCorner(bb, bpd, i, sfc_coord);
      if index < lb {
        lb := index;
      } else if index > ub {
        ub := index;
      }
    }
    CornerInCube(bpd, c, first);
    CornerInCube(bpd, c, 0);
    itv := Intv(lb, ub);
  }

  lemma FitsWord(n: nat, m: nat, c: Cube)
    requires n == |c.base| && n >= 1 && m >= 1 && n * m <= WIDTH && c.k <= m && InGrid(c.base, m - c.k)
    ensures m <= WIDTH && FirstIndex(m, c) <= LastIndex(m, c) <= MAX_WORD
  {
    hide Index, Size, PointAt, InGrid;
    TimesIsProduct(n, m);
    TimesMonotone(1, n, m);
    assert Times(1, m) == m;
    PointOfIndex(n, m - c.k, c.base);
    SizeSplit(n, m, c.k);
    HighLowOrder(Index(n, m - c.k, c.base), Size(n, c.k) - 1, Size(n, m - c.k), Size(n, c.k));
    SizeIsPow2(n, m);
    Pow2Monotone(n * m, WIDTH);
    MaxWord();
  }

  // ----- bbox_to_intv

  /** The number of bits of n. */
  method ComputeBits(n: nat) returns (nr_bits: nat)
    ensures n < Pow2(nr_bits) && (n > 0 ==> nr_bits > 0 && Pow2(nr_bits - 1) <= n)
  {
    nr_bits := 0;
    var left := n;
    TimesZeroOne(n);
    TimesZeroOne(n + 1);
    while left != 0
      invariant Times(left, Pow2(nr_bits)) <= n < Times(left + 1, Pow2(nr_bits))
      invariant n > 0 && left == 0 ==> nr_bits > 0 && Pow2(nr_bits - 1) <= n
      decreases left
    {
      ghost var was := left;
      left := left / 2;
      TimesDouble(left, Pow2(nr_bits));
      TimesDouble(left + 1, Pow2(nr_bits));
      TimesMonotone(2 * left, was, Pow2(nr_bits));
      TimesMonotone(was + 1, 2 * left + 2, Pow2(nr_bits));
      nr_bits := nr_bits + 1;
    }
  }

  lemma BitsOfPow2(q: nat, b: nat)
    requires Pow2(q) < Pow2(b) && b > 0 && Pow2(b - 1) <= Pow2(q)
    ensures b == q + 1
  {
    if b <= q {
      Pow2Monotone(b, q);
    } else if b > q + 1 {
      Pow2Monotone(q + 1, b - 1);
    }
  }

  lemma PendingTurn(n: nat, q: nat, pending: seq<Cube>)
    requires InVirtual(pending, n, q) && pending != []
    ensures InVirtual(pending[1..], n, q) && WeightOf(pending[1..]) < WeightOf(pending)
    ensures pending[0].k > 0 ==> InVirtual(pending[1..] + Children(pending[0]), n, q)
  {
    var c := pending[0];
    if c.k > 0 {
      forall i | 0 <= i < Pow2(n) {
        ChildInVirtual(c, i, q);
      }
    }
  }

  /** One turn of the search on ghost cubes: what the search still finds. */
  lemma SearchTurn(bb: Box, n: nat, q: nat, pending: seq<Cube>)
    requires NonEmpty(bb, n) && InVirtual(pending, n, q) && pending != []
    ensures var c, rest := pending[0], pending[1..];
      && InVirtual(rest, n, q) && WeightOf(rest) < WeightOf(pending)
      && (Includes(bb, CubeBox(c), n) ==> Search(bb, n, pending) == [c] + Search(bb, n, rest))
      && (!Includes(bb, CubeBox(c), n) && Meets(bb, CubeBox(c), n) ==>
            c.k > 0 && InVirtual(rest + Children(c), n, q) && WeightOf(rest + Children(c)) < WeightOf(pending)
            && Search(bb, n, pending) == Search(bb, n, rest + Children(c)))
      && (!Includes(bb, CubeBox(c), n) && !Meets(bb, CubeBox(c), n) ==> Search(bb, n, pending) == Search(bb, n, rest))
  {
    hide Includes, Meets, CubeBox, WeightOf, Child, Weight;
    var c, rest := pending[0], pending[1..];
    PendingTurn(n, q, pending);
    assert pending == [c] + rest;
    if Meets(bb, CubeBox(c), n) && !Includes(bb, CubeBox(c), n) {
      if c.k == 0 {
        UnitCube(bb, n, c);
      }
      DivideLowersWeight(c, rest);
    }
  }

  lemma {:induction false} FlatsSnoc(m: nat, cs: seq<Cube>, c: Cube)
    requires forall i :: 0 <= i < |cs| ==> cs[i].base != [] && cs[i].k <= m
    requires c.base != [] && c.k <= m
    ensures Flats(m, cs + [c]) == Flats(m, cs) + [Flat(m, c)]
  {
    hide Flat;
    if cs == [] {
      assert [c][1..] == [];
    } else {
      FlatsSnoc(m, cs[1..], c);
      assert (cs + [c])[1..] == cs[1..] + [c];
    }
  }

  /** The search under way: with the good cubes found, whose intervals are listed, and the pending ones it ends in FoundCubes. */
  ghost predicate Searching(bb: Box, n: nat, q: nat, pending: seq<Cube>, good: seq<Cube>, itvs: seq<Intv>)
    requires NonEmpty(bb, n)
  {
    && InVirtual(pending, n, q) && InVirtual(good, n, q) && n >= 1
    && good + Search(bb, n, pending) == FoundCubes(bb, n, q) && itvs == Flats(q + 1, good)
  }

  lemma SearchBegins(bb: Box, n: nat, q: nat)
    requires n >= 1 && NonEmpty(bb, n)
    ensures Searching(bb, n, q, [Root(n, q)], [], [])
  {
    SearchStart(bb, n, q);
  }

  /** The first pending cube and what is left to search after its turn. */
  lemma SearchGoesOn(bb: Box, n: nat, q: nat, pending: seq<Cube>, good: seq<Cube>, itvs: seq<Intv>)
    returns (c: Cube, rest: seq<Cube>, pending': seq<Cube>, good': seq<Cube>)
    requires NonEmpty(bb, n) && pending != [] && Searching(bb, n, q, pending, good, itvs)
    ensures c == pending[0] && rest == pending[1..] && |c.base| == n && c.k <= q && InGrid(c.base, q - c.k) && Cubes(rest, n)
    ensures c.k == 0 ==> Includes(bb, CubeBox(c), n) || !Meets(bb, CubeBox(c), n)
    ensures pending' == if !Includes(bb, CubeBox(c), n) && Meets(bb, CubeBox(c), n) then rest + Children(c) else rest
    ensures Searching(bb, n, q, pending', good', itvs + if Includes(bb, CubeBox(c), n) then [Flat(q + 1, c)] else [])
    ensures WeightOf(pending') < WeightOf(pending)
  {
    hide Includes, Meets, CubeBox, WeightOf, Search, Flat, Flats, InGrid, FoundCubes, Children;
    c, rest := pending[0], pending[1..];
    SearchTurn(bb, n, q, pending);
    if Includes(bb, CubeBox(c), n) {
      FlatsSnoc(q + 1, good, c);
      assert good + ([c] + Search(bb, n, rest)) == (good + [c]) + Search(bb, n, rest);
      pending', good' := rest, good + [c];
    } else {
      pending', good' := if Meets(bb, CubeBox(c), n) then rest + Children(c) else rest, good;
      assert itvs + [] == itvs;
    }
  }

  lemma SearchDone(bb: Box, n: nat, q: nat, good: seq<Cube>, itvs: seq<Intv>)
    requires NonEmpty(bb, n) && Searching(bb, n, q, [], good, itvs)
    ensures itvs == Flats(q + 1, FoundCubes(bb, n, q))
  {
    SearchEnd(bb, n);
    assert good + [] == good;
  }

  /** Queueing the parts of a divided cube. */
  method EnqueueParts(q_can: Queue<Box>, b_tab: array<Box>, ghost b: Box)
    requires q_can.Valid() && b_tab !in q_can.Repr && |b.lb| == |b.ub|
    requires forall i :: 0 <= i < b_tab.Length ==> b_tab[i] == Part(b, |b.lb|, i)
    modifies q_can.Repr
    ensures q_can.Valid() && fresh(q_can.Repr - old(q_can.Repr)) && q_can.contents == old(q_can.contents) + PartsOf(b, b_tab.Length)
  {
    hide Part;
    ghost var was, parts := q_can.contents, PartsOf(b, b_tab.Length);
    for i := 0 to b_tab.Length
      invariant q_can.Valid() && fresh(q_can.Repr - old(q_can.Repr)) && q_can.contents == was + parts[..i]
    {
      q_can.Enqueue(b_tab[i]);
      assert parts[..i + 1] == parts[..i] + [parts[i]];
    }
    assert parts[..b_tab.Length] == parts;
  }

  /**
   * One turn of the search loop, for any query box: an included box, which has to be a cube, is flattened, one that
   * only meets the query box is divided, the others are dropped.
   */
  method ExamineBox(bb: Box, bb_virt: Box, bpd: nat, q_can: Queue<Box>, q_good: Queue<Intv>, b_tab: array<Box>,
                    ghost n: nat, ghost q: nat, ghost c: Cube)
    requires 1 <= n < 32 && IsBox(bb, n) && IsBox(bb_virt, n) && bpd == q + 1 && n * bpd <= WIDTH && b_tab.Length == Pow2(n)
    requires Includes(bb, bb_virt, n) ==> bb_virt == CubeBox(c) && |c.base| == n && c.k <= q && InGrid(c.base, q - c.k)
    requires q_can.Valid() && q_good.Valid() && q_can.Repr !! q_good.Repr && b_tab !in q_can.Repr + q_good.Repr
    requires AllBoxes(q_can.contents, n)
    modifies q_can.Repr, q_good.Repr, b_tab
    ensures q_can.Valid() && q_good.Valid() && q_can.Repr !! q_good.Repr && b_tab !in q_can.Repr + q_good.Repr
    ensures fresh(q_can.Repr - old(q_can.Repr)) && fresh(q_good.Repr - old(q_good.Repr))
    ensures q_good.contents == old(q_good.contents) + if Includes(bb, bb_virt, n) then [Flat(bpd, c)] else []
    ensures q_can.contents == Turn(bb, n, [bb_virt] + old(q_can.contents))
  {
    hide Includes, Meets, CubeBox, Flat, Part, Queue.Valid, InGrid;
    ghost var rest := q_can.contents;
    assert ([bb_virt] + rest)[1..] == rest;
    var included := BBoxInclude(bb, bb_virt, n);
    if included {
      GridGrows(c.base, q - c.k, bpd - c.k);
      var i_tmp := BBoxFlat(bb_virt, bpd, c);
      q_good.Enqueue(i_tmp);
    } else {
      var meets := BBoxDoesIntersect(bb, bb_virt, n);
      if meets {
        BBoxDivide(bb_virt, b_tab, 0);
        EnqueueParts(q_can, b_tab, bb_virt);
      }
    }
  }

  /** The search loop: the intervals of the cubes found, in the order they are found. */
  method FindCubes(bb: Box, max: nat, bpd: nat, ghost n: nat, ghost q: nat) returns (q_good: Queue<Intv>)
    requires 1 <= n < 32 && NonEmpty(bb, n) && max == Pow2(q) && bpd == q + 1 && n * bpd <= WIDTH
    ensures q_good.Valid() && fresh(q_good.Repr) && q_good.contents == Flats(bpd, FoundCubes(bb, n, q))
  {
    hide Includes, Meets, CubeBox, WeightOf, BoxesOf, Flat, Part, Flats, Queue.Valid, Turn, InGrid, Pow2, Searching, FoundCubes, Children;
    var ndims := |bb.lb|;
    var bb_virt := Box(seq(ndims, _ => 0), seq(ndims, _ => max - 1));
    var q_can := new Queue<Box>();
    q_good := new Queue<Intv>();
    var b_tab := new Box[Pow2(ndims)](_ => Box([], []));
    ghost var pending, good := [Root(n, q)], [];
    RootBox(n, q);
    SearchBegins(bb, n, q);
    q_can.Enqueue(bb_virt);
    while !q_can.IsEmpty()
      invariant q_can.Valid() && q_good.Valid() && fresh(q_can.Repr) && fresh(q_good.Repr) && fresh(b_tab)
      invariant q_can.Repr !! q_good.Repr && b_tab !in q_can.Repr + q_good.Repr
      invariant q_can.contents == BoxesOf(pending) && Searching(bb, n, q, pending, good, q_good.contents)
      decreases WeightOf(pending)
    {
      var item := q_can.Dequeue();
      BoxesHead(pending);
      ghost var c, rest, pending', good' := SearchGoesOn(bb, n, q, pending, good, q_good.contents);
      CubeTurn(bb, n, c, rest);
      ExamineBox(bb, item.value, bpd, q_can, q_good, b_tab, n, q, c);
      pending, good := pending', good';
    }
    SearchDone(bb, n, q, good, q_good.contents);
  }

  /** What a turn does to a queue of cubes. */
  lemma CubeTurn(bb: Box, n: nat, c: Cube, rest: seq<Cube>)
    requires NonEmpty(bb, n) && |c.base| == n && Cubes(rest, n)
    ensures c.k == 0 ==> Includes(bb, CubeBox(c), n) || !Meets(bb, CubeBox(c), n)
    ensures IsBox(CubeBox(c), n) && AllBoxes(BoxesOf(rest), n) && AllBoxes([CubeBox(c)] + BoxesOf(rest), n)
    ensures Turn(bb, n, [CubeBox(c)] + BoxesOf(rest))
      == BoxesOf(if !Includes(bb, CubeBox(c), n) && Meets(bb, CubeBox(c), n) then rest + Children(c) else rest)
  {
    hide Includes, Meets, CubeBox, Part, Turn, Child;
    if c.k == 0 && Meets(bb, CubeBox(c), n) {
      UnitCube(bb, n, c);
    }
    TurnOfCubes(bb, n, c, rest);
    assert BoxesOf([c] + rest) == [CubeBox(c)] + BoxesOf(rest);
    assert forall i :: 0 <= i < |rest| ==> BoxesOf(rest)[i] == BoxesOf([c] + rest)[i + 1];
  }

  lemma RootBox(n: nat, q: nat)
    ensures BoxesOf([Root(n, q)]) == [Box(seq(n, _ => 0), seq(n, _ => Pow2(q) - 1))]
  {
    assert CubeBox(Root(n, q)) == Box(seq(n, _ => 0), seq(n, _ => Pow2(q) - 1));
  }

  lemma SearchStart(bb: Box, n: nat, q: nat)
    requires n >= 1 && NonEmpty(bb, n)
    ensures InVirtual([Root(n, q)], n, q) && InVirtual([], n, q) && Flats(q + 1, []) == []
    ensures [] + Search(bb, n, [Root(n, q)]) == FoundCubes(bb, n, q)
  {
  }

  lemma SearchEnd(bb: Box, n: nat)
    requires NonEmpty(bb, n)
    ensures Search(bb, n, []) == []
  {
  }

  lemma BoxesHead(pending: seq<Cube>)
    requires BoxesOf(pending) != []
    ensures pending != [] && BoxesOf(pending)[0] == CubeBox(pending[0]) && BoxesOf(pending)[1..] == BoxesOf(pending[1..])
  {
  }

  /** The found intervals are as many as the search found, at least one if the box meets the virtual cube. */
  lemma SomethingFound(bb: Box, n: nat, q: nat, p: Point)
    requires n >= 1 && NonEmpty(bb, n) && In(bb, p) && InGrid(p, q)
    ensures FoundCubes(bb, n, q) != [] && Table(bb, n, q) != []
  {
    FoundCount(bb, n, q, p);
    SortSorts(Flats(q + 1, FoundCubes(bb, n, q)));
  }

  lemma Waiting(q_good: Queue<Intv>)
    requires q_good.Valid()
    ensures q_good.num_elem == |q_good.contents|
  {
  }

  /** Moving the found intervals from the queue into a table. */
  method DrainQueue(q_good: Queue<Intv>) returns (i_tab: array<Intv>)
    requires q_good.Valid()
    modifies q_good.Repr
    ensures fresh(i_tab) && i_tab[..] == old(q_good.contents)
  {
    hide Queue.Valid;
    ghost var all := q_good.contents;
    Waiting(q_good);
    i_tab := new Intv[q_good.num_elem](_ => Intv(0, 0));
    var n := 0;
    assert all[0..] == all;
    while !q_good.IsEmpty()
      invariant q_good.Valid() && n <= i_tab.Length == |all| && q_good.contents == all[n..]
      invariant i_tab[..n] == all[..n] && fresh(i_tab) && q_good.Repr == old(q_good.Repr)
      decreases i_tab.Length - n
    {
      var i_tmp := q_good.Dequeue();
      i_tab[n] := i_tmp.value;
      assert i_tab[..n + 1] == i_tab[..n] + [all[n]] == all[..n + 1];
      n := n + 1;
    }
    assert i_tab[..] == i_tab[..n] && all == all[..n];
  }

  lemma TableIs(bb: Box, n: nat, q: nat)
    requires n >= 1 && NonEmpty(bb, n)
    ensures Table(bb, n, q) == Compact(SortByLb(Flats(q + 1, FoundCubes(bb, n, q))))
    ensures FoundCubes(bb, n, q) != [] ==> Flats(q + 1, FoundCubes(bb, n, q)) != []
  {
  }

  /** bbox_to_intv: the index intervals of a box with points in the virtual cube of side dim_virt. */
  method BBoxToIntv(bb: Box, dim_virt: nat, ghost n: nat, ghost q: nat, ghost p: Point) returns (i_tab: array<Intv>, num_intv: nat)
    requires 1 <= n < 32 && NonEmpty(bb, n) && dim_virt == Pow2(q) && n * (q + 1) <= WIDTH
    requires In(bb, p) && InGrid(p, q)
    ensures fresh(i_tab) && num_intv <= i_tab.Length && i_tab[..num_intv] == Table(bb, n, q)
  {
    hide *;
    var bpd := ComputeBits(dim_virt);
    BitsOfPow2(q, bpd);
    SomethingFound(bb, n, q, p);
    var q_good := FindCubes(bb, dim_virt, bpd, n, q);
    i_tab := DrainQueue(q_good);
    var num := i_tab.Length;
    ghost var found := i_tab[..];
    assert i_tab[..num] == found;
    QSort(i_tab, num);
    TableIs(bb, n, q);
    num_intv := IntvCompact(i_tab, num);
  }
}
