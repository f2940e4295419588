/** bbox_to_intv2: the same search on a growing ring of boxes. */
module RingSearch {
  import opened Arithmetic
  import opened BitStrings
  import opened MachineWords
  import opened HilbertIndex
  import opened AlignedCubes
  import opened Boxes
  import opened Intervals
  import opened Decomposition
  import opened BoxToIntervals

  // ----- multiples of the block size

  predicate Multiple(x: nat, n: nat) {
    n > 0 && x % n == 0
  }

  lemma MultipleIs(x: nat, n: nat) returns (q: nat)
    requires Multiple(x, n)
    ensures n > 0 && x == Times(q, n)
  {
    q := x / n;
    TimesIsProduct(q, n);
  }

  lemma IsMultiple(q: nat, n: nat)
    requires n > 0
    ensures Multiple(Times(q, n), n)
    decreases q
  {
    if q > 0 {
      IsMultiple(q - 1, n);
      ModAdd(Times(q - 1, n), n);
    }
  }

  lemma ModAdd(x: nat, n: nat)
    requires n > 0
    ensures (x + n) % n == x % n
  {
    var q, r := DivMod(x, n);
    var q', r' := DivMod(x + n, n);
    HighLowUnique(q + 1, r, q', r', n);
  }

  lemma SmallMod(x: nat, n: nat)
    requires x < n
    ensures x % n == x
  {
    TimesIsProduct(x / n, n);
    HighLowUnique(0, x, x / n, x % n, n);
  }

  /** Sums and differences of multiples are multiples, and different multiples are a block apart. */
  lemma MultipleFacts(a: nat, b: nat, n: nat)
    requires Multiple(a, n) && Multiple(b, n)
    ensures Multiple(a + b, n) && (a >= b ==> Multiple(a - b, n)) && (a < b ==> a + n <= b)
  {
    hide Multiple, Times;
    var p := MultipleIs(a, n);
    var q := MultipleIs(b, n);
    TimesAdd(p, q, n);
    IsMultiple(p + q, n);
    HighLowOrder(p, 0, q, n);
    if a >= b {
      TimesAdd(p - q, q, n);
      IsMultiple(p - q, n);
    } else {
      TimesAdd(1, p, n);
      OneTimes(n);
      TimesMonotone(p + 1, q, n);
    }
  }

  lemma BlockOffset(hb: nat, ho: nat, n: nat)
    requires Multiple(hb, n) && ho < n
    ensures (hb + ho) % n == ho
  {
    hide Times;
    var q := MultipleIs(hb, n);
    var q', r := DivMod(hb + ho, n);
    HighLowUnique(q, ho, q', r, n);
  }

  // ----- the ring

  /** The slot k places after hb, going round. */
  function Slot(size: nat, hb: nat, k: nat): (s: nat)
    requires hb < size && k < size
    ensures s < size
  {
    if hb + k < size then hb + k else hb + k - size
  }

  lemma SlotIsMod(size: nat, hb: nat, k: nat)
    requires hb < size && k < size
    ensures (hb + k) % size == Slot(size, hb, k)
  {
    if hb + k >= size {
      ModAdd(hb + k - size, size);
      SmallMod(hb + k - size, size);
    } else {
      SmallMod(hb + k, size);
    }
  }

  /** Where the ring stands: the block of the head, the head's place in it, and the slots used from that block on. */
  datatype Place = Place(hb: nat, ho: nat, used: nat)

  ghost predicate Ring(tab: seq<Box>, head: nat, tail: nat, n: nat, at: Place, pending: seq<Box>) {
    && Multiple(at.hb, n) && Multiple(at.used, n) && Multiple(|tab|, n)
    && at.hb < |tab| && at.used < |tab| && at.ho < n && at.ho <= at.used
    && head == at.hb + at.ho && tail == Slot(|tab|, at.hb, at.used)
    && |pending| == at.used - at.ho
    && forall i :: 0 <= i < |pending| ==> pending[i] == tab[Slot(|tab|, at.hb, at.ho + i)]
  }

  lemma RingHead(tab: seq<Box>, head: nat, tail: nat, n: nat, at: Place, pending: seq<Box>)
    requires Ring(tab, head, tail, n, at, pending)
    ensures head < |tab| && head % n == at.ho && head - head % n == at.hb
    ensures head != tail <==> pending != []
    ensures pending != [] ==> tab[head] == pending[0]
  {
    BlockOffset(at.hb, at.ho, n);
    MultipleFacts(at.hb, |tab|, n);
    if at.hb + at.used < |tab| {
    } else {
      MultipleFacts(at.hb, |tab|, n);
      MultipleFacts(|tab|, at.used, n);
    }
  }

  lemma MultipleSelf(n: nat)
    requires n > 0
    ensures Multiple(n, n) && Multiple(0, n)
  {
    IsMultiple(1, n);
    IsMultiple(0, n);
    assert Times(1, n) == n + Times(0, n);
  }

  lemma SlotStep(size: nat, hb: nat, n: nat, k: nat)
    requires hb < size && n <= k < size && hb + n <= size
    ensures Slot(size, hb, k) == Slot(size, if hb + n == size then 0 else hb + n, k - n)
  {
  }

  /** Moving the head on drops the first pending box and no other. */
  lemma RingAdvance(tab: seq<Box>, head: nat, tail: nat, n: nat, at: Place, pending: seq<Box>) returns (next: Place)
    requires Ring(tab, head, tail, n, at, pending) && pending != [] && |tab| > 1
    ensures Ring(tab, (head + 1) % |tab|, tail, n, next, pending[1..])
  {
    hide Multiple;
    var size := |tab|;
    RingHead(tab, head, tail, n, at, pending);
    SlotIsMod(size, head, 1);
    MultipleFacts(at.hb, size, n);
    if at.ho + 1 < n {
      next := at.(ho := at.ho + 1);
    } else {
      MultipleSelf(n);
      MultipleFacts(at.used, n, n);
      MultipleFacts(n, at.used, n);
      MultipleFacts(at.hb, n, n);
      next := Place(if at.hb + n == size then 0 else at.hb + n, 0, at.used - n);
      SlotStep(size, at.hb, n, at.used);
      forall i | 0 <= i < |pending| - 1
        ensures pending[1..][i] == tab[Slot(size, next.hb, i)]
      {
        SlotStep(size, at.hb, n, at.ho + i + 1);
      }
    }
  }

  /** The guard of the ring: a block more would meet the block of the head. */
  lemma RingFull(size: nat, n: nat, at: Place, tail: nat)
    requires Multiple(at.hb, n) && Multiple(at.used, n) && Multiple(size, n) && at.hb < size && at.used < size
    requires tail == Slot(size, at.hb, at.used) && n < size
    ensures (tail + n) % size == at.hb <==> at.used + n == size
    ensures at.used + n <= size
    ensures tail + n <= size && (at.used + n < size ==> (tail + n) % size == Slot(size, at.hb, at.used + n))
  {
    hide Multiple;
    var t := at.hb + at.used;
    var q := MultipleIs(size, n);
    MultipleFacts(at.used, size, n);
    MultipleFacts(at.hb, at.used, n);
    if t < size {
      MultipleFacts(t, size, n);
    } else {
      MultipleFacts(t, size, n);
      MultipleFacts(t - size, at.hb, n);
    }
    SlotIsMod(size, tail, n);
  }

  /** Writing the parts of a box into the free block at the tail keeps every pending box and appends the parts. */
  lemma RingAppend(tab: seq<Box>, tab': seq<Box>, head: nat, tail: nat, n: nat, at: Place, pending: seq<Box>, parts: seq<Box>)
    requires Ring(tab, head, tail, n, at, pending) && |tab'| == |tab| && |parts| == n && at.used + n < |tab|
    requires forall i :: 0 <= i < |tab| && !(tail <= i < tail + n) ==> tab'[i] == tab[i]
    requires forall i :: 0 <= i < n && tail + i < |tab| ==> tab'[tail + i] == parts[i]
    ensures Ring(tab', head, (tail + n) % |tab|, n, at.(used := at.used + n), pending + parts)
  {
    hide Multiple;
    var size := |tab|;
    MultipleSelf(n);
    MultipleFacts(at.used, n, n);
    RingFull(size, n, at, tail);
    forall i | 0 <= i < |pending| + n
      ensures (pending + parts)[i] == tab'[Slot(size, at.hb, at.ho + i)]
    {
      if i < |pending| {
        assert pending[i] == tab[Slot(size, at.hb, at.ho + i)];
      } else {
        assert Slot(size, at.hb, at.ho + i) == tail + (i - |pending|);
      }
    }
  }

  /** Copying a full ring to the front of a larger table unrolls it without losing a box. */
  lemma RingCopy(tab: seq<Box>, tab': seq<Box>, head: nat, tail: nat, n: nat, at: Place, pending: seq<Box>)
    requires Ring(tab, head, tail, n, at, pending) && at.used + n == |tab| && |tab'| > |tab| && Multiple(|tab'|, n)
    requires forall k :: 0 <= k < at.used ==> tab'[k] == tab[Slot(|tab|, at.hb, k)]
    ensures Ring(tab', at.ho, |tab| - n, n, Place(0, at.ho, at.used), pending)
  {
    hide Multiple;
    MultipleSelf(n);
    forall i | 0 <= i < |pending|
      ensures pending[i] == tab'[Slot(|tab'|, 0, at.ho + i)]
    {
    }
  }

  // ----- bbox_to_intv2

  /** The resize: a ring one and a half times as large, cut down to whole blocks, with the head's block first. */
  method GrowRing(bb_tab: array<Box>, bb_head: nat, bb_tail: nat, n: nat, ghost at: Place, ghost pending: seq<Box>)
    returns (bb_ntab: array<Box>, head: nat, tail: nat)
    requires Ring(bb_tab[..], bb_head, bb_tail, n, at, pending) && at.used + n == bb_tab.Length && 2 * n <= bb_tab.Length
    requires pending != []
    ensures fresh(bb_ntab) && bb_ntab.Length >= bb_tab.Length + n
    ensures bb_ntab.Length % n == 0 && bb_ntab.Length <= bb_tab.Length + bb_tab.Length / 2 < bb_ntab.Length + n
    ensures Ring(bb_ntab[..], head, tail, n, Place(0, at.ho, at.used), pending)
  {
    hide Multiple, Ring;
    RingHead(bb_tab[..], bb_head, bb_tail, n, at, pending);
    RingBounds(bb_tab[..], bb_head, bb_tail, n, at, pending);
    RingSpan(bb_tab[..], bb_head, bb_tail, n, at, pending);
    ghost var tab := bb_tab[..];
    var bb_size := bb_tab.Length;
    var tmp_size := bb_size + bb_size / 2;
    var bb_nsize := tmp_size - tmp_size % n;
    var bb_nhead := bb_head - bb_head % n;
    GrownSize(bb_size, n);
    bb_ntab := new Box[bb_nsize](_ => Box([], []));
    if bb_tail > bb_head {
      forall k | 0 <= k < bb_tail - bb_nhead {
        bb_ntab[k] := bb_tab[bb_nhead + k];
      }
    } else {
      forall k | 0 <= k < bb_size - bb_nhead {
        bb_ntab[k] := bb_tab[bb_nhead + k];
      }
      forall k | 0 <= k < bb_tail {
        bb_ntab[bb_size - bb_nhead + k] := bb_tab[k];
      }
    }
    head := bb_head % n;
    tail := bb_size - n;
    assert bb_tab[..] == tab;
    forall k | 0 <= k < at.used
      ensures bb_ntab[..][k] == tab[Slot(bb_size, at.hb, k)]
    {
    }
    RingCopy(tab, bb_ntab[..], bb_head, bb_tail, n, at, pending);
  }

  lemma GrownSize(size: nat, n: nat)
    requires n > 0 && Multiple(size, n) && 2 * n <= size
    ensures var tmp := size + size / 2; Multiple(tmp - tmp % n, n) && tmp - tmp % n >= size + n
  {
    var tmp := size + size / 2;
    TimesIsProduct(tmp / n, n);
    IsMultiple(tmp / n, n);
    assert tmp == Times(tmp / n, n) + tmp % n;
    var q := MultipleIs(size, n);
    TimesAdd(1, q, n);
    HighLowOrder(tmp / n, tmp % n, q + 1, n);
    if tmp / n < q + 1 {
      assert false;
    }
    TimesMonotone(q + 1, tmp / n, n);
  }

  /** The result table grows by half when it is full. */
  method PushIntv(i_tab0: array<Intv>, i_num: nat, itv: Intv) returns (i_tab: array<Intv>)
    requires i_num <= i_tab0.Length && i_tab0.Length >= 2
    modifies i_tab0
    ensures i_tab == i_tab0 || fresh(i_tab)
    ensures i_num + 1 <= i_tab.Length && i_tab.Length >= 2 && i_tab[..i_num + 1] == old(i_tab0[..i_num]) + [itv]
    ensures i_tab.Length == if i_num < i_tab0.Length then i_tab0.Length else i_num + i_num / 2
  {
    i_tab := i_tab0;
    if i_num == i_tab0.Length {
      i_tab := new Intv[i_num + i_num / 2](_ => Intv(0, 0));
      forall k | 0 <= k < i_num {
        i_tab[k] := i_tab0[k];
      }
    }
    i_tab[i_num] := itv;
  }

  /** Dividing the head of the ring: its parts go to the tail, after a resize if the ring is full. */
  method DivideHead(bb_tab0: array<Box>, bb_head0: nat, bb_tail0: nat, n: nat, ghost at0: Place, ghost pending: seq<Box>)
    returns (bb_tab: array<Box>, bb_head: nat, bb_tail: nat, ghost at: Place)
    requires Ring(bb_tab0[..], bb_head0, bb_tail0, n, at0, pending) && pending != [] && 2 * n <= bb_tab0.Length
    requires IsBox(pending[0], |pending[0].lb|) && n == Pow2(|pending[0].lb|)
    modifies bb_tab0
    ensures (bb_tab == bb_tab0 || fresh(bb_tab)) && 2 * n <= bb_tab.Length
    ensures Ring(bb_tab[..], bb_head, bb_tail, n, at, pending + PartsOf(pending[0], n))
  {
    hide Multiple, Part, Ring, Pow2;
    bb_tab, bb_head, bb_tail, at := bb_tab0, bb_head0, bb_tail0, at0;
    RingHead(bb_tab[..], bb_head, bb_tail, n, at, pending);
    RingBounds(bb_tab[..], bb_head, bb_tail, n, at, pending);
    RingFull(bb_tab.Length, n, at, bb_tail);
    if (bb_tail + n) % bb_tab.Length == bb_head - bb_head % n {
      bb_tab, bb_head, bb_tail := GrowRing(bb_tab0, bb_head0, bb_tail0, n, at0, pending);
      at := Place(0, at0.ho, at0.used);
      RingHead(bb_tab[..], bb_head, bb_tail, n, at, pending);
      RingBounds(bb_tab[..], bb_head, bb_tail, n, at, pending);
      RingFull(bb_tab.Length, n, at, bb_tail);
    }
    ghost var was := bb_tab[..];
    var pbb := bb_tab[bb_head];
    BBoxDivide(pbb, bb_tab, bb_tail);
    RingAppend(was, bb_tab[..], bb_head, bb_tail, n, at, pending, PartsOf(pbb, n));
    bb_tail := (bb_tail + n) % bb_tab.Length;
    at := at.(used := at.used + n);
  }

  lemma RingBounds(tab: seq<Box>, head: nat, tail: nat, n: nat, at: Place, pending: seq<Box>)
    requires Ring(tab, head, tail, n, at, pending)
    ensures Multiple(at.hb, n) && Multiple(at.used, n) && Multiple(|tab|, n) && at.hb < |tab| && at.used < |tab|
    ensures head < |tab| && tail == Slot(|tab|, at.hb, at.used)
  {
    MultipleFacts(at.hb, |tab|, n);
  }

  const RING_SIZE: nat := 4096

  /** How a ring with all but one block used lies in its table. */
  lemma RingSpan(tab: seq<Box>, head: nat, tail: nat, n: nat, at: Place, pending: seq<Box>)
    requires Ring(tab, head, tail, n, at, pending) && at.used + n == |tab| && 2 * n <= |tab| && pending != []
    ensures head == at.hb + at.ho && at.ho < n
    ensures tail > head ==> at.hb == 0 && tail == at.used
    ensures tail <= head ==> tail + |tab| == at.hb + at.used
  {
    hide Multiple;
    RingHead(tab, head, tail, n, at, pending);
    RingBounds(tab, head, tail, n, at, pending);
    MultipleSelf(n);
    MultipleFacts(at.hb, n, n);
    MultipleFacts(n, at.hb, n);
  }

  lemma RingStart(ndims: nat, tab: seq<Box>)
    requires 1 <= ndims <= 10 && |tab| == RING_SIZE
    ensures var n := Pow2(ndims); 2 <= n && 2 * n <= RING_SIZE && Ring(tab, RING_SIZE - 1, 0, n, Place(RING_SIZE - n, n - 1, n), [tab[RING_SIZE - 1]])
  {
    hide Multiple, Pow2;
    var n := Pow2(ndims);
    PartsFit(ndims);
    MultipleSelf(n);
    MultipleFacts(RING_SIZE, n, n);
  }

  /** The ring's first size has room for the parts of a box twice over and is a multiple of their number. */
  lemma PartsFit(ndims: nat)
    requires 1 <= ndims <= 10
    ensures var n := Pow2(ndims); 2 <= n && 2 * n <= RING_SIZE && Multiple(RING_SIZE, n)
  {
    hide Multiple;
    PowersOfTwo();
    Pow2Monotone(1, ndims);
    Pow2Monotone(ndims, 10);
    Pow2Add(12 - ndims, ndims);
    IsMultiple(Pow2(12 - ndims), Pow2(ndims));
  }

  lemma PowersOfTwo()
    ensures Pow2(1) == 2 && Pow2(10) == 1024 && Pow2(12) == 4096
  {
    assert Pow2(4) == 16;
    Pow2Add(4, 4);
    TimesIsProduct(16, 16);
    assert Pow2(10) == 4 * Pow2(8);
    assert Pow2(12) == 4 * Pow2(10);
  }

  /** An included cube: its interval joins the table. */
  method TakeHead(pbb: Box, bpd: nat, i_tab0: array<Intv>, i_num0: nat, ghost n: nat, ghost q: nat, ghost c: Cube)
    returns (i_tab: array<Intv>, i_num: nat)
    requires 1 <= n < 32 && bpd == q + 1 && n * bpd <= WIDTH && |c.base| == n && c.k <= q && InGrid(c.base, q - c.k)
    requires pbb == CubeBox(c) && i_num0 <= i_tab0.Length && 2 <= i_tab0.Length
    modifies i_tab0
    ensures (i_tab == i_tab0 || fresh(i_tab)) && i_num <= i_tab.Length && 2 <= i_tab.Length
    ensures i_tab[..i_num] == old(i_tab0[..i_num0]) + [Flat(bpd, c)]
  {
    hide CubeBox, Flat, InGrid;
    GridGrows(c.base, q - c.k, bpd - c.k);
    var itv := BBoxFlat(pbb, bpd, c);
    i_tab := PushIntv(i_tab0, i_num0, itv);
    i_num := i_num0 + 1;
  }

  /** A divided cube: its parts join behind the pending boxes. */
  method SplitHead(bb_tab0: array<Box>, bb_head0: nat, bb_tail0: nat, parts: nat, ghost n: nat, ghost at0: Place, ghost c: Cube, ghost rest: seq<Cube>)
    returns (bb_tab: array<Box>, bb_head: nat, bb_tail: nat, ghost at: Place)
    requires n >= 1 && parts == Pow2(n) && |c.base| == n && c.k > 0 && 2 * parts <= bb_tab0.Length
    requires Ring(bb_tab0[..], bb_head0, bb_tail0, parts, at0, BoxesOf([c] + rest))
    modifies bb_tab0
    ensures (bb_tab == bb_tab0 || fresh(bb_tab)) && 2 * parts <= bb_tab.Length
    ensures Ring(bb_tab[..], bb_head, bb_tail, parts, at, BoxesOf([c] + (rest + Children(c))))
  {
    hide CubeBox, BoxesOf, Part, Ring, Pow2, PartsOf, Children;
    BoxesCons(c, rest);
    CubeBoxDims(c);
    PartsAreChildren(c);
    bb_tab, bb_head, bb_tail, at := DivideHead(bb_tab0, bb_head0, bb_tail0, parts, at0, BoxesOf([c] + rest));
    BoxesConcat([c] + rest, Children(c));
    assert [c] + (rest + Children(c)) == ([c] + rest) + Children(c);
  }

  lemma CubeBoxDims(c: Cube)
    ensures IsBox(CubeBox(c), |c.base|)
  {
  }

  /** One turn of the ring search, up to moving the head on. */
  method ExamineHead(bb: Box, bpd: nat, bb_tab0: array<Box>, bb_head0: nat, bb_tail0: nat, parts: nat,
                     i_tab0: array<Intv>, i_num0: nat,
                     ghost n: nat, ghost q: nat, ghost at0: Place, ghost c: Cube, ghost rest: seq<Cube>)
    returns (bb_tab: array<Box>, bb_head: nat, bb_tail: nat, ghost at: Place, i_tab: array<Intv>, i_num: nat)
    requires 1 <= n < 32 && NonEmpty(bb, n) && bpd == q + 1 && n * bpd <= WIDTH && parts == Pow2(n)
    requires |c.base| == n && c.k <= q && InGrid(c.base, q - c.k)
    requires Ring(bb_tab0[..], bb_head0, bb_tail0, parts, at0, BoxesOf([c] + rest)) && 2 * parts <= bb_tab0.Length
    requires i_num0 <= i_tab0.Length && 2 <= i_tab0.Length
    modifies bb_tab0, i_tab0
    ensures (bb_tab == bb_tab0 || fresh(bb_tab)) && (i_tab == i_tab0 || fresh(i_tab))
    ensures 2 * parts <= bb_tab.Length && i_num <= i_tab.Length && 2 <= i_tab.Length
    ensures c.k == 0 ==> Includes(bb, CubeBox(c), n) || !Meets(bb, CubeBox(c), n)
    ensures i_tab[..i_num] == old(i_tab0[..i_num0]) + if Includes(bb, CubeBox(c), n) then [Flat(bpd, c)] else []
    ensures Ring(bb_tab[..], bb_head, bb_tail, parts, at,
      BoxesOf([c] + if !Includes(bb, CubeBox(c), n) && Meets(bb, CubeBox(c), n) then rest + Children(c) else rest))
  {
    hide Includes, Meets, CubeBox, BoxesOf, Flat, Part, Ring, Multiple, Slot, InGrid, Pow2, PartsOf;
    bb_tab, bb_head, bb_tail, at, i_tab, i_num := bb_tab0, bb_head0, bb_tail0, at0, i_tab0, i_num0;
    BoxesCons(c, rest);
    RingHead(bb_tab[..], bb_head, bb_tail, parts, at, BoxesOf([c] + rest));
    if c.k == 0 && Meets(bb, CubeBox(c), n) {
      UnitCube(bb, n, c);
    }
    var pbb := bb_tab[bb_head];
    var included := BBoxInclude(bb, pbb, n);
    if included {
      i_tab, i_num := TakeHead(pbb, bpd, i_tab, i_num, n, q, c);
    } else {
      var meets := BBoxDoesIntersect(bb, pbb, n);
      if meets {
        bb_tab, bb_head, bb_tail, at := SplitHead(bb_tab, bb_head, bb_tail, parts, n, at, c, rest);
      }
    }
  }

  lemma BoxesCons(c: Cube, rest: seq<Cube>)
    ensures BoxesOf([c] + rest) != [] && BoxesOf([c] + rest)[0] == CubeBox(c) && BoxesOf([c] + rest)[1..] == BoxesOf(rest)
  {
    assert ([c] + rest)[1..] == rest;
    BoxesHead([c] + rest);
  }

  /** The search loop on the ring: the same intervals in the same order as the queue finds them. */
  method FindCubesRing(bb: Box, max: nat, bpd: nat, ghost n: nat, ghost q: nat) returns (i_tab: array<Intv>, i_num: nat)
    requires 1 <= n <= 10 && NonEmpty(bb, n) && max == Pow2(q) && bpd == q + 1 && n * bpd <= WIDTH
    ensures fresh(i_tab) && i_num <= i_tab.Length && i_tab[..i_num] == Flats(bpd, FoundCubes(bb, n, q))
  {
    hide Includes, Meets, CubeBox, WeightOf, Searching, BoxesOf, Flat, Part, Flats, Ring, Multiple, Slot, Children, InGrid, Pow2, FoundCubes;
    var ndims := |bb.lb|;
    var bb_size := RING_SIZE;
    var bb_tab := new Box[bb_size](_ => Box([], []));
    var bb_head: nat, bb_tail: nat := bb_size - 1, 0;
    bb_tab[bb_head] := Box(seq(ndims, _ => 0), seq(ndims, _ => max - 1));
    i_tab := new Intv[4096](_ => Intv(0, 0));
    i_num := 0;
    var parts := Pow2(ndims);
    ghost var pending, good := [Root(n, q)], [];
    RingStart(ndims, bb_tab[..]);
    ghost var at := Place(RING_SIZE - parts, parts - 1, parts);
    RootBox(n, q);
    SearchBegins(bb, n, q);
    RingHead(bb_tab[..], bb_head, bb_tail, parts, at, BoxesOf(pending));
    assert i_tab[..i_num] == [];
    while bb_head != bb_tail
      invariant fresh(bb_tab) && fresh(i_tab) && 2 * parts <= bb_tab.Length && 2 <= i_tab.Length && i_num <= i_tab.Length
      invariant Ring(bb_tab[..], bb_head, bb_tail, parts, at, BoxesOf(pending))
      invariant bb_head < bb_tab.Length && (bb_head != bb_tail <==> BoxesOf(pending) != [])
      invariant Searching(bb, n, q, pending, good, i_tab[..i_num])
      decreases WeightOf(pending)
    {
      BoxesHead(pending);
      ghost var c, rest, pending', good' := SearchGoesOn(bb, n, q, pending, good, i_tab[..i_num]);
      assert pending == [c] + rest;
      bb_tab, bb_head, bb_tail, at, i_tab, i_num :=
        ExamineHead(bb, bpd, bb_tab, bb_head, bb_tail, parts, i_tab, i_num, n, q, at, c, rest);
      pending, good := pending', good';
      BoxesCons(c, pending);
      at := RingAdvance(bb_tab[..], bb_head, bb_tail, parts, at, BoxesOf([c] + pending));
      bb_head := (bb_head + 1) % bb_tab.Length;
      RingHead(bb_tab[..], bb_head, bb_tail, parts, at, BoxesOf(pending));
    }
    BoxesNone(pending);
    SearchDone(bb, n, q, good, i_tab[..i_num]);
  }

  lemma BoxesNone(pending: seq<Cube>)
    ensures BoxesOf(pending) == [] ==> pending == []
  {
  }

  /** bbox_to_intv2: the same table as bbox_to_intv. */
  method BBoxToIntv2(bb: Box, dim_virt: nat, ghost n: nat, ghost q: nat, ghost p: Point) returns (i_tab: array<Intv>, num_intv: nat)
    requires 1 <= n <= 10 && NonEmpty(bb, n) && dim_virt == Pow2(q) && n * (q + 1) <= WIDTH
    requires In(bb, p) && InGrid(p, q)
    ensures fresh(i_tab) && num_intv <= i_tab.Length && i_tab[..num_intv] == Table(bb, n, q)
  {
    hide FoundCubes, Flats, InGrid, In, NonEmpty, Table, Index, Pow2, SortByLb, Compact;
    var bpd := ComputeBits(dim_virt);
    BitsOfPow2(q, bpd);
    SomethingFound(bb, n, q, p);
    var i_num: nat;
    i_tab, i_num := FindCubesRing(bb, dim_virt, bpd, n, q);
    QSort(i_tab, i_num);
    TableIs(bb, n, q);
    num_intv := IntvCompact(i_tab, i_num);
  }
}
