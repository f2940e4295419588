/** A server's object store: bins by version, and what a newer put evicts. */
module VersionedStore {
  import opened Arithmetic
  import opened LinkedQueue
  import opened Boxes
  import opened Descriptors
  import opened ObjectIndex
  import opened Subscriptions

  // ----- stored objects

  /** An object as its server stores it: its descriptor and its elements, whatever they are kept in. */
  datatype Object<D> = Object(desc: Desc, data: D)

  function Descs<D>(bin: seq<Object<D>>): (ds: seq<Desc>)
    ensures |ds| == |bin|
  {
    seq(|bin|, i requires 0 <= i < |bin| => bin[i].desc)
  }

  /** The list without its i-th element, if there is one, and x in front. */
  ghost function Entered<X>(bin: seq<X>, i: nat, x: X): seq<X> {
    [x] + if i < |bin| then bin[..i] + bin[i + 1..] else bin
  }

  /** The bin after an object was stored: the first overlapping one of its name leaves, the new one comes in front. */
  ghost function Stored(bin: seq<Desc>, d: Desc, n: nat): seq<Desc> {
    Entered(bin, FirstOverlap(bin, d, n), d)
  }

  ghost function StoredObject<D>(bin: seq<Object<D>>, od: Object<D>, n: nat): seq<Object<D>> {
    Entered(bin, FirstOverlap(Descs(bin), od.desc, n), od)
  }

  lemma StoredDescs<D>(bin: seq<Object<D>>, od: Object<D>, n: nat)
    ensures Descs(StoredObject(bin, od, n)) == Stored(Descs(bin), od.desc, n)
    ensures forall o :: o in StoredObject(bin, od, n) ==> o == od || o in bin
  {
    hide FirstOverlap;
    var i, r := FirstOverlap(Descs(bin), od.desc, n), StoredObject(bin, od, n);
    if i < |bin| {
      assert forall j :: 0 < j < |r| ==> r[j] == if j <= i then bin[j - 1] else bin[j];
    } else {
      assert forall j :: 0 < j < |r| ==> r[j] == bin[j - 1];
    }
  }

  /** o is the first object of the bin that answers odsc. */
  ghost predicate FirstAnswer<D>(bin: seq<Object<D>>, odsc: Desc, n: nat, o: Object<D>) {
    exists i :: 0 <= i < |bin| && bin[i] == o && Answers(bin[i].desc, odsc, n) && forall j :: 0 <= j < i ==> !Answers(bin[j].desc, odsc, n)
  }

  /** The new object stands in front of the old ones, which keep their order and of which at most the first overlapping one has left. */
  ghost predicate InFront<D>(was: seq<Object<D>>, now: seq<Object<D>>, od: Object<D>, n: nat) {
    && now != [] && now[0] == od
    && ((forall j :: 0 <= j < |was| ==> !Overlaps(was[j].desc, od.desc, n)) ==> now[1..] == was)
    && forall i :: 0 <= i < |was| && Overlaps(was[i].desc, od.desc, n) && (forall j :: 0 <= j < i ==> !Overlaps(was[j].desc, od.desc, n)) ==>
      now[1..] == was[..i] + was[i + 1..]
  }

  lemma StoredInFront<D>(bin: seq<Object<D>>, od: Object<D>, n: nat)
    ensures InFront(bin, StoredObject(bin, od, n), od, n)
  {
    hide FirstOverlap, Overlaps;
    var i := FirstOverlap(Descs(bin), od.desc, n);
    assert forall j :: 0 <= j < |bin| ==> Descs(bin)[j] == bin[j].desc;
    forall k | 0 <= k < |bin| && Overlaps(bin[k].desc, od.desc, n) && forall j :: 0 <= j < k ==> !Overlaps(bin[j].desc, od.desc, n)
      ensures k == i
    {
      assert Overlaps(Descs(bin)[k], od.desc, n);
    }
  }

  class Storage<D> {
    const size_hash: nat
    var num_obj: nat
    var var_dict: set<string>
    var obj_hash: seq<seq<Object<D>>>
    ghost const n: nat

    /** num_obj counts the objects of all bins, and each of them stands in the bin of its version under a known name. */
    ghost predicate Valid()
      reads this
    {
      && size_hash > 0 && |obj_hash| == size_hash && num_obj == TotalLen(obj_hash)
      && forall b :: 0 <= b < size_hash ==> InBin(obj_hash[b], b)
    }

    ghost predicate InBin(bin: seq<Object<D>>, b: nat)
      requires size_hash > 0
      reads this
    {
      forall i :: 0 <= i < |bin| ==>
        IsBox(bin[i].desc.bb, n) && Bin(bin[i].desc.version, size_hash) == b && bin[i].desc.name in var_dict
    }

    constructor (max_versions: nat, ghost n: nat)
      requires max_versions > 0
      ensures Valid() && obj_hash == seq(max_versions, _ => []) && size_hash == max_versions && this.n == n
    {
      this.size_hash, this.n := max_versions, n;
      num_obj, var_dict, obj_hash := 0, {}, seq(max_versions, _ => []);
      EmptyBins<Object<D>>(max_versions);
    }

    /** ls_add_obj. */
    method LsAddObj(od: Object<D>)
      requires Valid() && IsBox(od.desc.bb, n)
      modifies this
      ensures Valid() && var_dict == old(var_dict) + {od.desc.name}
      ensures var b := Bin(od.desc.version, size_hash); obj_hash == old(obj_hash)[b := StoredObject(old(obj_hash[b]), od, n)]
      ensures InFront(old(obj_hash[Bin(od.desc.version, size_hash)]), obj_hash[Bin(od.desc.version, size_hash)], od, n)
    {
      hide Bin, FirstOverlap, TotalLen;
      var_dict := var_dict + {od.desc.name};
      var index := Bin(od.desc.version, size_hash);
      ghost var was, bin := obj_hash, obj_hash[index];
      var i := FindMatch(Descs(obj_hash[index]), od.desc, n);
      if i < |obj_hash[index]| {
        TotalLenUpdate(obj_hash, index, bin[..i] + bin[i + 1..]);
        obj_hash := obj_hash[index := obj_hash[index][..i] + obj_hash[index][i + 1..]];
        num_obj := num_obj - 1;
      }
      TotalLenUpdate(obj_hash, index, [od] + obj_hash[index]);
      obj_hash := obj_hash[index := [od] + obj_hash[index]];
      num_obj := num_obj + 1;
      assert obj_hash[index] == StoredObject(bin, od, n);
      StoredInFront(bin, od, n);
      assert obj_hash == was[index := StoredObject(bin, od, n)];
      assert forall j :: 0 <= j < |obj_hash[index]| ==> obj_hash[index][j] == od || obj_hash[index][j] in bin;
    }

    /** ls_find: the first object of the name and version that meets the box. */
    method LsFind(odsc: Desc) returns (od: Option<Object<D>>)
      requires Valid() && IsBox(odsc.bb, n)
      ensures var bin := obj_hash[Bin(odsc.version, size_hash)]; match od
        case Some(o) => o in bin && Answers(o.desc, odsc, n) && FirstAnswer(bin, odsc, n, o)
        case None => forall o :: o in bin ==> !Answers(o.desc, odsc, n)
    {
      hide Bin, Meets;
      var index := Bin(odsc.version, size_hash);
      var list := obj_hash[index];
      for i := 0 to |list|
        invariant forall j :: 0 <= j < i ==> !Answers(list[j].desc, odsc, n)
      {
        var answers := EqualsIntersect(list[i].desc, odsc, n);
        if answers {
          return Some(list[i]);
        }
      }
      return None;
    }

    /** ls_find_all: the objects that answer, provided that together they hold every element of the box. */
    method LsFindAll(odsc: Desc) returns (ods: Option<seq<Object<D>>>)
      requires Valid() && NonEmpty(odsc.bb, n)
      requires var bin := obj_hash[Bin(odsc.version, size_hash)];
        PutOnce(Descs(bin), n) && forall i :: 0 <= i < |bin| ==> NonEmpty(bin[i].desc.bb, n)
      ensures var bin := obj_hash[Bin(odsc.version, size_hash)];
        && (ods.Some? <==> Points(odsc.bb) <= Covered(Descs(bin), odsc))
        && (ods.Some? ==> ListsAnswers(Descs(ods.value), Descs(bin), odsc, n) && forall o :: o in ods.value ==> o in bin)
        && (ods.Some? ==> |ods.value| <= num_obj)
    {
      hide Bin, Points, Meets, Found, Covered, InBin, TotalLen;
      var index := Bin(odsc.version, size_hash);
      var list := obj_hash[index];
      ghost var own, ds := Points(odsc.bb), Descs(list);
      VolumeIsCount(odsc.bb, n);
      var num_elem: int := BBoxVolume(odsc.bb, n);
      var tab := [];
      NoDescriptors(own, ds, odsc, n);
      for i := 0 to |list|
        invariant Descs(tab) == Found(ds[..i], odsc, n) && num_elem == |Uncovered(own, ds[..i], odsc)|
        invariant forall o :: o in tab ==> o in list
      {
        NextDescriptor(own, ds, odsc, n, i);
        var answers := EqualsIntersect(list[i].desc, odsc, n);
        if answers {
          assert Descs(tab + [list[i]]) == Descs(tab) + [ds[i]];
          tab := tab + [list[i]];
          var isect := BBoxIntersect(odsc.bb, list[i].desc.bb, n);
          IntersectionCount(odsc.bb, list[i].desc.bb, n);
          var common := BBoxVolume(isect, n);
          ApartCovered(ds[..i], ds[i], odsc, n);
          AnswerDrops(own, ds[..i], ds[i], odsc, n);
          num_elem := num_elem - common;
        } else {
          OtherStays(own, ds[..i], ds[i], odsc, n);
        }
      }
      assert ds[..|list|] == ds;
      FoundLists(ds, odsc, n);
      BinAtMost(obj_hash, index);
      NothingUncovered(ds, odsc);
      if num_elem != 0 {
        return None;
      }
      return Some(tab);
    }
  }

  lemma VolumeIsCount(b: Box, n: nat)
    requires NonEmpty(b, n)
    ensures Sized(b, n) && Volume(b) == |Points(b)| == |Points(b) * Points(b)|
  {
    VolumeCounts(b.lb, b.ub);
    assert Points(b) * Points(b) == Points(b);
  }

  lemma IntersectionCount(b: Box, c: Box, n: nat)
    requires NonEmpty(b, n) && NonEmpty(c, n) && Meets(b, c, n)
    ensures Sized(Intersection(b, c), n) && Volume(Intersection(b, c)) == |Points(b) * Points(Intersection(b, c))|
  {
    IntersectionSized(b, c, n);
    IntersectionPoints(b, c, n);
    var r := Intersection(b, c);
    VolumeCounts(r.lb, r.ub);
    assert Points(b) * Points(r) == Points(r);
  }

  lemma NothingUncovered(ds: seq<Desc>, q: Desc)
    requires |q.bb.lb| == |q.bb.ub|
    ensures |Uncovered(Points(q.bb), ds, q)| == 0 <==> Points(q.bb) <= Covered(ds, q)
  {
    hide Points, Covered;
    var s, c := Points(q.bb), Covered(ds, q);
    assert s * s == s;
    assert |s - c| == 0 <==> s - c == {};
    assert s - c == {} <==> s <= c by {
      if s - c == {} {
        forall p | p in s
          ensures p in c
        {
          assert p !in s - c;
        }
      }
    }
  }

  // ----- boxes that are equal or apart

  /** The boxes of one name form a fixed grid: two of them are the same or share no point. */
  ghost predicate SameOrApart(d: Desc, e: Desc, n: nat) {
    d.name == e.name ==> (IsBox(d.bb, n) && d.bb == e.bb) || Apart(d, e, n)
  }

  ghost predicate Slot(d: Desc, e: Desc) {
    d.name == e.name && d.bb == e.bb
  }

  /** A bin holds at most one descriptor for a name and a box. */
  ghost predicate OnePerSlot(bin: seq<Desc>) {
    forall i, j :: 0 <= i < j < |bin| ==> !Slot(bin[i], bin[j])
  }

  /** The descriptors fit the grid that d belongs to. */
  ghost predicate OnGrid(bin: seq<Desc>, d: Desc, n: nat) {
    NonEmpty(d.bb, n) && forall i :: 0 <= i < |bin| ==> NonEmpty(bin[i].bb, n) && SameOrApart(bin[i], d, n)
  }

  /** On a grid the first overlapping descriptor is the one of the same slot, if there is one. */
  lemma OverlapIsSlot(bin: seq<Desc>, d: Desc, n: nat)
    requires OnGrid(bin, d, n)
    ensures var i := FirstOverlap(bin, d, n);
      (i < |bin| ==> Slot(bin[i], d)) && (forall j :: 0 <= j < i ==> !Slot(bin[j], d))
  {
    hide FirstOverlap;
    var i := FirstOverlap(bin, d, n);
    if i < |bin| {
      MeetsSymmetric(d.bb, bin[i].bb, n);
      assert SameOrApart(bin[i], d, n);
    }
    forall j | 0 <= j < i
      ensures !Slot(bin[j], d)
    {
      assert !Overlaps(bin[j], d, n);
      SelfMeets(d.bb, n);
    }
  }

  lemma SelfMeets(b: Box, n: nat)
    requires NonEmpty(b, n)
    ensures Meets(b, b, n)
  {
    PointMeansMeets(b, b, n, b.lb);
  }

  /** Storing keeps one object per slot: the new one in its own slot, the others' objects as they were. */
  lemma StoredSlots(bin: seq<Desc>, d: Desc, e: Desc, n: nat)
    requires OnGrid(bin, d, n) && OnePerSlot(bin)
    ensures OnePerSlot(Stored(bin, d, n))
    ensures e in Stored(bin, d, n) <==> e == d || (e in bin && !Slot(e, d))
  {
    hide FirstOverlap, OnGrid;
    OverlapIsSlot(bin, d, n);
    var i, r := FirstOverlap(bin, d, n), Stored(bin, d, n);
    if i < |bin| {
      assert forall j :: 0 < j < |r| ==> r[j] == if j <= i then bin[j - 1] else bin[j];
      assert forall j :: i < j < |bin| ==> !Slot(bin[i], bin[j]);
    } else {
      assert forall j :: 0 < j < |r| ==> r[j] == bin[j - 1];
    }
    StoredMembers(bin, d, e, n);
  }

  lemma StoredMembers(bin: seq<Desc>, d: Desc, e: Desc, n: nat)
    requires OnGrid(bin, d, n) && OnePerSlot(bin)
    ensures e in Stored(bin, d, n) <==> e == d || (e in bin && !Slot(e, d))
  {
    hide FirstOverlap, OnGrid;
    OverlapIsSlot(bin, d, n);
    var i, r := FirstOverlap(bin, d, n), Stored(bin, d, n);
    if e in bin && !Slot(e, d) {
      var j :| 0 <= j < |bin| && bin[j] == e;
      assert e == if i < |bin| && j > i then r[j] else r[j + 1];
    }
    if e in r && e != d {
      var j :| 0 <= j < |r| && r[j] == e;
      assert e == if i < |bin| && j > i then bin[j] else bin[j - 1];
    }
  }

  /** Adding to the index changes a bin's descriptors in the same way. */
  lemma AddedSlots(bin: seq<Desc>, d: Desc, e: Desc, n: nat)
    requires OnGrid(bin, d, n) && OnePerSlot(bin)
    ensures OnePerSlot(Added(bin, d, n))
    ensures e in Added(bin, d, n) <==> e == d || (e in bin && !Slot(e, d))
  {
    hide FirstOverlap, OnGrid;
    OverlapIsSlot(bin, d, n);
    var i, r := FirstOverlap(bin, d, n), Added(bin, d, n);
    if i < |bin| {
      assert forall j :: 0 <= j < |r| ==> r[j] == if j == i then d else bin[j];
      assert forall j :: i < j < |bin| ==> !Slot(bin[i], bin[j]);
    } else {
      assert forall j :: 0 < j < |r| ==> r[j] == bin[j - 1];
    }
    AddedMember(bin, d, e, n);
    if e in bin {
      var j :| 0 <= j < |bin| && bin[j] == e;
      assert i < |bin| && j != i ==> r[j] == e;
    }
    if e in r && e != d {
      var j :| 0 <= j < |r| && r[j] == e;
      assert e == if i < |bin| then bin[j] else bin[j - 1];
    }
  }

  // ----- what a history leaves

  ghost predicate SamePlace(e: Desc, d: Desc, size: nat)
    requires size > 0
  {
    Slot(e, d) && Bin(e.version, size) == Bin(d.version, size)
  }

  /** Boxes of a name that share a bin are the same or apart. */
  ghost predicate Fitting(d: Desc, e: Desc, size: nat, n: nat)
    requires size > 0
  {
    Bin(d.version, size) == Bin(e.version, size) ==> SameOrApart(d, e, n)
  }

  ghost predicate GridLog(log: seq<Desc>, size: nat, n: nat)
    requires size > 0
  {
    && (forall e :: e in log ==> NonEmpty(e.bb, n))
    && forall d, e :: d in log && e in log ==> Fitting(d, e, size, n)
  }

  /** The last entry of the log with e's name, box and bin. */
  ghost function LastAt(log: seq<Desc>, e: Desc, size: nat): (r: Option<Desc>)
    requires size > 0
    ensures r.Some? ==> r.value in log && SamePlace(r.value, e, size)
    ensures r.None? ==> forall x :: x in log ==> !SamePlace(x, e, size)
  {
    if log == [] then None
    else
      var last := |log| - 1;
      assert log == log[..last] + [log[last]];
      if SamePlace(log[last], e, size) then Some(log[last]) else LastAt(log[..last], e, size)
  }

  lemma LastAtSnoc(log: seq<Desc>, d: Desc, e: Desc, size: nat)
    requires size > 0
    ensures LastAt(log + [d], e, size) == if SamePlace(d, e, size) then Some(d) else LastAt(log, e, size)
  {
    assert (log + [d])[..|log|] == log;
  }

  lemma LastAtSamePlace(log: seq<Desc>, d: Desc, e: Desc, size: nat)
    requires size > 0 && SamePlace(d, e, size)
    ensures LastAt(log, d, size) == LastAt(log, e, size)
    decreases |log|
  {
    hide Bin;
    if log != [] {
      LastAtSamePlace(log[..|log| - 1], d, e, size);
    }
  }

  /** The entry is the last one of its place. */
  ghost predicate LastPut(log: seq<Desc>, i: nat, size: nat)
    requires size > 0 && i < |log|
  {
    forall j :: i < j < |log| ==> !SamePlace(log[j], log[i], size)
  }

  ghost predicate Survives(log: seq<Desc>, e: Desc, size: nat)
    requires size > 0
  {
    exists i :: 0 <= i < |log| && log[i] == e && LastPut(log, i, size)
  }

  lemma SurvivesStep(log: seq<Desc>, e: Desc, size: nat)
    requires size > 0 && log != []
    ensures Survives(log, e, size)
      <==> e == log[|log| - 1] || (Survives(log[..|log| - 1], e, size) && !SamePlace(log[|log| - 1], e, size))
  {
    hide SamePlace;
    var last := |log| - 1;
    var d, before := log[last], log[..last];
    if Survives(log, e, size) && e != d {
      var i :| 0 <= i < |log| && log[i] == e && LastPut(log, i, size);
      assert before[i] == e && LastPut(before, i, size);
    }
    if Survives(before, e, size) && !SamePlace(d, e, size) {
      var i :| 0 <= i < |before| && before[i] == e && LastPut(before, i, size);
      assert log[i] == e && LastPut(log, i, size);
    }
    assert log[last] == d && LastPut(log, last, size);
  }

  /** What survives is what was put last at its place. */
  lemma {:induction false} SurvivesIsLast(log: seq<Desc>, e: Desc, size: nat)
    requires size > 0
    ensures Survives(log, e, size) <==> LastAt(log, e, size) == Some(e)
  {
    hide Bin, Survives;
    if log == [] {
      NothingSurvives(e, size);
    } else {
      SurvivesIsLast(log[..|log| - 1], e, size);
      SurvivesStep(log, e, size);
    }
  }

  lemma NothingSurvives(e: Desc, size: nat)
    requires size > 0
    ensures !Survives([], e, size)
  {
  }

  /** A bin holds exactly what was put last at its place, once. */
  ghost predicate BinFollows(log: seq<Desc>, bin: seq<Desc>, b: nat, size: nat)
    requires size > 0
  {
    OnePerSlot(bin) && forall e :: e in bin <==> Bin(e.version, size) == b && LastAt(log, e, size) == Some(e)
  }

  ghost predicate BinsFollow(log: seq<Desc>, bins: seq<seq<Desc>>, size: nat)
    requires size > 0
  {
    |bins| == size && forall b :: 0 <= b < size ==> BinFollows(log, bins[b], b, size)
  }

  lemma FollowsNothing(size: nat)
    requires size > 0
    ensures BinsFollow([], seq(size, _ => []), size)
  {
  }

  /** One entry more: its own slot changes, whether the bin takes it in front or in place. */
  lemma BinStep(log: seq<Desc>, was: seq<Desc>, d: Desc, bin: seq<Desc>, size: nat)
    requires size > 0 && BinFollows(log, was, Bin(d.version, size), size)
    requires OnePerSlot(bin) && forall e :: e in bin <==> e == d || (e in was && !Slot(e, d))
    ensures BinFollows(log + [d], bin, Bin(d.version, size), size)
  {
    hide Bin, LastAt, OnePerSlot;
    forall e
      ensures e in bin <==> Bin(e.version, size) == Bin(d.version, size) && LastAt(log + [d], e, size) == Some(e)
    {
      LastAtSnoc(log, d, e, size);
    }
  }

  lemma OtherBin(log: seq<Desc>, d: Desc, bin: seq<Desc>, b: nat, size: nat)
    requires size > 0 && BinFollows(log, bin, b, size) && b != Bin(d.version, size)
    ensures BinFollows(log + [d], bin, b, size)
  {
    hide Bin, LastAt, OnePerSlot, Slot;
    forall e
      ensures e in bin <==> Bin(e.version, size) == b && LastAt(log + [d], e, size) == Some(e)
    {
      LastAtSnoc(log, d, e, size);
    }
  }

  lemma FollowsStep(log: seq<Desc>, bins: seq<seq<Desc>>, d: Desc, bin: seq<Desc>, size: nat)
    requires size > 0 && BinsFollow(log, bins, size)
    requires OnePerSlot(bin) && forall e :: e in bin <==> e == d || (e in bins[Bin(d.version, size)] && !Slot(e, d))
    ensures BinsFollow(log + [d], bins[Bin(d.version, size) := bin], size)
  {
    hide Bin, LastAt, OnePerSlot, BinFollows, Slot;
    BinStep(log, bins[Bin(d.version, size)], d, bin, size);
    forall b | 0 <= b < size && b != Bin(d.version, size)
      ensures BinFollows(log + [d], bins[b], b, size)
    {
      OtherBin(log, d, bins[b], b, size);
    }
  }

  lemma BinOnGrid(log: seq<Desc>, bins: seq<seq<Desc>>, d: Desc, size: nat, n: nat)
    requires size > 0 && BinsFollow(log, bins, size) && GridLog(log + [d], size, n)
    ensures OnGrid(bins[Bin(d.version, size)], d, n)
  {
    hide Bin, LastAt, SameOrApart, OnePerSlot;
    var bin := bins[Bin(d.version, size)];
    assert d in log + [d];
    forall i | 0 <= i < |bin|
      ensures NonEmpty(bin[i].bb, n) && SameOrApart(bin[i], d, n)
    {
      assert bin[i] in bin;
      assert LastAt(log, bin[i], size) == Some(bin[i]);
      LastAtIn(log, bin[i], size);
      assert Fitting(bin[i], d, size, n);
    }
  }

  lemma LastAtIn(log: seq<Desc>, e: Desc, size: nat)
    requires size > 0 && LastAt(log, e, size) == Some(e)
    ensures e in log
  {
  }

  lemma FollowsStored(log: seq<Desc>, bins: seq<seq<Desc>>, d: Desc, size: nat, n: nat)
    requires size > 0 && BinsFollow(log, bins, size) && GridLog(log + [d], size, n)
    ensures var b := Bin(d.version, size); BinsFollow(log + [d], bins[b := Stored(bins[b], d, n)], size)
  {
    hide Bin, OnePerSlot, OnGrid, Stored, GridLog, Slot, LastAt;
    var b := Bin(d.version, size);
    BinOnGrid(log, bins, d, size, n);
    forall e
      ensures OnePerSlot(Stored(bins[b], d, n))
      ensures e in Stored(bins[b], d, n) <==> e == d || (e in bins[b] && !Slot(e, d))
    {
      StoredSlots(bins[b], d, e, n);
    }
    FollowsStep(log, bins, d, Stored(bins[b], d, n), size);
  }

  lemma FollowsAdded(log: seq<Desc>, bins: seq<seq<Desc>>, d: Desc, size: nat, n: nat)
    requires size > 0 && BinsFollow(log, bins, size) && GridLog(log + [d], size, n)
    ensures var b := Bin(d.version, size); BinsFollow(log + [d], bins[b := Added(bins[b], d, n)], size)
  {
    hide Bin, OnePerSlot, OnGrid, Added, GridLog, Slot, LastAt;
    var b := Bin(d.version, size);
    BinOnGrid(log, bins, d, size, n);
    forall e
      ensures OnePerSlot(Added(bins[b], d, n))
      ensures e in Added(bins[b], d, n) <==> e == d || (e in bins[b] && !Slot(e, d))
    {
      AddedSlots(bins[b], d, e, n);
    }
    FollowsStep(log, bins, d, Added(bins[b], d, n), size);
  }

  /** The bins after the puts of a log, oldest first. */
  ghost function After(log: seq<Desc>, size: nat, n: nat): (bins: seq<seq<Desc>>)
    requires size > 0
    ensures |bins| == size
  {
    if log == [] then seq(size, _ => [])
    else
      var last := |log| - 1;
      var bins := After(log[..last], size, n);
      var b := Bin(log[last].version, size);
      bins[b := Stored(bins[b], log[last], n)]
  }

  lemma {:induction false} AfterFollows(log: seq<Desc>, size: nat, n: nat)
    requires size > 0 && GridLog(log, size, n)
    ensures BinsFollow(log, After(log, size, n), size)
  {
    hide Fitting, Stored, LastAt, BinsFollow;
    if log == [] {
      FollowsNothing(size);
    } else {
      var last := |log| - 1;
      assert log == log[..last] + [log[last]];
      AfterFollows(log[..last], size, n);
      FollowsStored(log[..last], After(log[..last], size, n), log[last], size, n);
    }
  }

  /** Each name, box and version modulo the number of bins keeps its last put, and nothing else is stored. */
  lemma KeepsLastPut(log: seq<Desc>, size: nat, n: nat, e: Desc, b: nat)
    requires size > 0 && GridLog(log, size, n) && b < size
    ensures OnePerSlot(After(log, size, n)[b])
    ensures e in After(log, size, n)[b] <==> Bin(e.version, size) == b && Survives(log, e, size)
  {
    hide After, Bin, GridLog, LastAt, OnePerSlot, Survives;
    AfterFollows(log, size, n);
    SurvivesIsLast(log, e, size);
  }

  // ----- the version window

  /** A slot is put at versions 0, 1, ..., top in this order. */
  ghost predicate InOrder(log: seq<Desc>, d: Desc, top: nat) {
    && (forall i, j :: 0 <= i < j < |log| && Slot(log[i], d) && Slot(log[j], d) ==> log[i].version < log[j].version)
    && (forall i :: 0 <= i < |log| && Slot(log[i], d) ==> log[i].version <= top)
    && (forall v :: 0 <= v <= top ==> PutAt(log, d, v))
  }

  ghost predicate PutAt(log: seq<Desc>, d: Desc, v: nat) {
    exists i :: 0 <= i < |log| && Slot(log[i], d) && log[i].version == v
  }

  lemma Quotient(v: nat, size: nat) returns (q: nat)
    requires size > 0
    ensures v == Times(q, size) + Bin(v, size)
  {
    q := v / size;
    TimesIsProduct(q, size);
  }

  lemma SameBin(v: nat, w: nat, size: nat)
    requires size > 0
    ensures Bin(v + size, size) == Bin(v, size)
    ensures v < w && Bin(v, size) == Bin(w, size) ==> v + size <= w
  {
    hide Bin;
    var q := Quotient(v, size);
    var q' := Quotient(w, size);
    var q'' := Quotient(v + size, size);
    HighLowUnique(q + 1, Bin(v, size), q'', Bin(v + size, size), size);
    if q < q' {
      TimesMonotone(q + 1, q', size);
    } else {
      TimesMonotone(q', q, size);
    }
  }

  /** What survives of a slot is the newest version of its bin. */
  lemma Newest(log: seq<Desc>, e: Desc, j: nat, size: nat, top: nat)
    requires size > 0 && InOrder(log, e, top) && j < |log| && Survives(log, e, size)
    requires Slot(log[j], e) && Bin(log[j].version, size) == Bin(e.version, size)
    ensures log[j].version <= e.version
  {
    hide Bin;
    var i :| 0 <= i < |log| && log[i] == e && LastPut(log, i, size);
    assert Slot(e, e);
    assert j <= i;
  }

  /** Of a slot put in order exactly the last versions are kept, as many as there are bins. */
  lemma VersionWindow(log: seq<Desc>, size: nat, n: nat, i: nat, top: nat)
    requires size > 0 && GridLog(log, size, n) && i < |log| && InOrder(log, log[i], top)
    ensures log[i] in After(log, size, n)[Bin(log[i].version, size)] <==> top < log[i].version + size
  {
    hide Bin, SameOrApart, After;
    var e := log[i];
    KeepsLastPut(log, size, n, e, Bin(e.version, size));
    SameBin(e.version, 0, size);
    if e.version + size <= top {
      assert PutAt(log, e, e.version + size);
      var j :| 0 <= j < |log| && Slot(log[j], e) && log[j].version == e.version + size;
      if Survives(log, e, size) {
        Newest(log, e, j, size, top);
      }
    } else {
      forall j | i < j < |log|
        ensures !SamePlace(log[j], log[i], size)
      {
        SameBin(e.version, log[j].version, size);
      }
      assert LastPut(log, i, size);
    }
  }

  // ----- the puts still in the window

  /** The puts that no later put has taken the place of. */
  ghost function Live(log: seq<Desc>, size: nat): seq<Desc>
    requires size > 0
  {
    if log == [] then []
    else (if LastPut(log, 0, size) then [log[0]] else []) + Live(log[1..], size)
  }

  lemma {:induction false} LiveAt(log: seq<Desc>, e: Desc, size: nat)
    requires size > 0
    ensures e in Live(log, size) <==> Survives(log, e, size)
  {
    hide SamePlace;
    if log != [] {
      LiveAt(log[1..], e, size);
      if Survives(log[1..], e, size) {
        var i :| 0 <= i < |log| - 1 && log[1..][i] == e && LastPut(log[1..], i, size);
        LastPutTail(log, i + 1, size);
      }
      if Survives(log, e, size) {
        var i :| 0 <= i < |log| && log[i] == e && LastPut(log, i, size);
        if i > 0 {
          LastPutTail(log, i, size);
          assert log[1..][i - 1] == e;
        }
      }
    }
  }

  lemma LastPutTail(log: seq<Desc>, i: nat, size: nat)
    requires size > 0 && 0 < i < |log|
    ensures LastPut(log, i, size) <==> LastPut(log[1..], i - 1, size)
  {
    hide SamePlace;
    if LastPut(log[1..], i - 1, size) {
      forall j | i < j < |log|
        ensures !SamePlace(log[j], log[i], size)
      {
        assert log[j] == log[1..][j - 1];
      }
    }
  }

  lemma SurvivorWasPut(log: seq<Desc>, e: Desc, size: nat)
    requires size > 0 && Survives(log, e, size)
    ensures e in log
  {
  }

  /** On a grid the live puts of one object are apart. */
  lemma {:induction false} LivePutOnce(log: seq<Desc>, size: nat, n: nat)
    requires size > 0 && GridLog(log, size, n)
    ensures PutOnce(Live(log, size), n)
  {
    hide Bin, SameOrApart, Survives, LastPut;
    if log != [] {
      var rest := Live(log[1..], size);
      LivePutOnce(log[1..], size, n);
      if LastPut(log, 0, size) {
        forall j | 0 <= j < |rest| && SameObject(log[0], rest[j])
          ensures Apart(log[0], rest[j], n)
        {
          LiveAt(log[1..], rest[j], size);
          SurvivorWasPut(log[1..], rest[j], size);
          LastIsApart(log, rest[j], size, n);
        }
      }
    }
  }

  lemma LastIsApart(log: seq<Desc>, e: Desc, size: nat, n: nat)
    requires size > 0 && log != [] && GridLog(log, size, n) && LastPut(log, 0, size) && e in log[1..] && SameObject(log[0], e)
    ensures Apart(log[0], e, n)
  {
    hide Bin;
    var j :| 0 <= j < |log| - 1 && log[1..][j] == e;
    assert log[j + 1] == e;
    assert Fitting(log[0], e, size, n);
  }

  /** The last put of a place. */
  lemma LastOfPlace(log: seq<Desc>, i: nat, size: nat) returns (j: nat)
    requires size > 0 && i < |log|
    ensures i <= j < |log| && SamePlace(log[j], log[i], size) && LastPut(log, j, size)
    decreases |log| - i
  {
    hide Bin;
    if LastPut(log, i, size) {
      j := i;
    } else {
      var k :| i < k < |log| && SamePlace(log[k], log[i], size);
      j := LastOfPlace(log, k, size);
    }
  }

  /** Since q's object was put first, only its own and the next versions of its name have been put, fewer than there are bins. */
  ghost predicate WindowOpen(log: seq<Desc>, q: Desc, size: nat) {
    forall i, j :: 0 <= i < j < |log| && SameObject(log[i], q) && log[j].name == q.name ==>
      q.version <= log[j].version < q.version + size
  }

  /** While its window is open the live puts cover of an object what all its puts covered. */
  lemma LiveCovers(log: seq<Desc>, q: Desc, size: nat)
    requires size > 0 && WindowOpen(log, q, size) && Covers(log, q)
    ensures Covers(Live(log, size), q)
  {
    hide Bin, In, LastPut;
    forall p | In(q.bb, p)
      ensures SomeCovers(Live(log, size), q, p)
    {
      var i :| 0 <= i < |log| && CoveredBy(log[i], q, p);
      var j := LastOfPlace(log, i, size);
      if i < j {
        SameBin(q.version, log[j].version, size);
      }
      LiveAt(log, log[j], size);
      assert Survives(log, log[j], size);
      var t :| 0 <= t < |Live(log, size)| && Live(log, size)[t] == log[j];
      assert CoveredBy(Live(log, size)[t], q, p);
    }
  }
}
