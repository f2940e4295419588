/** Fetching the pieces of a query from their owners and putting them together in the caller's buffer. */
module Reassembly {
  import opened HilbertIndex
  import opened Boxes
  import opened LinkedQueue
  import opened Descriptors
  import opened ObjectIndex
  import opened Subscriptions
  import opened Rendezvous
  import opened Query
  import opened VersionedStore
  import opened SubArrayCopy

  /** The buffer of a box holds exactly what was put. */
  ghost predicate HoldsValues<T>(buffer: seq<T>, bb: Box, value: Point -> T)
    requires |bb.lb| == |bb.ub|
  {
    forall p {:trigger CellAt(buffer, bb, p)} :: In(bb, p) ==> CellAt(buffer, bb, p) == Some(value(p))
  }

  /** A stored object's buffer holds what was put. */
  ghost predicate HoldsPut<T>(o: Object<ObjData<T>>, value: Point -> T)
    requires |o.desc.bb.lb| == |o.desc.bb.ub|
    reads o.data, o.data.data
  {
    o.data.bb == o.desc.bb && o.data.data.Length == Volume(o.desc.bb) && HoldsValues(o.data.data[..], o.desc.bb, value)
  }

  /** An owner's bin for q, whose objects live in heap: those of q's name and version are puts, with their elements. */
  ghost predicate GoodBin<T>(bin: seq<Object<ObjData<T>>>, heap: set<object>, q: Desc, puts: seq<Desc>, n: nat, value: Point -> T)
    reads heap
  {
    forall i :: 0 <= i < |bin| ==>
      && bin[i].data in heap && bin[i].data.data in heap && IsBox(bin[i].desc.bb, n)
      && (SameObject(bin[i].desc, q) ==> bin[i].desc in puts && HoldsPut(bin[i], value))
  }

  ghost predicate GoodStore<T>(store: Storage<ObjData<T>>, heap: set<object>, q: Desc, puts: seq<Desc>, n: nat, value: Point -> T)
    reads heap
  {
    && store in heap && store.Valid() && store.n == n
    && GoodBin(store.obj_hash[Bin(q.version, store.size_hash)], heap, q, puts, n, value)
  }

  ghost predicate Keeps<D>(bin: seq<Object<D>>, d: Desc) {
    exists i :: 0 <= i < |bin| && bin[i].desc == d
  }

  /** The object found for a piece is the put the piece was clipped from. */
  lemma PieceFindsPut(d: Desc, e: Desc, q: Desc, puts: seq<Desc>, domain: Box, n: nat)
    requires Inside(q, domain, n) && AllInside(puts, domain, n) && PutOnce(puts, n)
    requires d in puts && e in puts && Answers(d, q, n) && Answers(e, Clip(d, q), n)
    ensures e == d
  {
    var i :| 0 <= i < |puts| && puts[i] == d;
    var j :| 0 <= j < |puts| && puts[j] == e;
    IntersectionInside(q.bb, d.bb, domain, n);
    if i != j {
      PutsApart(puts, i, j, n);
      MeetsMeansPoint(Clip(d, q).bb, e.bb, n);
      var p :| In(Clip(d, q).bb, p) && In(e.bb, p);
      InIntersection(q.bb, d.bb, n, p);
      PointMeansMeets(d.bb, e.bb, n, p);
    }
  }

  /** The stored object answers its own piece. */
  lemma PutAnswersPiece(d: Desc, q: Desc, domain: Box, n: nat)
    requires Inside(q, domain, n) && Inside(d, domain, n) && Answers(d, q, n)
    ensures Answers(d, Clip(d, q), n) && NonEmpty(Clip(d, q).bb, n) && Includes(d.bb, Clip(d, q).bb, n)
    ensures Includes(q.bb, Clip(d, q).bb, n)
  {
    IntersectionInside(q.bb, d.bb, domain, n);
    var p := Clip(d, q).bb.lb;
    assert In(Clip(d, q).bb, p);
    InIntersection(q.bb, d.bb, n, p);
    PointMeansMeets(Clip(d, q).bb, d.bb, n, p);
  }

  /** A copy between boxes of fewer than ten dimensions leaves in every common cell the source's element for it. */
  lemma MergedValue<T>(to: Box, from: Box, n: nat, src: seq<T>, was: seq<T>, now: seq<T>, value: Point -> T, p: Point)
    requires n < 10 && IsBox(to, n) && IsBox(from, n) && Merged(to, from, src, was, now) && HoldsValues(src, from, value)
    requires In(to, p)
    ensures CellAt(now, to, p) == if In(from, p) then Some(value(p)) else CellAt(was, to, p)
  {
    hide CellAt;
    SourceIsSame(to, from, p);
    assert CellAt(now, to, p) == CellAt(now, to, p);
    assert In(from, p) ==> CellAt(src, from, p) == Some(value(p));
  }

  lemma PartCopied<T>(part: Box, whole: Box, n: nat, src: seq<T>, was: seq<T>, now: seq<T>, value: Point -> T)
    requires n < 10 && IsBox(part, n) && IsBox(whole, n) && Includes(whole, part, n)
    requires Merged(part, whole, src, was, now) && HoldsValues(src, whole, value)
    ensures HoldsValues(now, part, value)
  {
    hide CellAt, Merged;
    forall p | In(part, p)
      ensures CellAt(now, part, p) == Some(value(p))
    {
      MergedValue(part, whole, n, src, was, now, value, p);
    }
  }

  /** The part of get_rpc that builds the reply: find the object, copy the piece out of it. */
  method GetRpc<T(0)>(store: Storage<ObjData<T>>, odsc: Desc, ghost heap: set<object>, ghost d: Desc, ghost q: Desc, ghost puts: seq<Desc>,
                      ghost domain: Box, ghost n: nat, ghost value: Point -> T)
    returns (od: ObjData<T>)
    requires 1 <= n <= 9 && Inside(q, domain, n) && AllInside(puts, domain, n) && PutOnce(puts, n)
    requires d in puts && Answers(d, q, n) && odsc == Clip(d, q)
    requires GoodStore(store, heap, q, puts, n, value) && Keeps(store.obj_hash[Bin(q.version, store.size_hash)], d)
    ensures fresh(od) && fresh(od.data) && od.bb == odsc.bb && od.data.Length == Volume(odsc.bb)
    ensures HoldsValues(od.data[..], odsc.bb, value)
  {
    hide Volume, CellAt, Merged, Meets, Includes, HoldsValues, PutOnce, Storage.InBin, TotalLen, Bin;
    PutAnswersPiece(d, q, domain, n);
    ghost var bin := store.obj_hash[Bin(q.version, store.size_hash)];
    ghost var i :| 0 <= i < |bin| && bin[i].desc == d;
    assert bin[i] in bin;
    var found := store.LsFind(odsc);
    var from_obj := found.value;
    PieceFindsPut(d, from_obj.desc, q, puts, domain, n);
    var volume := BBoxVolume(odsc.bb, n);
    var data := new T[volume];
    od := new ObjData(odsc.bb, 0, 0, data);
    PieceCopyable(d.bb, odsc.bb, n);
    ghost var was := od.data[..];
    var copied := SsdCopy(od, from_obj.data, n);
    PartCopied(od.bb, from_obj.data.bb, n, from_obj.data.data[..], was, od.data[..], value);
  }

  lemma PieceCopyable(whole: Box, piece: Box, n: nat)
    requires 1 <= n <= 9 && NonEmpty(whole, n) && NonEmpty(piece, n) && Includes(whole, piece, n)
    ensures Copyable(piece, whole, n) && Copyable(whole, piece, n) && Sized(piece, n)
  {
    assert In(piece, piece.lb) && In(whole, piece.lb);
    PointMeansMeets(piece, whole, n, piece.lb);
    PointMeansMeets(whole, piece, n, piece.lb);
  }

  // ----- get_data

  ghost predicate InSome(results: seq<Desc>, p: Point) {
    exists i :: 0 <= i < |results| && In(results[i].bb, p)
  }

  /** The cells of the pieces copied so far hold what was put. */
  ghost predicate Filled<T>(buffer: seq<T>, q: Desc, results: seq<Desc>, value: Point -> T)
    requires |q.bb.lb| == |q.bb.ub|
  {
    forall p {:trigger CellAt(buffer, q.bb, p)} :: In(q.bb, p) && InSome(results, p) ==> CellAt(buffer, q.bb, p) == Some(value(p))
  }

  lemma FilledMore<T>(q: Desc, results: seq<Desc>, i: nat, n: nat, src: seq<T>, was: seq<T>, now: seq<T>, value: Point -> T)
    requires n < 10 && IsBox(q.bb, n) && i < |results| && IsBox(results[i].bb, n)
    requires Filled(was, q, results[..i], value) && HoldsValues(src, results[i].bb, value)
    requires Merged(q.bb, results[i].bb, src, was, now)
    ensures Filled(now, q, results[..i + 1], value)
  {
    hide CellAt, Merged, In;
    forall p | In(q.bb, p) && InSome(results[..i + 1], p)
      ensures CellAt(now, q.bb, p) == Some(value(p))
    {
      MergedValue(q.bb, results[i].bb, n, src, was, now, value, p);
      var j :| 0 <= j < i + 1 && In(results[..i + 1][j].bb, p);
      if j < i {
        assert results[..i][j] == results[j];
        assert InSome(results[..i], p);
        assert CellAt(was, q.bb, p) == Some(value(p));
      }
    }
  }

  lemma FilledWhole<T>(q: Desc, results: seq<Desc>, puts: seq<Desc>, n: nat, buffer: seq<T>, value: Point -> T)
    requires IsBox(q.bb, n) && Tiles(results, q, puts, n) && Filled(buffer, q, results, value)
    ensures HoldsValues(buffer, q.bb, value)
  {
    hide CellAt, In;
    forall p | In(q.bb, p)
      ensures CellAt(buffer, q.bb, p) == Some(value(p))
    {
      assert InSome(results, p);
      assert CellAt(buffer, q.bb, p) == CellAt(buffer, q.bb, p);
    }
  }

  /** Every owner's bin is good and keeps the puts the owner is named for. */
  ghost predicate Stores<T>(stores: map<string, Storage<ObjData<T>>>, heap: set<object>, q: Desc, puts: seq<Desc>, n: nat, value: Point -> T)
    reads heap
  {
    && (forall o :: o in stores ==> GoodStore(stores[o], heap, q, puts, n, value))
    && (forall i :: 0 <= i < |puts| && SameObject(puts[i], q) ==>
      puts[i].owner in stores && Keeps(stores[puts[i].owner].obj_hash[Bin(q.version, stores[puts[i].owner].size_hash)], puts[i]))
  }

  /** A reply holds exactly its piece. */
  ghost predicate GoodReply<T>(od: ObjData<T>, piece: Desc, n: nat, value: Point -> T)
    requires IsBox(piece.bb, n)
    reads od, od.data
  {
    od.bb == piece.bb && od.data.Length == Volume(piece.bb) && HoldsValues(od.data[..], piece.bb, value)
  }

  /** The first loop of get_data: the owner of every piece sends it. */
  method FetchPieces<T(0)>(results: seq<Desc>, stores: map<string, Storage<ObjData<T>>>, ghost heap: set<object>, ghost q: Desc, ghost puts: seq<Desc>,
                           ghost domain: Box, ghost n: nat, ghost value: Point -> T)
    returns (ods: seq<ObjData<T>>)
    requires 1 <= n <= 9 && Inside(q, domain, n) && AllInside(puts, domain, n) && PutOnce(puts, n)
    requires Tiles(results, q, puts, n) && Stores(stores, heap, q, puts, n, value)
    ensures |ods| == |results| && forall i :: 0 <= i < |ods| ==> fresh(ods[i]) && fresh(ods[i].data)
    ensures Shaped(results, n) && forall i :: 0 <= i < |ods| ==> GoodReply(ods[i], results[i], n, value)
  {
    hide Volume, CellAt, Meets, Includes, HoldsValues, PutOnce, AllInside, GoodStore, GoodReply, Inside;
    ods := [];
    TilesShaped(results, q, puts, n);
    for i := 0 to |results|
      invariant |ods| == i && forall j :: 0 <= j < i ==> fresh(ods[j]) && fresh(ods[j].data)
      invariant forall j :: 0 <= j < i ==> GoodReply(ods[j], results[j], n, value)
      invariant Stores(stores, heap, q, puts, n, value)
    {
      ghost var t :| 0 <= t < |puts| && Answers(puts[t], q, n) && results[i] == Clip(puts[t], q);
      var od := GetRpc(stores[results[i].owner], results[i], heap, puts[t], q, puts, domain, n, value);
      ReplyIs(od, results[i], n, value);
      ods := ods + [od];
    }
  }

  lemma TilesShaped(results: seq<Desc>, q: Desc, puts: seq<Desc>, n: nat)
    requires Tiles(results, q, puts, n)
    ensures Shaped(results, n)
  {
  }

  lemma ReplyIs<T>(od: ObjData<T>, piece: Desc, n: nat, value: Point -> T)
    requires IsBox(piece.bb, n)
    requires od.bb == piece.bb && od.data.Length == Volume(piece.bb) && HoldsValues(od.data[..], piece.bb, value)
    ensures GoodReply(od, piece, n, value)
  {
  }

  /** One turn of the second loop: a reply is copied into the caller's buffer. */
  method CopyPiece<T>(return_od: ObjData<T>, od: ObjData<T>, ghost q: Desc, ghost results: seq<Desc>, ghost i: nat,
                      ghost puts: seq<Desc>, ghost n: nat, ghost value: Point -> T)
    requires 1 <= n <= 9 && NonEmpty(q.bb, n) && Tiles(results, q, puts, n) && Shaped(results, n) && i < |results|
    requires return_od != od && return_od.data != od.data
    requires return_od.bb == q.bb && return_od.data.Length == Volume(q.bb) && GoodReply(od, results[i], n, value)
    requires Filled(return_od.data[..], q, results[..i], value)
    modifies return_od`tag, return_od`typ, return_od.data
    ensures Filled(return_od.data[..], q, results[..i + 1], value)
  {
    hide Volume, CellAt, Merged, Filled, HoldsValues, Copyable, Meets;
    PieceCopyable(q.bb, results[i].bb, n);
    ghost var was := return_od.data[..];
    var copied := SsdCopy(return_od, od, n);
    FilledMore(q, results, i, n, od.data[..], was, return_od.data[..], value);
  }

  lemma FilledNone<T>(buffer: seq<T>, q: Desc, results: seq<Desc>, value: Point -> T)
    requires |q.bb.lb| == |q.bb.ub|
    ensures Filled(buffer, q, results[..0], value) && results[..|results|] == results
  {
  }

  /** get_data: when the pieces tile the query, every cell of the caller's buffer ends up with the value put there. */
  method GetData<T(0)>(results: seq<Desc>, stores: map<string, Storage<ObjData<T>>>, q: Desc, data: array<T>, ghost heap: set<object>,
                       ghost puts: seq<Desc>, ghost domain: Box, ghost n: nat, ghost value: Point -> T)
    requires 1 <= n <= 9 && Inside(q, domain, n) && AllInside(puts, domain, n) && PutOnce(puts, n)
    requires Tiles(results, q, puts, n) && Stores(stores, heap, q, puts, n, value) && data.Length == Volume(q.bb)
    modifies data
    ensures HoldsValues(data[..], q.bb, value)
  {
    hide Volume, CellAt, Filled, HoldsValues, PutOnce, AllInside, Stores, GoodReply, Tiles;
    var od := FetchPieces(results, stores, heap, q, puts, domain, n, value);
    var return_od := new ObjData(q.bb, 0, 0, data);
    FilledNone(data[..], q, results, value);
    for i := 0 to |results|
      invariant return_od.bb == q.bb && return_od.data == data
      invariant forall j :: 0 <= j < |od| ==> od[j] != return_od && od[j].data != data
      invariant forall j :: 0 <= j < |od| ==> GoodReply(od[j], results[j], n, value)
      invariant Filled(data[..], q, results[..i], value)
    {
      CopyPiece(return_od, od[i], q, results, i, puts, n, value);
    }
    FilledWhole(q, results, puts, n, data[..], value);
  }

  /**
   * Get after put: disjoint puts of one object cover the query box, their index updates have landed and their
   * owners keep them; then a get leaves in every cell of the caller's buffer the value that was put there.
   */
  method DspacesGet<T(0)>(nodes: seq<IndexNode>, rank: nat, de_tab: seq<nat>, q: Desc, forever: bool,
                          stores: map<string, Storage<ObjData<T>>>, data: array<T>, ghost heap: set<object>, ghost sp: Space,
                          ghost puts: seq<Desc>, ghost value: Point -> T)
    requires SpaceOk(sp) && sp.n <= 9 && Inside(q, sp.domain, sp.n) && AllInside(puts, sp.domain, sp.n)
    requires PutOnce(puts, sp.n) && Covers(puts, q)
    requires Ready(nodes, sp, puts, q) && Asked(de_tab, sp, q) && rank < |nodes|
    requires Stores(stores, heap, q, puts, sp.n, value) && data.Length == Volume(q.bb) && heap !! set k | 0 <= k < |nodes| :: nodes[k]
    modifies nodes, data
    ensures HoldsValues(data[..], q.bb, value)
  {
    hide SpaceOk, Volume, HoldsValues, PutOnce, AllInside, Stores, Tiles, Covers, Ready, Asked, Inside;
    var odsc_tab := GetQueryOdscs(nodes, rank, de_tab, q, forever, sp, puts);
    SpaceDims(sp);
    GetData(odsc_tab, stores, q, data, heap, puts, sp.domain, sp.n, value);
  }

  lemma SpaceDims(sp: Space)
    requires SpaceOk(sp)
    ensures sp.n >= 1
  {
  }
}
