/** Servers that carry out a run: storing what is put, handling the updates, and a get once all is quiet. */
module GetAfterPut {
  import opened HilbertIndex
  import opened Boxes
  import opened LinkedQueue
  import opened Ownership
  import opened Descriptors
  import opened ObjectIndex
  import opened Subscriptions
  import opened VersionedStore
  import opened Rendezvous
  import opened IndexAgreement
  import opened Query
  import opened SubArrayCopy
  import opened Reassembly

  // ----- put_rpc

  /** The store keeps exactly the objects the state of the run says its owner o keeps. */
  ghost predicate KeeperOf<D>(store: Storage<D>, sp: Space, s: Net, o: string)
    requires SpaceOk(sp) && Shape(sp, s)
    reads store
  {
    && store.Valid() && store.size_hash == sp.size && store.n == sp.n && o in s.stores
    && forall b :: 0 <= b < sp.size ==> Descs(store.obj_hash[b]) == s.stores[o][b]
  }

  /** The objects of a bin live in heap and hold the values put under their descriptors. */
  ghost predicate BinHolds<T>(bin: seq<Object<ObjData<T>>>, heap: set<object>, value: Desc -> Point -> T)
    reads heap
  {
    forall o :: o in bin ==>
      o.data in heap && o.data.data in heap && |o.desc.bb.lb| == |o.desc.bb.ub| && HoldsPut(o, value(o.desc))
  }

  ghost predicate HoldsAll<T>(bins: seq<seq<Object<ObjData<T>>>>, heap: set<object>, value: Desc -> Point -> T)
    reads heap
  {
    forall b :: 0 <= b < |bins| ==> BinHolds(bins[b], heap, value)
  }

  /** The part of put_rpc that stores the object: the store goes from what it keeps before the put to what it keeps after it. */
  method PutRpc<T>(store: Storage<ObjData<T>>, od: Object<ObjData<T>>, ghost heap: set<object>, ghost sp: Space, ghost s: Net, ghost s': Net,
                   ghost value: Desc -> Point -> T)
    requires SpaceOk(sp) && NetInv(sp, s) && PutStep(sp, s, od.desc, s') && KeeperOf(store, sp, s, od.desc.owner)
    requires store !in heap && HoldsAll(store.obj_hash, heap, value)
    requires od.data in heap && od.data.data in heap && |od.desc.bb.lb| == |od.desc.bb.ub| && HoldsPut(od, value(od.desc))
    modifies store
    ensures Shape(sp, s') && KeeperOf(store, sp, s', od.desc.owner)
    ensures HoldsAll(store.obj_hash, heap, value)
  {
    hide Conserved, GoodBins, GoodPuts, Stored, Bin, HoldsPut, FirstOverlap, StoredObject;
    PutInv(sp, s, od.desc, s');
    ghost var bin := store.obj_hash[Bin(od.desc.version, sp.size)];
    StoredDescs(bin, od, sp.n);
    store.LsAddObj(od);
  }

  // ----- obj_update_rpc

  lemma {:induction false} PutsDiffer(puts: seq<Desc>, d: Desc, n: nat)
    requires PutOnce(puts, n) && NonEmpty(d.bb, n)
    ensures multiset(puts)[d] <= 1
  {
    if puts != [] {
      var last := |puts| - 1;
      assert puts == puts[..last] + [puts[last]];
      PutsDiffer(puts[..last], d, n);
      SelfMeets(d.bb, n);
      assert puts[last] == d ==> d !in puts[..last];
    }
  }

  /** When no element of an object is put twice, what is on its way to a server is not there yet. */
  lemma InFlightIsNew(sp: Space, s: Net, k: nat, d: Desc)
    requires SpaceOk(sp) && NetInv(sp, s) && PutOnce(s.puts, sp.n) && k < |s.got| && Update(k, d) in s.flight
    ensures d !in s.got[k]
  {
    hide Partition, Concerns, GoodBins, PutOnce;
    assert ToldOnce(sp, s, k, d);
    ToldWasPut(sp, s, k, d);
    PutsDiffer(s.puts, d, sp.n);
    assert d in s.got[k] <==> multiset(s.got[k])[d] > 0;
  }

  /** So it is a new object there. */
  lemma UpdateIsNew(sp: Space, s: Net, k: nat, d: Desc)
    requires SpaceOk(sp) && NetInv(sp, s) && PutOnce(s.puts, sp.n) && k < |s.got| && Update(k, d) in s.flight
    ensures NewObject(s.index[k][Bin(d.version, sp.size)], d, sp.n)
  {
    var bin := s.index[k][Bin(d.version, sp.size)];
    forall j | 0 <= j < |bin| && SameObject(bin[j], d)
      ensures Apart(bin[j], d, sp.n)
    {
      assert bin[j] in bin;
      IndexedIsLast(sp, s, k, bin[j]);
      LastAtIn(s.got[k], bin[j], sp.size);
      InFlightIsNew(sp, s, k, d);
      ToldWasPut(sp, s, k, bin[j]);
      ToldWasPut(sp, s, k, d);
      DifferentApart(s.puts, bin[j], d, sp.n);
    }
  }

  lemma DifferentApart(puts: seq<Desc>, d: Desc, e: Desc, n: nat)
    requires PutOnce(puts, n) && d in puts && e in puts && d != e && SameObject(d, e)
    ensures Apart(d, e, n)
  {
    var i :| 0 <= i < |puts| && puts[i] == d;
    var j :| 0 <= j < |puts| && puts[j] == e;
    PutsApart(puts, i, j, n);
  }

  /** In a settling state the update takes the place of nothing that a lookup whose window is open waits for. */
  lemma UpdateIsHarmless(sp: Space, s: Net, k: nat, d: Desc, q: Desc)
    requires SpaceOk(sp) && NetInv(sp, s) && Settling(sp, s) && PutOnce(s.puts, sp.n) && k < |s.got| && Update(k, d) in s.flight
    requires WindowOpen(s.puts, q, sp.size)
    ensures Harmless(s.index[k][Bin(d.version, sp.size)], d, q, sp.n)
  {
    hide Partition, Concerns, GoodBins, PutOnce, GoodPuts, Conserved, FirstOverlap, WindowOpen, Bin, Settling, Meets;
    var bin := s.index[k][Bin(d.version, sp.size)];
    var i := FirstOverlap(bin, d, sp.n);
    if i < |bin| {
      OverwrittenSamePlace(sp, s, k, d, i);
      OverwrittenIsOther(sp, s, k, d, bin[i], q);
    }
  }

  lemma OverwrittenIsOther(sp: Space, s: Net, k: nat, d: Desc, e: Desc, q: Desc)
    requires SpaceOk(sp) && NetInv(sp, s) && Settling(sp, s) && PutOnce(s.puts, sp.n) && k < |s.got| && Update(k, d) in s.flight
    requires WindowOpen(s.puts, q, sp.size) && SamePlace(e, d, sp.size) && e in s.got[k] && e in s.puts
    ensures !SameObject(e, q)
  {
    hide Partition, Concerns, GoodBins, Bin, Meets, LastAt, SamePlace, Conserved, WindowOpen, PutOnce, Survives, SameObject, LastPut;
    InFlightIsNew(sp, s, k, d);
    InvFacts(sp, s);
    ToldWasPut(sp, s, k, d);
    SamePlaceItself(d, sp.size);
    assert Settles(s, k, d, sp.size);
    SurvivesIsLast(s.puts, d, sp.size);
    LaterIsOther(s.puts, e, d, q, sp.size, sp.n);
  }

  lemma LaterIsOther(puts: seq<Desc>, e: Desc, d: Desc, q: Desc, size: nat, n: nat)
    requires size > 0 && PutOnce(puts, n) && WindowOpen(puts, q, size) && NonEmpty(d.bb, n)
    requires SamePlace(e, d, size) && e in puts && e != d && Survives(puts, d, size)
    ensures !SameObject(e, q)
  {
    hide Bin, Meets;
    SelfMeets(d.bb, n);
    var i :| 0 <= i < |puts| && puts[i] == e;
    var j :| 0 <= j < |puts| && puts[j] == d && LastPut(puts, j, size);
    assert i < j;
    SameBin(e.version, d.version, size);
    assert !SameObject(e, d);
  }

  lemma OverwrittenSamePlace(sp: Space, s: Net, k: nat, d: Desc, i: nat)
    requires SpaceOk(sp) && NetInv(sp, s) && k < |s.got| && Update(k, d) in s.flight
    requires var bin := s.index[k][Bin(d.version, sp.size)]; i < |bin| && i == FirstOverlap(bin, d, sp.n)
    ensures var e := s.index[k][Bin(d.version, sp.size)][i]; SamePlace(e, d, sp.size) && e in s.got[k] && e in s.puts
  {
    hide Partition, Concerns, FirstOverlap, GoodPuts, Conserved, OnGrid, Meets;
    var b := Bin(d.version, sp.size);
    var bin := s.index[k][b];
    GotGrid(sp, s, k, s.got[k] + [d]);
    BinOnGrid(s.got[k], s.index[k], d, sp.size, sp.n);
    OverlapIsSlot(bin, d, sp.n);
    assert bin[i] in bin && BinFollows(s.got[k], bin, b, sp.size);
    LastAtIn(s.got[k], bin[i], sp.size);
    InvFacts(sp, s);
    ToldWasPut(sp, s, k, bin[i]);
  }

  /** The server's bins are those the state of the run says. */
  ghost predicate HoldsIndex(node: IndexNode, sp: Space, s: Net, k: nat)
    requires SpaceOk(sp) && Shape(sp, s) && k < |s.index|
    reads node, node.waiters
  {
    node.Valid() && ServerOf(node, sp, k) && node.odsc_hash == s.index[k]
  }

  /** And the windows of all its waiting lookups are open. */
  ghost predicate Serves(node: IndexNode, sp: Space, s: Net, k: nat)
    requires SpaceOk(sp) && Shape(sp, s) && k < |s.index|
    reads node, node.waiters
  {
    HoldsIndex(node, sp, s, k) && forall b :: 0 <= b < |node.dht_subs| ==> WindowsOpen(node.dht_subs[b], s.puts, sp.size)
  }

  ghost predicate WindowsOpen(subs: seq<Waiter>, puts: seq<Desc>, size: nat) {
    forall i :: 0 <= i < |subs| ==> WindowOpen(puts, subs[i].q, size)
  }

  lemma UpdateFits(subs: seq<Waiter>, sp: Space, s: Net, u: Update, s': Net)
    requires SpaceOk(sp) && NetInv(sp, s) && Settling(sp, s) && PutOnce(s.puts, sp.n) && DeliverStep(sp, s, u, s')
    requires WindowsOpen(subs, s.puts, sp.size)
    ensures var bin := s.index[u.rank][Bin(u.d.version, sp.size)];
      Inside(u.d, sp.domain, sp.n) && NewObject(bin, u.d, sp.n) && forall i :: 0 <= i < |subs| ==> Harmless(bin, u.d, subs[i].q, sp.n)
    ensures var b := Bin(u.d.version, sp.size);
      NetInv(sp, s') && s'.puts == s.puts && s'.index[u.rank] == s.index[u.rank][b := Added(s.index[u.rank][b], u.d, sp.n)]
  {
    hide Partition, Concerns, GoodBins, PutOnce, Conserved, WindowOpen, Settling, Harmless, NewObject, Inside, GridLog, Added, Bin;
    InvFacts(sp, s);
    ToldWasPut(sp, s, u.rank, u.d);
    UpdateIsNew(sp, s, u.rank, u.d);
    forall i | 0 <= i < |subs|
      ensures Harmless(s.index[u.rank][Bin(u.d.version, sp.size)], u.d, subs[i].q, sp.n)
    {
      UpdateIsHarmless(sp, s, u.rank, u.d, subs[i].q);
    }
    DeliverInv(sp, s, u, s');
  }

  /** obj_update_rpc: in a settling state the server goes from what it holds before the update to what it holds after it. */
  method UpdateRpc(node: IndexNode, u: Update, ghost sp: Space, ghost s: Net, ghost s': Net) returns (broadcast: bool)
    requires SpaceOk(sp) && NetInv(sp, s) && Settling(sp, s) && PutOnce(s.puts, sp.n)
    requires DeliverStep(sp, s, u, s') && Serves(node, sp, s, u.rank)
    modifies node, node.dht_subs[Bin(u.d.version, sp.size)]
    ensures Shape(sp, s') && Serves(node, sp, s', u.rank)
    ensures var subs := old(node.dht_subs[Bin(u.d.version, sp.size)]);
      && StillWaiting(node.dht_subs[Bin(u.d.version, sp.size)], subs)
      && (forall w :: w in subs ==>
            HasBeenTold(w, old(w.recv_odsc), u.d, node.own, old(node.odsc_hash[Bin(u.d.version, sp.size)]), node.domain, node.n))
      && (broadcast <==> exists w :: w in subs && w.remaining == 0)
  {
    hide Partition, Concerns, GoodBins, GoodPuts, PutOnce, Conserved, WindowOpen, Bin, Settling, Harmless, NewObject, ListOk, Inside, AfterUpdate, Added, AllInside, Waiter.Correct, GridLog, IndexAfter, Fitting, BinsFollow, HasBeenTold, StillWaiting, InPlaceOrFront, TotalLen;
    ghost var b := Bin(u.d.version, sp.size);
    UpdateFits(node.dht_subs[b], sp, s, u, s');
    broadcast := node.DhtAddEntry(u.d);
    assert forall i :: 0 <= i < |node.dht_subs[b]| ==> node.dht_subs[b][i] in node.dht_subs[b];
  }

  // ----- dspaces_get

  /** While its window is open every put of an object is live, if no element is put twice. */
  lemma AllLive(puts: seq<Desc>, e: Desc, q: Desc, size: nat, n: nat)
    requires size > 0 && PutOnce(puts, n) && WindowOpen(puts, q, size) && e in puts && SameObject(e, q) && NonEmpty(e.bb, n)
    ensures e in Live(puts, size)
  {
    hide Bin, Meets, Live, Survives;
    var i :| 0 <= i < |puts| && puts[i] == e;
    SelfMeets(e.bb, n);
    forall j | i < j < |puts|
      ensures !SamePlace(puts[j], puts[i], size)
    {
      SameBin(e.version, puts[j].version, size);
    }
    LiveAt(puts, e, size);
    assert Survives(puts, e, size) by {
      LastSurvives(puts, i, size);
    }
  }

  lemma LastSurvives(log: seq<Desc>, i: nat, size: nat)
    requires size > 0 && i < |log| && LastPut(log, i, size)
    ensures Survives(log, log[i], size)
  {
  }

  /** What was put at an element of q's object. */
  ghost function PutValue<T>(puts: seq<Desc>, q: Desc, value: Desc -> Point -> T, p: Point): T {
    if SomeCovers(puts, q, p) then
      var i :| 0 <= i < |puts| && CoveredBy(puts[i], q, p);
      value(puts[i])(p)
    else value(q)(p)
  }

  lemma PutValueIs<T>(puts: seq<Desc>, q: Desc, value: Desc -> Point -> T, d: Desc, domain: Box, n: nat, p: Point)
    requires PutOnce(puts, n) && AllInside(puts, domain, n) && d in puts && SameObject(d, q) && In(d.bb, p)
    ensures PutValue(puts, q, value, p) == value(d)(p)
  {
    hide In, Meets, Includes;
    var j :| 0 <= j < |puts| && puts[j] == d;
    assert CoveredBy(puts[j], q, p);
    forall i | 0 <= i < |puts| && CoveredBy(puts[i], q, p)
      ensures puts[i] == d
    {
      if i != j {
        PutsApart(puts, i, j, n);
        ApartPoints(puts[i].bb, puts[j].bb, n, p);
      }
    }
  }

  ghost predicate AllHold(nodes: seq<IndexNode>, sp: Space, s: Net)
    requires SpaceOk(sp) && Shape(sp, s)
    reads nodes, set k, w | 0 <= k < |nodes| && w in nodes[k].waiters :: w
  {
    |nodes| == |sp.owned| && forall k :: 0 <= k < |nodes| ==> HoldsIndex(nodes[k], sp, s, k)
  }

  ghost predicate AllKeep<T>(stores: map<string, Storage<ObjData<T>>>, heap: set<object>, sp: Space, s: Net, value: Desc -> Point -> T)
    requires SpaceOk(sp) && Shape(sp, s)
    reads heap, stores.Values
  {
    && stores.Keys == s.stores.Keys
    && forall o :: o in stores ==> stores[o] in heap && KeeperOf(stores[o], sp, s, o) && HoldsAll(stores[o].obj_hash, heap, value)
  }

  lemma RunReady(nodes: seq<IndexNode>, sp: Space, run: seq<Net>, q: Desc)
    requires SpaceOk(sp) && IsCarefulRun(sp, run) && run[|run| - 1].flight == multiset{} && Shape(sp, run[|run| - 1])
    requires AllHold(nodes, sp, run[|run| - 1])
    ensures Ready(nodes, sp, Live(run[|run| - 1].puts, sp.size), q)
  {
    hide Partition, Concerns, Init, CarefulNext, Landed, Live, IndexNode.Valid, Bin;
    forall k | 0 <= k < |nodes|
      ensures Landed(sp, Live(run[|run| - 1].puts, sp.size), q, k, nodes[k].odsc_hash[Bin(q.version, sp.size)])
    {
      QuietMeansLanded(sp, run, |run| - 1, q, k);
    }
  }

  /** What a state's puts of an object look like while its window is open. */
  lemma LivePuts(sp: Space, s: Net, q: Desc)
    requires SpaceOk(sp) && NetInv(sp, s) && PutOnce(s.puts, sp.n) && WindowOpen(s.puts, q, sp.size) && Covers(s.puts, q)
    ensures var live := Live(s.puts, sp.size);
      && AllInside(live, sp.domain, sp.n) && PutOnce(live, sp.n) && Covers(live, q)
      && forall d :: SameObject(d, q) ==> (d in live <==> d in s.puts)
  {
    hide Partition, Concerns, Live, GoodBins, Conserved, PutOnce, Covers, WindowOpen, SameObject, Fitting, Includes;
    var live := Live(s.puts, sp.size);
    LivePutOnce(s.puts, sp.size, sp.n);
    LiveCovers(s.puts, q, sp.size);
    forall d | d in live
      ensures d in s.puts
    {
      LiveAt(s.puts, d, sp.size);
      SurvivorWasPut(s.puts, d, sp.size);
    }
    assert forall i :: 0 <= i < |live| ==> live[i] in live;
    forall d | SameObject(d, q) && d in s.puts
      ensures d in live
    {
      AllLive(s.puts, d, q, sp.size, sp.n);
    }
  }

  /** A store of the run is good for the live puts. */
  lemma StoreGood<T>(store: Storage<ObjData<T>>, heap: set<object>, sp: Space, s: Net, o: string, q: Desc, live: seq<Desc>, value: Desc -> Point -> T)
    requires SpaceOk(sp) && NetInv(sp, s) && KeeperOf(store, sp, s, o) && store in heap && HoldsAll(store.obj_hash, heap, value)
    requires AllInside(live, sp.domain, sp.n) && PutOnce(live, sp.n)
    requires forall d :: SameObject(d, q) ==> (d in live <==> d in s.puts)
    ensures GoodStore(store, heap, q, live, sp.n, (p: Point) => PutValue(live, q, value, p))
  {
    hide Partition, Concerns, GoodPuts, Conserved, PutOnce, AllInside, Bin, Volume, CellAt, PutValue, TotalLen, SameObject, In, LastAt, OnePerSlot;
    var b := Bin(q.version, sp.size);
    var bin := store.obj_hash[b];
    var v := (p: Point) => PutValue(live, q, value, p);
    forall i | 0 <= i < |bin|
      ensures bin[i].data in heap && bin[i].data.data in heap && IsBox(bin[i].desc.bb, sp.n)
      ensures SameObject(bin[i].desc, q) ==> bin[i].desc in live && HoldsPut(bin[i], v)
    {
      assert bin[i] in bin && store.InBin(bin, b);
      if SameObject(bin[i].desc, q) {
        KeptWasPut(sp, s, o, b, bin, i);
        SameValues(bin[i], q, live, sp.domain, sp.n, value);
      }
    }
  }

  lemma KeptWasPut<D>(sp: Space, s: Net, o: string, b: nat, bin: seq<Object<D>>, i: nat)
    requires SpaceOk(sp) && NetInv(sp, s) && o in s.stores && b < sp.size && Descs(bin) == s.stores[o][b] && i < |bin|
    ensures bin[i].desc in s.puts
  {
    hide Partition, Concerns, GoodPuts, Conserved, Bin, LastAt, OnePerSlot;
    var d := bin[i].desc;
    assert Descs(bin)[i] == d;
    assert BinsFollow(From(s.puts, o), s.stores[o], sp.size) && BinFollows(From(s.puts, o), s.stores[o][b], b, sp.size);
    LastAtIn(From(s.puts, o), d, sp.size);
    FromAt(s.puts, o, d);
  }

  lemma SameValues<T>(o: Object<ObjData<T>>, q: Desc, live: seq<Desc>, domain: Box, n: nat, value: Desc -> Point -> T)
    requires IsBox(o.desc.bb, n) && HoldsPut(o, value(o.desc)) && o.desc in live && SameObject(o.desc, q)
    requires AllInside(live, domain, n) && PutOnce(live, n)
    ensures HoldsPut(o, (p: Point) => PutValue(live, q, value, p))
  {
    hide PutOnce, AllInside, Volume, CellAt, PutValue, In, SameObject;
    var bb, v := o.desc.bb, (p: Point) => PutValue(live, q, value, p);
    forall p | In(bb, p)
      ensures CellAt(o.data.data[..], bb, p) == Some(v(p))
    {
      PutValueIs(live, q, value, o.desc, domain, n, p);
      assert CellAt(o.data.data[..], bb, p) == CellAt(o.data.data[..], bb, p);
    }
  }

  lemma RunStores<T>(stores: map<string, Storage<ObjData<T>>>, heap: set<object>, sp: Space, s: Net, q: Desc, live: seq<Desc>, value: Desc -> Point -> T)
    requires SpaceOk(sp) && NetInv(sp, s) && AllKeep(stores, heap, sp, s, value) && live == Live(s.puts, sp.size)
    requires AllInside(live, sp.domain, sp.n) && PutOnce(live, sp.n)
    requires forall d :: SameObject(d, q) ==> (d in live <==> d in s.puts)
    ensures Stores(stores, heap, q, live, sp.n, (p: Point) => PutValue(live, q, value, p))
  {
    hide Partition, Concerns, GoodPuts, GoodBins, Conserved, PutOnce, AllInside, Live, PutValue, HoldsAll, GoodStore, Storage.InBin, TotalLen, Bin;
    forall o | o in stores
      ensures GoodStore(stores[o], heap, q, live, sp.n, (p: Point) => PutValue(live, q, value, p))
    {
      StoreGood(stores[o], heap, sp, s, o, q, live, value);
    }
    forall i | 0 <= i < |live| && SameObject(live[i], q)
      ensures live[i].owner in stores
      ensures Keeps(stores[live[i].owner].obj_hash[Bin(q.version, stores[live[i].owner].size_hash)], live[i])
    {
      assert live[i] in live;
      LiveIsStored(sp, s, live[i]);
      var bin := stores[live[i].owner].obj_hash[Bin(q.version, sp.size)];
      var j :| 0 <= j < |bin| && Descs(bin)[j] == live[i];
      assert bin[j].desc == live[i];
    }
  }

  /** Every element of q holds in the caller's buffer what was put there. */
  ghost predicate Restored<T>(buffer: seq<T>, q: Desc, puts: seq<Desc>, value: Desc -> Point -> T)
    requires |q.bb.lb| == |q.bb.ub|
  {
    forall d, p :: d in puts && SameObject(d, q) && In(d.bb, p) && In(q.bb, p) ==> CellAt(buffer, q.bb, p) == Some(value(d)(p))
  }

  lemma ValuesRestored<T>(buffer: seq<T>, q: Desc, puts: seq<Desc>, live: seq<Desc>, domain: Box, n: nat, value: Desc -> Point -> T)
    requires IsBox(q.bb, n) && AllInside(live, domain, n) && PutOnce(live, n)
    requires forall d :: SameObject(d, q) ==> (d in live <==> d in puts)
    requires HoldsValues(buffer, q.bb, (p: Point) => PutValue(live, q, value, p))
    ensures Restored(buffer, q, puts, value)
  {
    hide PutOnce, AllInside, CellAt, PutValue, In, SameObject;
    forall d, p | d in puts && SameObject(d, q) && In(d.bb, p) && In(q.bb, p)
      ensures CellAt(buffer, q.bb, p) == Some(value(d)(p))
    {
      PutValueIs(live, q, value, d, domain, n, p);
      assert CellAt(buffer, q.bb, p) == CellAt(buffer, q.bb, p);
    }
  }

  /**
   * Get after put, over whole runs: servers carried out a careful run and are at rest, the puts of q's object cover
   * q and their window is open; then a get leaves in every cell of the caller's buffer the value that was put there.
   */
  method GetAfterRun<T(0)>(nodes: seq<IndexNode>, rank: nat, de_tab: seq<nat>, q: Desc, forever: bool,
                           stores: map<string, Storage<ObjData<T>>>, data: array<T>, ghost heap: set<object>, ghost sp: Space,
                           ghost run: seq<Net>, ghost s: Net, ghost value: Desc -> Point -> T)
    requires SpaceOk(sp) && sp.n <= 9 && Inside(q, sp.domain, sp.n)
    requires IsCarefulRun(sp, run) && s == run[|run| - 1] && s.flight == multiset{} && Shape(sp, s)
    requires PutOnce(s.puts, sp.n) && Covers(s.puts, q) && WindowOpen(s.puts, q, sp.size)
    requires AllHold(nodes, sp, s) && AllKeep(stores, heap, sp, s, value) && heap !! set k | 0 <= k < |nodes| :: nodes[k]
    requires Asked(de_tab, sp, q) && rank < |nodes| && data.Length == Volume(q.bb)
    modifies nodes, data
    ensures Restored(data[..], q, s.puts, value)
  {
    hide Partition, Concerns, GoodPuts, GoodBins, Conserved, PutOnce, AllInside, Live, PutValue, AllHold, AllKeep, CarefulNext, Init, Next,
         Ready, Stores, Asked, Covers, WindowOpen, Volume, CellAt, Includes, HoldsValues, Restored;
    CarefulIsRun(sp, run);
    RunInv(sp, run, |run| - 1);
    ghost var live := Live(s.puts, sp.size);
    LivePuts(sp, s, q);
    RunReady(nodes, sp, run, q);
    RunStores(stores, heap, sp, s, q, live, value);
    DspacesGet(nodes, rank, de_tab, q, forever, stores, data, heap, sp, live, (p: Point) => PutValue(live, q, value, p));
    ValuesRestored(data[..], q, s.puts, live, sp.domain, sp.n, value);
  }
}
