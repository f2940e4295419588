/** Where a put and a later get meet: stored objects, and the index updates that travel to the servers. */
module Rendezvous {
  import opened HilbertIndex
  import opened Boxes
  import opened LinkedQueue
  import opened Ownership
  import opened Descriptors
  import opened ObjectIndex
  import opened Subscriptions
  import opened VersionedStore

  /** Descriptor d on its way to server rank. */
  datatype Update = Update(rank: nat, d: Desc)

  /**
   * All puts so far, the bins of every owner's objects and of every server's descriptors, the descriptors each
   * server was told of, in order, and the updates in flight.
   */
  datatype Net = Net(puts: seq<Desc>, stores: map<string, seq<seq<Desc>>>, index: seq<seq<seq<Desc>>>,
                     got: seq<seq<Desc>>, flight: multiset<Update>)

  /** What the servers agree on: the part of the domain each owns, the hash of a box and the number of bins. */
  datatype Space = Space(owned: seq<set<Point>>, domain: Box, n: nat, size: nat, hash: Box -> set<nat>)

  /** Server k owns a point of the box. */
  ghost predicate Concerns(sp: Space, bb: Box, k: nat)
    requires k < |sp.owned|
  {
    NonEmpty(bb, sp.n) && IsBox(sp.domain, sp.n) && Includes(sp.domain, bb, sp.n) && sp.owned[k] * Points(bb) != {}
  }

  /** The hash names ranks only, and every server that owns a point of a box inside the domain. */
  ghost predicate SpaceOk(sp: Space) {
    && sp.n >= 1 && sp.size > 0 && NonEmpty(sp.domain, sp.n) && Partition(sp.owned, Points(sp.domain))
    && (forall bb, k :: k in sp.hash(bb) ==> k < |sp.owned|)
    && (forall bb, k :: 0 <= k < |sp.owned| && Concerns(sp, bb, k) ==> k in sp.hash(bb))
  }

  ghost predicate Shape(sp: Space, s: Net)
    requires SpaceOk(sp)
  {
    && |s.index| == |s.got| == |sp.owned|
    && (forall k :: 0 <= k < |s.index| ==> |s.index[k]| == sp.size)
    && (forall o :: o in s.stores ==> |s.stores[o]| == sp.size)
  }

  ghost predicate Init(sp: Space, s: Net)
    requires SpaceOk(sp)
  {
    && Shape(sp, s) && s.puts == [] && s.flight == multiset{}
    && (forall k :: 0 <= k < |s.index| ==> s.got[k] == [] && s.index[k] == seq(sp.size, _ => []))
    && (forall o :: o in s.stores ==> s.stores[o] == seq(sp.size, _ => []))
  }

  // ----- the steps

  /** An object's owner after it stored the object. */
  ghost function StoreAfter(sp: Space, bins: seq<seq<Desc>>, d: Desc): (r: seq<seq<Desc>>)
    requires SpaceOk(sp) && |bins| == sp.size
    ensures |r| == sp.size
  {
    var b := Bin(d.version, sp.size);
    bins[b := Stored(bins[b], d, sp.n)]
  }

  ghost function IndexAfter(sp: Space, bins: seq<seq<Desc>>, d: Desc): (r: seq<seq<Desc>>)
    requires SpaceOk(sp) && |bins| == sp.size
    ensures |r| == sp.size
  {
    var b := Bin(d.version, sp.size);
    bins[b := Added(bins[b], d, sp.n)]
  }

  ghost function UpdatesOf(sp: Space, d: Desc): set<Update> {
    set k | k in sp.hash(d.bb) :: Update(k, d)
  }

  /** A put may take place at any time: its boxes only have to fit those of its name that share its bin. */
  ghost predicate Puttable(sp: Space, s: Net, d: Desc)
    requires SpaceOk(sp)
  {
    Inside(d, sp.domain, sp.n) && d.owner in s.stores && forall e :: e in s.puts ==> Fitting(e, d, sp.size, sp.n)
  }

  /** put_rpc: the owner stores the object and sends one update to every server the hash names. */
  ghost function AfterPut(sp: Space, s: Net, d: Desc): Net
    requires SpaceOk(sp) && Shape(sp, s) && Puttable(sp, s, d)
  {
    s.(puts := s.puts + [d], stores := s.stores[d.owner := StoreAfter(sp, s.stores[d.owner], d)],
       flight := s.flight + multiset(UpdatesOf(sp, d)))
  }

  /** obj_update_rpc: a server handles one update. */
  ghost function AfterUpdate(sp: Space, s: Net, u: Update): Net
    requires SpaceOk(sp) && Shape(sp, s) && u.rank < |s.index|
  {
    s.(index := s.index[u.rank := IndexAfter(sp, s.index[u.rank], u.d)], got := s.got[u.rank := s.got[u.rank] + [u.d]],
       flight := s.flight - multiset{u})
  }

  ghost predicate PutStep(sp: Space, s: Net, d: Desc, s': Net)
    requires SpaceOk(sp) && Shape(sp, s)
  {
    Puttable(sp, s, d) && s' == AfterPut(sp, s, d)
  }

  /** Any update in flight may be the next one handled. */
  ghost predicate DeliverStep(sp: Space, s: Net, u: Update, s': Net)
    requires SpaceOk(sp) && Shape(sp, s)
  {
    u in s.flight && u.rank < |s.index| && s' == AfterUpdate(sp, s, u)
  }

  ghost predicate Next(sp: Space, s: Net, s': Net)
    requires SpaceOk(sp)
  {
    Shape(sp, s) && ((exists d :: PutStep(sp, s, d, s')) || (exists u :: DeliverStep(sp, s, u, s')))
  }

  /** A run of the system from the empty start. */
  ghost predicate IsRun(sp: Space, run: seq<Net>)
    requires SpaceOk(sp)
  {
    run != [] && Init(sp, run[0]) && forall i :: 0 <= i < |run| - 1 ==> Next(sp, run[i], run[i + 1])
  }

  // ----- the invariant

  /** The puts whose objects owner o keeps. */
  ghost function From(puts: seq<Desc>, o: string): seq<Desc> {
    if puts == [] then []
    else
      var last := |puts| - 1;
      var before := From(puts[..last], o);
      if puts[last].owner == o then before + [puts[last]] else before
  }

  lemma FromSnoc(puts: seq<Desc>, d: Desc, o: string)
    ensures From(puts + [d], o) == if d.owner == o then From(puts, o) + [d] else From(puts, o)
  {
    assert (puts + [d])[..|puts|] == puts;
  }

  lemma {:induction false} FromAt(puts: seq<Desc>, o: string, d: Desc)
    ensures d in From(puts, o) <==> d in puts && d.owner == o
  {
    if puts != [] {
      var last := |puts| - 1;
      assert puts == puts[..last] + [puts[last]];
      FromAt(puts[..last], o, d);
    }
  }

  /** How often server k has been or will be told of d: once for each put of d, if the hash names k. */
  ghost predicate ToldOnce(sp: Space, s: Net, k: nat, d: Desc)
    requires SpaceOk(sp) && Shape(sp, s) && k < |s.got|
  {
    multiset(s.got[k])[d] + s.flight[Update(k, d)] == if k in sp.hash(d.bb) then multiset(s.puts)[d] else 0
  }

  ghost predicate Conserved(sp: Space, s: Net)
    requires SpaceOk(sp) && Shape(sp, s)
  {
    && (forall u :: u in s.flight ==> u.rank < |s.got|)
    && forall k, d :: 0 <= k < |s.got| ==> ToldOnce(sp, s, k, d)
  }

  ghost predicate GoodPuts(sp: Space, s: Net)
    requires SpaceOk(sp)
  {
    && AllInside(s.puts, sp.domain, sp.n) && GridLog(s.puts, sp.size, sp.n)
    && forall d :: d in s.puts ==> d.owner in s.stores
  }

  /** Every store holds what was put last at each place through it, every server's bins what it was told last. */
  ghost predicate GoodBins(sp: Space, s: Net)
    requires SpaceOk(sp) && Shape(sp, s)
  {
    && (forall o :: o in s.stores ==> BinsFollow(From(s.puts, o), s.stores[o], sp.size))
    && (forall k :: 0 <= k < |s.index| ==> BinsFollow(s.got[k], s.index[k], sp.size))
  }

  ghost predicate NetInv(sp: Space, s: Net)
    requires SpaceOk(sp)
  {
    Shape(sp, s) && GoodPuts(sp, s) && Conserved(sp, s) && GoodBins(sp, s)
  }

  lemma InitInv(sp: Space, s: Net)
    requires SpaceOk(sp) && Init(sp, s)
    ensures NetInv(sp, s)
  {
    hide Partition, BinsFollow;
    FollowsNothing(sp.size);
  }

  lemma FitsSymmetric(d: Desc, e: Desc, size: nat, n: nat)
    requires size > 0 && Fitting(d, e, size, n)
    ensures Fitting(e, d, size, n)
  {
    hide Meets, Bin;
    if d.name == e.name && IsBox(d.bb, n) && IsBox(e.bb, n) {
      MeetsSymmetric(d.bb, e.bb, n);
    }
  }

  lemma GridMore(puts: seq<Desc>, d: Desc, size: nat, n: nat)
    requires size > 0 && GridLog(puts, size, n) && NonEmpty(d.bb, n) && forall e :: e in puts ==> Fitting(e, d, size, n)
    ensures GridLog(puts + [d], size, n)
  {
    hide Fitting;
    FitsItself(d, size, n);
    forall x, y | x in puts + [d] && y in puts + [d]
      ensures Fitting(x, y, size, n)
    {
      if x == d && y in puts {
        FitsSymmetric(y, d, size, n);
      }
    }
  }

  lemma FitsItself(d: Desc, size: nat, n: nat)
    requires size > 0 && NonEmpty(d.bb, n)
    ensures Fitting(d, d, size, n)
  {
  }

  lemma SubGrid(log: seq<Desc>, puts: seq<Desc>, size: nat, n: nat)
    requires size > 0 && GridLog(puts, size, n) && forall e :: e in log ==> e in puts
    ensures GridLog(log, size, n)
  {
    hide Fitting;
  }

  lemma InsideMore(puts: seq<Desc>, d: Desc, domain: Box, n: nat)
    requires AllInside(puts, domain, n) && Inside(d, domain, n)
    ensures AllInside(puts + [d], domain, n)
  {
    hide Inside;
  }

  lemma PutGood(sp: Space, s: Net, d: Desc, s': Net)
    requires SpaceOk(sp) && NetInv(sp, s) && PutStep(sp, s, d, s')
    ensures Shape(sp, s') && GoodPuts(sp, s')
  {
    hide Partition, Fitting, Stored, BinsFollow, Conserved, GoodBins, GridLog, AllInside, Includes;
    GridMore(s.puts, d, sp.size, sp.n);
    InsideMore(s.puts, d, sp.domain, sp.n);
  }

  /** A put changes the store of its owner in the bin of its version, and nothing else. */
  lemma PutBins(sp: Space, s: Net, d: Desc, s': Net)
    requires SpaceOk(sp) && NetInv(sp, s) && PutStep(sp, s, d, s') && Shape(sp, s') && GoodPuts(sp, s')
    ensures GoodBins(sp, s')
  {
    hide Partition, Concerns, Fitting, Stored, BinsFollow, Conserved, GridLog, AllInside, Inside, Bin;
    forall o | o in s'.stores
      ensures BinsFollow(From(s'.puts, o), s'.stores[o], sp.size)
    {
      FromSnoc(s.puts, d, o);
      if o == d.owner {
        FromGrid(sp, s'.puts, o);
        FollowsStored(From(s.puts, o), s.stores[o], d, sp.size, sp.n);
      }
    }
  }

  lemma FromGrid(sp: Space, puts: seq<Desc>, o: string)
    requires SpaceOk(sp) && GridLog(puts, sp.size, sp.n)
    ensures GridLog(From(puts, o), sp.size, sp.n)
  {
    hide Partition, Concerns, Fitting;
    forall e | e in From(puts, o)
      ensures e in puts
    {
      FromAt(puts, o, e);
    }
    SubGrid(From(puts, o), puts, sp.size, sp.n);
  }

  lemma UpdatesCount(sp: Space, d: Desc, k: nat, e: Desc)
    ensures multiset(UpdatesOf(sp, d))[Update(k, e)] == if e == d && k in sp.hash(d.bb) then 1 else 0
  {
    var ups := UpdatesOf(sp, d);
    assert e == d && k in sp.hash(d.bb) ==> Update(k, e) in ups;
  }

  lemma PutConserved(sp: Space, s: Net, d: Desc, s': Net)
    requires SpaceOk(sp) && NetInv(sp, s) && PutStep(sp, s, d, s') && Shape(sp, s')
    ensures Conserved(sp, s')
  {
    hide Partition, Fitting, StoreAfter, BinsFollow, GoodBins, GoodPuts, Inside, Concerns;
    forall u | u in s'.flight
      ensures u.rank < |s'.got|
    {
      UpdatesCount(sp, d, u.rank, u.d);
    }
    forall k, e | 0 <= k < |s'.got|
      ensures ToldOnce(sp, s', k, e)
    {
      assert ToldOnce(sp, s, k, e);
      UpdatesCount(sp, d, k, e);
    }
  }

  lemma PutInv(sp: Space, s: Net, d: Desc, s': Net)
    requires SpaceOk(sp) && NetInv(sp, s) && PutStep(sp, s, d, s')
    ensures NetInv(sp, s')
  {
    hide Partition, Concerns, Shape, Conserved, GoodBins, GoodPuts;
    PutGood(sp, s, d, s');
    PutBins(sp, s, d, s');
    PutConserved(sp, s, d, s');
  }

  /** What is in flight to a server or was told to it, was put, and the hash names the server for it. */
  lemma ToldWasPut(sp: Space, s: Net, k: nat, d: Desc)
    requires SpaceOk(sp) && Shape(sp, s) && Conserved(sp, s) && k < |s.got|
    requires d in s.got[k] || Update(k, d) in s.flight
    ensures d in s.puts && k in sp.hash(d.bb)
  {
    hide Partition, Concerns;
    assert ToldOnce(sp, s, k, d);
    assert d in s.got[k] ==> multiset(s.got[k])[d] > 0;
    assert multiset(s.puts)[d] > 0;
  }

  lemma DeliverConserved(sp: Space, s: Net, u: Update, s': Net)
    requires SpaceOk(sp) && NetInv(sp, s) && DeliverStep(sp, s, u, s') && Shape(sp, s')
    ensures Conserved(sp, s')
  {
    hide Partition, Concerns, IndexAfter, BinsFollow, GoodBins, GoodPuts;
    forall v | v in s'.flight
      ensures v.rank < |s'.got|
    {
      assert v in s.flight;
    }
    forall k, e | 0 <= k < |s'.got|
      ensures ToldOnce(sp, s', k, e)
    {
      assert ToldOnce(sp, s, k, e);
    }
  }

  lemma GotGrid(sp: Space, s: Net, k: nat, log: seq<Desc>)
    requires SpaceOk(sp) && NetInv(sp, s) && k < |s.got|
    requires forall d :: d in log ==> d in s.got[k] || Update(k, d) in s.flight
    ensures GridLog(log, sp.size, sp.n)
  {
    hide Partition, Concerns, Conserved, GoodBins, Fitting;
    forall d | d in log
      ensures d in s.puts
    {
      ToldWasPut(sp, s, k, d);
    }
    SubGrid(log, s.puts, sp.size, sp.n);
  }

  lemma DeliverBins(sp: Space, s: Net, u: Update, s': Net)
    requires SpaceOk(sp) && NetInv(sp, s) && DeliverStep(sp, s, u, s')
    ensures Shape(sp, s') && GoodBins(sp, s')
  {
    hide Partition, Concerns, Conserved, GoodPuts, Added, BinsFollow, Bin;
    var k := u.rank;
    GotGrid(sp, s, k, s.got[k] + [u.d]);
    FollowsAdded(s.got[k], s.index[k], u.d, sp.size, sp.n);
  }

  lemma DeliverInv(sp: Space, s: Net, u: Update, s': Net)
    requires SpaceOk(sp) && NetInv(sp, s) && DeliverStep(sp, s, u, s')
    ensures NetInv(sp, s')
  {
    hide Partition, Concerns, Shape, Conserved, GoodBins, IndexAfter;
    DeliverBins(sp, s, u, s');
    DeliverConserved(sp, s, u, s');
  }

  lemma {:induction false} RunInv(sp: Space, run: seq<Net>, i: nat)
    requires SpaceOk(sp) && IsRun(sp, run) && i < |run|
    ensures NetInv(sp, run[i])
  {
    hide NetInv, PutStep, DeliverStep, Partition, Concerns, Init, Shape;
    if i == 0 {
      InitInv(sp, run[0]);
    } else {
      RunInv(sp, run, i - 1);
      var s, s' := run[i - 1], run[i];
      assert Next(sp, run[i - 1], run[i - 1 + 1]);
      if d :| PutStep(sp, s, d, s') {
        PutInv(sp, s, d, s');
      } else {
        var u :| DeliverStep(sp, s, u, s');
        DeliverInv(sp, s, u, s');
      }
    }
  }

  // ----- what the invariant says about single descriptors

  /** Server k has d in its index. */
  ghost predicate Indexed(sp: Space, s: Net, k: nat, d: Desc)
    requires SpaceOk(sp) && Shape(sp, s) && k < |s.index|
  {
    d in s.index[k][Bin(d.version, sp.size)]
  }

  /** d's owner keeps the object d describes. */
  ghost predicate IsStored(sp: Space, s: Net, d: Desc)
    requires SpaceOk(sp) && Shape(sp, s)
  {
    d.owner in s.stores && d in s.stores[d.owner][Bin(d.version, sp.size)]
  }

  lemma IndexedIsLast(sp: Space, s: Net, k: nat, d: Desc)
    requires SpaceOk(sp) && NetInv(sp, s) && k < |s.index|
    ensures Indexed(sp, s, k, d) <==> LastAt(s.got[k], d, sp.size) == Some(d)
  {
    hide Partition, Concerns, LastAt, Conserved, GoodPuts, OnePerSlot;
    assert BinsFollow(s.got[k], s.index[k], sp.size);
    assert BinFollows(s.got[k], s.index[k][Bin(d.version, sp.size)], Bin(d.version, sp.size), sp.size);
  }

  lemma StoredIsLast(sp: Space, s: Net, d: Desc)
    requires SpaceOk(sp) && NetInv(sp, s)
    ensures IsStored(sp, s, d) <==> LastAt(From(s.puts, d.owner), d, sp.size) == Some(d)
  {
    hide Partition, Concerns, LastAt, Conserved, OnePerSlot, GridLog, AllInside;
    var o := d.owner;
    if LastAt(From(s.puts, o), d, sp.size) == Some(d) {
      LastAtIn(From(s.puts, o), d, sp.size);
      FromAt(s.puts, o, d);
    }
    if o in s.stores {
      assert BinsFollow(From(s.puts, o), s.stores[o], sp.size);
      assert BinFollows(From(s.puts, o), s.stores[o][Bin(d.version, sp.size)], Bin(d.version, sp.size), sp.size);
    }
  }

  /** A put not superseded at its place is kept by its owner, in every state. */
  lemma {:induction false} LastIsLastOfOwner(puts: seq<Desc>, d: Desc, size: nat)
    requires size > 0 && LastAt(puts, d, size) == Some(d)
    ensures LastAt(From(puts, d.owner), d, size) == Some(d)
  {
    hide SamePlace;
    var last := |puts| - 1;
    var before := From(puts[..last], d.owner);
    if puts[last].owner == d.owner {
      LastAtSnoc(before, puts[last], d, size);
    }
    if !SamePlace(puts[last], d, size) {
      LastIsLastOfOwner(puts[..last], d, size);
    }
  }

  lemma LiveIsStored(sp: Space, s: Net, d: Desc)
    requires SpaceOk(sp) && NetInv(sp, s) && d in Live(s.puts, sp.size)
    ensures IsStored(sp, s, d)
  {
    hide Partition, Concerns, NetInv, LastAt, Survives, IsStored;
    LiveAt(s.puts, d, sp.size);
    SurvivesIsLast(s.puts, d, sp.size);
    LastIsLastOfOwner(s.puts, d, sp.size);
    StoredIsLast(sp, s, d);
  }

  /** Of q's object server k's bin has every put that concerns the server, and nothing that is not among the puts. */
  ghost predicate Landed(sp: Space, puts: seq<Desc>, q: Desc, k: nat, bin: seq<Desc>)
    requires SpaceOk(sp) && k < |sp.owned|
  {
    && (forall d :: d in bin && SameObject(d, q) ==> d in puts)
    && (forall d :: d in puts && SameObject(d, q) && Concerns(sp, d.bb, k) ==> d in bin)
  }
}
