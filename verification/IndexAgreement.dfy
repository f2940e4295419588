/** Stored objects and the index that points at them: when they agree, and what careful puts make of it. */
module IndexAgreement {
  import opened HilbertIndex
  import opened Boxes
  import opened LinkedQueue
  import opened Ownership
  import opened Descriptors
  import opened Subscriptions
  import opened VersionedStore
  import opened Rendezvous

  // ----- agreement

  /** At e's name, box and bin server k has exactly the descriptors of stored objects. */
  ghost predicate Agree(sp: Space, s: Net, k: nat, e: Desc)
    requires SpaceOk(sp) && Shape(sp, s) && k < |s.index|
  {
    forall x :: SamePlace(x, e, sp.size) ==> (Indexed(sp, s, k, x) <==> IsStored(sp, s, x))
  }

  /** Each box of a name is always put through one server. */
  ghost predicate OneOwner(puts: seq<Desc>, size: nat)
    requires size > 0
  {
    forall d, e :: d in puts && e in puts && SamePlace(d, e, size) ==> d.owner == e.owner
  }

  lemma {:induction false} OwnLastIsLast(puts: seq<Desc>, d: Desc, size: nat)
    requires size > 0 && OneOwner(puts, size) && LastAt(From(puts, d.owner), d, size) == Some(d)
    ensures LastAt(puts, d, size) == Some(d)
  {
    hide SamePlace;
    LastAtIn(From(puts, d.owner), d, size);
    FromAt(puts, d.owner, d);
    var last := |puts| - 1;
    assert puts == puts[..last] + [puts[last]];
    var before := From(puts[..last], d.owner);
    if puts[last].owner == d.owner {
      LastAtSnoc(before, puts[last], d, size);
    }
    if !SamePlace(puts[last], d, size) {
      OwnLastIsLast(puts[..last], d, size);
    }
  }

  lemma StoredIsLastPut(sp: Space, s: Net, d: Desc)
    requires SpaceOk(sp) && NetInv(sp, s) && OneOwner(s.puts, sp.size)
    ensures IsStored(sp, s, d) <==> LastAt(s.puts, d, sp.size) == Some(d)
  {
    hide Partition, Concerns, LastAt, Conserved, GoodBins, GoodPuts, IsStored, OneOwner, SamePlace;
    StoredIsLast(sp, s, d);
    if LastAt(s.puts, d, sp.size) == Some(d) {
      LastIsLastOfOwner(s.puts, d, sp.size);
    }
    if LastAt(From(s.puts, d.owner), d, sp.size) == Some(d) {
      OwnLastIsLast(s.puts, d, sp.size);
    }
  }

  /** A server agrees with the stores on a place exactly when the update it handled last for the place is that of the last put. */
  lemma AgreesExactlyWhen(sp: Space, s: Net, k: nat, e: Desc)
    requires SpaceOk(sp) && NetInv(sp, s) && OneOwner(s.puts, sp.size) && k < |s.index|
    ensures Agree(sp, s, k, e) <==> LastAt(s.got[k], e, sp.size) == LastAt(s.puts, e, sp.size)
  {
    hide Partition, Concerns, Conserved, GoodBins, GoodPuts, IsStored, Indexed, OneOwner, Bin;
    forall x | SamePlace(x, e, sp.size)
      ensures Indexed(sp, s, k, x) <==> LastAt(s.got[k], e, sp.size) == Some(x)
      ensures IsStored(sp, s, x) <==> LastAt(s.puts, e, sp.size) == Some(x)
    {
      IndexedIsLast(sp, s, k, x);
      StoredIsLastPut(sp, s, x);
      LastAtSamePlace(s.got[k], x, e, sp.size);
      LastAtSamePlace(s.puts, x, e, sp.size);
    }
  }

  /** So in every state of every run. */
  lemma AgreesInRuns(sp: Space, run: seq<Net>, i: nat, k: nat, e: Desc)
    requires SpaceOk(sp) && IsRun(sp, run) && i < |run| && OneOwner(run[i].puts, sp.size) && k < |sp.owned|
    ensures Shape(sp, run[i])
    ensures Agree(sp, run[i], k, e) <==> LastAt(run[i].got[k], e, sp.size) == LastAt(run[i].puts, e, sp.size)
  {
    RunInv(sp, run, i);
    AgreesExactlyWhen(sp, run[i], k, e);
  }

  // ----- delivering everything

  /** The updates are those in flight, in the order they will be handled. */
  ghost predicate IsSchedule(s: Net, us: seq<Update>) {
    multiset(us) == s.flight && forall i :: 0 <= i < |us| ==> us[i].rank < |s.index|
  }

  ghost function AfterAll(sp: Space, s: Net, us: seq<Update>): (r: Net)
    requires SpaceOk(sp) && Shape(sp, s) && forall i :: 0 <= i < |us| ==> us[i].rank < |s.index|
    ensures Shape(sp, r)
    decreases |us|
  {
    if us == [] then s else AfterAll(sp, AfterUpdate(sp, s, us[0]), us[1..])
  }

  /** What server k is told in the course of a schedule. */
  ghost function Told(us: seq<Update>, k: nat): seq<Desc> {
    if us == [] then []
    else (if us[0].rank == k then [us[0].d] else []) + Told(us[1..], k)
  }

  lemma HeadFirst(us: seq<Update>, flight: multiset<Update>)
    requires us != [] && multiset(us) <= flight
    ensures us[0] in flight && multiset(us[1..]) <= flight - multiset{us[0]}
    ensures (flight - multiset{us[0]}) - multiset(us[1..]) == flight - multiset(us)
  {
    assert us == [us[0]] + us[1..];
    assert multiset(us) == multiset{us[0]} + multiset(us[1..]);
    assert us[0] in multiset(us);
  }

  lemma {:induction false} AllInv(sp: Space, s: Net, us: seq<Update>)
    requires SpaceOk(sp) && NetInv(sp, s) && multiset(us) <= s.flight
    requires forall i :: 0 <= i < |us| ==> us[i].rank < |s.index|
    ensures var r := AfterAll(sp, s, us); NetInv(sp, r) && r.puts == s.puts && r.flight == s.flight - multiset(us)
    decreases |us|
  {
    hide Partition, Concerns, Conserved, GoodBins, GoodPuts, IndexAfter;
    if us != [] {
      var s' := AfterUpdate(sp, s, us[0]);
      HeadFirst(us, s.flight);
      DeliverInv(sp, s, us[0], s');
      AllInv(sp, s', us[1..]);
    }
  }

  lemma {:induction false} AllTold(sp: Space, s: Net, us: seq<Update>, k: nat)
    requires SpaceOk(sp) && Shape(sp, s) && k < |s.got|
    requires forall i :: 0 <= i < |us| ==> us[i].rank < |s.index|
    ensures AfterAll(sp, s, us).got[k] == s.got[k] + Told(us, k)
    decreases |us|
  {
    hide Partition, Concerns, IndexAfter, AfterUpdate;
    if us != [] {
      ToldFirst(sp, s, us[0], k);
      AllTold(sp, AfterUpdate(sp, s, us[0]), us[1..], k);
      ToldCons(s.got[k], us, k);
    }
  }

  lemma ToldCons(got: seq<Desc>, us: seq<Update>, k: nat)
    requires us != []
    ensures got + Told(us, k) == (got + if us[0].rank == k then [us[0].d] else []) + Told(us[1..], k)
  {
  }

  lemma ToldFirst(sp: Space, s: Net, u: Update, k: nat)
    requires SpaceOk(sp) && Shape(sp, s) && u.rank < |s.index| && k < |s.got|
    ensures var s' := AfterUpdate(sp, s, u);
      Shape(sp, s') && |s'.index| == |s.index| && s'.got[k] == s.got[k] + if u.rank == k then [u.d] else []
  {
    hide Partition, Concerns, IndexAfter;
  }

  lemma {:induction false} ToldAt(us: seq<Update>, k: nat, d: Desc)
    ensures d in Told(us, k) <==> Update(k, d) in us
  {
    if us != [] {
      ToldAt(us[1..], k, d);
      assert us == [us[0]] + us[1..];
    }
  }

  lemma {:induction false} ToldSnoc(us: seq<Update>, u: Update, k: nat)
    ensures Told(us + [u], k) == Told(us, k) + if u.rank == k then [u.d] else []
  {
    if us != [] {
      ToldSnoc(us[1..], u, k);
      assert (us + [u])[1..] == us[1..] + [u];
    }
  }

  lemma {:induction false} LastOfBoth(a: seq<Desc>, b: seq<Desc>, e: Desc, size: nat)
    requires size > 0
    ensures LastAt(a + b, e, size) == if LastAt(b, e, size).Some? then LastAt(b, e, size) else LastAt(a, e, size)
  {
    hide SamePlace;
    if b == [] {
      assert a + b == a;
    } else {
      var last := |b| - 1;
      assert (a + b)[..|a + b| - 1] == a + b[..last];
      LastOfBoth(a, b[..last], e, size);
    }
  }

  /** The updates of a multiset in some order. */
  lemma Listed(flight: multiset<Update>) returns (us: seq<Update>)
    ensures multiset(us) == flight
    decreases |flight|
  {
    if flight == multiset{} {
      us := [];
    } else {
      var u :| u in flight;
      var rest := Listed(flight - multiset{u});
      us := rest + [u];
    }
  }

  /** An update for d's place that announces another object is on its way to server k. */
  ghost predicate OtherPending(s: Net, k: nat, d: Desc, size: nat)
    requires size > 0
  {
    exists u :: u in s.flight && u.rank == k && SamePlace(u.d, d, size) && u.d != d
  }

  ghost predicate AgreeAfter(sp: Space, s: Net, us: seq<Update>, k: nat, d: Desc)
    requires SpaceOk(sp) && Shape(sp, s) && k < |s.index|
  {
    IsSchedule(s, us) ==> Agree(sp, AfterAll(sp, s, us), k, d)
  }

  /** When the updates of a schedule for d's place at server k are all d's, and one of them is there, the server ends up with d. */
  lemma EndsWithLast(sp: Space, s: Net, us: seq<Update>, k: nat, d: Desc)
    requires SpaceOk(sp) && NetInv(sp, s) && OneOwner(s.puts, sp.size) && k < |s.index| && IsSchedule(s, us)
    requires LastAt(s.puts, d, sp.size) == Some(d) && Update(k, d) in s.flight && !OtherPending(s, k, d, sp.size)
    ensures Agree(sp, AfterAll(sp, s, us), k, d)
  {
    hide Partition, Concerns, Conserved, GoodBins, GoodPuts, Agree, OneOwner, SamePlace;
    AllInv(sp, s, us);
    AllTold(sp, s, us, k);
    var told := Told(us, k);
    LastOfBoth(s.got[k], told, d, sp.size);
    ToldAt(us, k, d);
    assert Update(k, d) in multiset(us);
    assert SamePlace(d, d, sp.size) by {
      SamePlaceItself(d, sp.size);
    }
    var last := LastAt(told, d, sp.size);
    ToldAt(us, k, last.value);
    assert Update(k, last.value) in multiset(us);
    AgreesExactlyWhen(sp, AfterAll(sp, s, us), k, d);
  }

  lemma SamePlaceItself(d: Desc, size: nat)
    requires size > 0
    ensures SamePlace(d, d, size)
  {
  }

  /** Any pending update can be the last to be handled. */
  lemma LastOne(s: Net, u: Update) returns (us: seq<Update>)
    requires u in s.flight && forall v :: v in s.flight ==> v.rank < |s.index|
    ensures IsSchedule(s, us) && us != [] && us[|us| - 1] == u
  {
    var rest := Listed(s.flight - multiset{u});
    us := rest + [u];
    forall i | 0 <= i < |us|
      ensures us[i].rank < |s.index|
    {
      assert us[i] in multiset(us);
    }
  }

  lemma ToldLast(got: seq<Desc>, us: seq<Update>, k: nat, d: Desc, size: nat)
    requires size > 0 && us != [] && us[|us| - 1].rank == k && SamePlace(us[|us| - 1].d, d, size)
    ensures LastAt(got + Told(us, k), d, size) == Some(us[|us| - 1].d)
  {
    hide SamePlace;
    var u, rest := us[|us| - 1], us[..|us| - 1];
    assert us == rest + [u];
    ToldSnoc(rest, u, k);
    assert got + Told(us, k) == (got + Told(rest, k)) + [u.d];
    LastAtSnoc(got + Told(rest, k), u.d, d, size);
  }

  /** If the update of another object comes last, the server ends up with that object. */
  lemma EndsWithOther(sp: Space, s: Net, us: seq<Update>, k: nat, d: Desc)
    requires SpaceOk(sp) && NetInv(sp, s) && OneOwner(s.puts, sp.size) && k < |s.index| && IsSchedule(s, us)
    requires us != [] && us[|us| - 1].rank == k && SamePlace(us[|us| - 1].d, d, sp.size) && us[|us| - 1].d != d
    requires LastAt(s.puts, d, sp.size) == Some(d)
    ensures !Agree(sp, AfterAll(sp, s, us), k, d)
    ensures LastAt(AfterAll(sp, s, us).got[k], d, sp.size) == Some(us[|us| - 1].d)
  {
    hide Partition, Concerns, Conserved, GoodBins, GoodPuts, Agree, OneOwner, SamePlace;
    AllInv(sp, s, us);
    AllTold(sp, s, us, k);
    ToldLast(s.got[k], us, k, d, sp.size);
    AgreesExactlyWhen(sp, AfterAll(sp, s, us), k, d);
  }

  /**
   * After a put of d, whatever the state it found, a server the hash names agrees with the stores on d's place at
   * the end of every schedule of the updates in flight, if and only if none of those announces another object of
   * the place to it.
   */
  lemma EveryScheduleAgrees(sp: Space, s: Net, d: Desc, s': Net, k: nat)
    requires SpaceOk(sp) && NetInv(sp, s) && PutStep(sp, s, d, s') && OneOwner(s'.puts, sp.size) && k in sp.hash(d.bb)
    ensures Shape(sp, s') && k < |s'.index|
    ensures (forall us :: AgreeAfter(sp, s', us, k, d)) <==> !OtherPending(s, k, d, sp.size)
  {
    hide Partition, Concerns, Conserved, GoodBins, GoodPuts, Agree, OneOwner, SamePlace, StoreAfter, Puttable, AfterAll, IsSchedule;
    PutInv(sp, s, d, s');
    InvFacts(sp, s');
    SamePlaceItself(d, sp.size);
    LastAtSnoc(s.puts, d, d, sp.size);
    UpdatesCount(sp, d, k, d);
    SameOthers(sp, s, d, s', k);
    if OtherPending(s', k, d, sp.size) {
      var u :| u in s'.flight && u.rank == k && SamePlace(u.d, d, sp.size) && u.d != d;
      var us := LastOne(s', u);
      EndsWithOther(sp, s', us, k, d);
      assert !AgreeAfter(sp, s', us, k, d);
    } else {
      forall us
        ensures AgreeAfter(sp, s', us, k, d)
      {
        if IsSchedule(s', us) {
          EndsWithLast(sp, s', us, k, d);
        }
      }
    }
  }

  lemma InvFacts(sp: Space, s: Net)
    requires SpaceOk(sp) && NetInv(sp, s)
    ensures Shape(sp, s) && Conserved(sp, s) && forall u :: u in s.flight ==> u.rank < |s.index|
  {
  }

  /** A put's own updates are not those of another object. */
  lemma SameOthers(sp: Space, s: Net, d: Desc, s': Net, k: nat)
    requires SpaceOk(sp) && Shape(sp, s) && PutStep(sp, s, d, s')
    ensures OtherPending(s', k, d, sp.size) <==> OtherPending(s, k, d, sp.size)
  {
    hide Partition, Concerns, SamePlace, StoreAfter, Puttable, UpdatesOf;
    forall u: Update | u.d != d
      ensures u in s'.flight <==> u in s.flight
    {
      UpdatesCount(sp, d, u.rank, u.d);
    }
    if OtherPending(s, k, d, sp.size) {
      var u :| u in s.flight && u.rank == k && SamePlace(u.d, d, sp.size) && u.d != d;
      assert u in s'.flight;
    }
    if OtherPending(s', k, d, sp.size) {
      var u :| u in s'.flight && u.rank == k && SamePlace(u.d, d, sp.size) && u.d != d;
      assert u in s.flight;
    }
  }

  // ----- a run that ends in disagreement

  /** The states of the system while a schedule is worked off. */
  ghost function States(sp: Space, s: Net, us: seq<Update>): (run: seq<Net>)
    requires SpaceOk(sp) && Shape(sp, s) && forall i :: 0 <= i < |us| ==> us[i].rank < |s.index|
    ensures run != [] && run[0] == s && run[|run| - 1] == AfterAll(sp, s, us)
    decreases |us|
  {
    if us == [] then [s] else [s] + States(sp, AfterUpdate(sp, s, us[0]), us[1..])
  }

  ghost predicate AllNext(sp: Space, run: seq<Net>)
    requires SpaceOk(sp)
  {
    forall i :: 0 <= i < |run| - 1 ==> Next(sp, run[i], run[i + 1])
  }

  lemma MoreNext(sp: Space, s: Net, run: seq<Net>)
    requires SpaceOk(sp) && run != [] && Next(sp, s, run[0]) && AllNext(sp, run)
    ensures AllNext(sp, [s] + run)
  {
    hide SpaceOk, Next;
    forall i | 0 <= i < |run|
      ensures Next(sp, ([s] + run)[i], ([s] + run)[i + 1])
    {
      if i > 0 {
        assert Next(sp, run[i - 1], run[i - 1 + 1]);
      }
    }
  }

  lemma {:induction false} StatesNext(sp: Space, s: Net, us: seq<Update>)
    requires SpaceOk(sp) && Shape(sp, s) && multiset(us) <= s.flight
    requires forall i :: 0 <= i < |us| ==> us[i].rank < |s.index|
    ensures AllNext(sp, States(sp, s, us))
    decreases |us|
  {
    hide Partition, Concerns, IndexAfter, AllNext;
    if us == [] {
      OneState(sp, s);
    } else {
      var s' := AfterUpdate(sp, s, us[0]);
      HeadFirst(us, s.flight);
      StatesNext(sp, s', us[1..]);
      assert DeliverStep(sp, s, us[0], s');
      MoreNext(sp, s, States(sp, s', us[1..]));
    }
  }

  lemma OneState(sp: Space, s: Net)
    requires SpaceOk(sp)
    ensures AllNext(sp, [s])
  {
  }

  /** The two puts of one place leave the second one in force. */
  lemma TwoPuts(sp: Space, s: Net, d: Desc, e: Desc, k: nat) returns (s1: Net, s2: Net)
    requires SpaceOk(sp) && Init(sp, s) && d.owner == e.owner && d.owner in s.stores
    requires Inside(d, sp.domain, sp.n) && Inside(e, sp.domain, sp.n) && SamePlace(d, e, sp.size) && k in sp.hash(d.bb)
    ensures Shape(sp, s1) && PutStep(sp, s, d, s1) && PutStep(sp, s1, e, s2) && NetInv(sp, s2)
    ensures s2.puts == [d, e] && Update(k, d) in s2.flight
  {
    hide Partition, Concerns, StoreAfter, BinsFollow, Includes;
    InitInv(sp, s);
    s1 := AfterPut(sp, s, d);
    PutInv(sp, s, d, s1);
    UpdatesCount(sp, d, k, d);
    assert forall x :: x in s1.puts ==> x == d;
    s2 := AfterPut(sp, s1, e);
    PutInv(sp, s1, e, s2);
  }

  /**
   * Whenever a box is put again in the same bin before a server was told of its first put, the system may come to
   * rest with that server pointing at the evicted object.
   */
  lemma OvertakenRun(sp: Space, s: Net, d: Desc, e: Desc, k: nat) returns (run: seq<Net>)
    requires SpaceOk(sp) && Init(sp, s) && d.owner == e.owner && d.owner in s.stores && d != e
    requires Inside(d, sp.domain, sp.n) && Inside(e, sp.domain, sp.n) && SamePlace(d, e, sp.size) && k in sp.hash(d.bb)
    ensures IsRun(sp, run) && run[0] == s
    ensures var last := run[|run| - 1];
      && last.puts == [d, e] && last.flight == multiset{} && Shape(sp, last) && k < |last.index| && !Agree(sp, last, k, e)
      && IsStored(sp, last, e) && !IsStored(sp, last, d) && Indexed(sp, last, k, d) && !Indexed(sp, last, k, e)
  {
    hide Partition, Concerns, Conserved, GoodBins, GoodPuts, Inside, Agree, PutStep, AllNext, IsStored, Indexed, SamePlace, LastAt, OneOwner;
    var s1, s2 := TwoPuts(sp, s, d, e, k);
    InvFacts(sp, s2);
    var us := LastOne(s2, Update(k, d));
    AllInv(sp, s2, us);
    LastIsSecond(d, e, sp.size);
    EndsWithOther(sp, s2, us, k, e);
    StatesNext(sp, s2, us);
    run := [s] + ([s1] + States(sp, s2, us));
    MoreNext(sp, s1, States(sp, s2, us));
    MoreNext(sp, s, [s1] + States(sp, s2, us));
    RunsNext(sp, run);
    OldIndexed(sp, run[|run| - 1], d, e, k);
  }

  lemma OldIndexed(sp: Space, s: Net, d: Desc, e: Desc, k: nat)
    requires SpaceOk(sp) && NetInv(sp, s) && s.puts == [d, e] && SamePlace(d, e, sp.size) && d.owner == e.owner && d != e
    requires k < |s.got| && LastAt(s.got[k], e, sp.size) == Some(d)
    ensures IsStored(sp, s, e) && !IsStored(sp, s, d) && Indexed(sp, s, k, d) && !Indexed(sp, s, k, e)
  {
    hide Partition, Concerns, Conserved, GoodBins, GoodPuts, IsStored, Indexed, SamePlace, LastAt, OneOwner;
    LastIsSecond(d, e, sp.size);
    LastAtSamePlace(s.got[k], d, e, sp.size);
    LastAtSamePlace(s.puts, d, e, sp.size);
    IndexedIsLast(sp, s, k, d);
    IndexedIsLast(sp, s, k, e);
    StoredIsLastPut(sp, s, d);
    StoredIsLastPut(sp, s, e);
  }

  /** One server with one bin that owns a domain of one element. */
  ghost function OneServer(): Space {
    Space([Points(Box([0], [0]))], Box([0], [0]), 1, 1, (bb: Box) => {0})
  }

  lemma OneServerOk()
    ensures SpaceOk(OneServer())
  {
    hide Points, Partition;
    var sp := OneServer();
    OnePart(Points(sp.domain));
    assert |sp.owned| == 1;
  }

  lemma OnePart(whole: set<Point>)
    ensures Partition([whole], whole)
  {
    var owned := [whole];
    assert owned[0] == whole;
  }

  /** Two versions of one element, put in order, whose updates arrive in the other order. */
  lemma OvertakenExample() returns (run: seq<Net>)
    ensures SpaceOk(OneServer()) && IsRun(OneServer(), run)
    ensures var d, e, last := Desc("a", 0, Box([0], [0]), "s"), Desc("a", 1, Box([0], [0]), "s"), run[|run| - 1];
      last.puts == [d, e] && last.flight == multiset{} && Shape(OneServer(), last) && |last.index| == 1
      && IsStored(OneServer(), last, e) && !IsStored(OneServer(), last, d)
      && Indexed(OneServer(), last, 0, d) && !Indexed(OneServer(), last, 0, e)
  {
    hide Points, Partition, Concerns;
    OneServerOk();
    var d, e := Desc("a", 0, Box([0], [0]), "s"), Desc("a", 1, Box([0], [0]), "s");
    var s := Net([], map["s" := [[]]], [[[]]], [[]], multiset{});
    assert [[]] == seq<seq<Desc>>(1, _ => []);
    run := OvertakenRun(OneServer(), s, d, e, 0);
  }

  lemma LastIsSecond(d: Desc, e: Desc, size: nat)
    requires size > 0 && SamePlace(d, e, size) && d.owner == e.owner
    ensures LastAt([d, e], e, size) == Some(e) && OneOwner([d, e], size)
  {
    assert [d, e] == [d] + [e];
    LastAtSnoc([d], e, e, size);
  }

  lemma RunsNext(sp: Space, run: seq<Net>)
    requires SpaceOk(sp) && run != [] && Init(sp, run[0]) && AllNext(sp, run)
    ensures IsRun(sp, run)
  {
    hide SpaceOk, Next, Init;
  }

  // ----- careful puts

  /** The put waits until no server is still to be told of another object of its place. */
  ghost predicate CarefulPut(sp: Space, s: Net, d: Desc, s': Net)
    requires SpaceOk(sp) && Shape(sp, s)
  {
    PutStep(sp, s, d, s') && forall k :: !OtherPending(s, k, d, sp.size)
  }

  ghost predicate CarefulNext(sp: Space, s: Net, s': Net)
    requires SpaceOk(sp)
  {
    Shape(sp, s) && ((exists d :: CarefulPut(sp, s, d, s')) || (exists u :: DeliverStep(sp, s, u, s')))
  }

  ghost predicate IsCarefulRun(sp: Space, run: seq<Net>)
    requires SpaceOk(sp)
  {
    run != [] && Init(sp, run[0]) && forall i :: 0 <= i < |run| - 1 ==> CarefulNext(sp, run[i], run[i + 1])
  }

  ghost predicate SomePending(s: Net, k: nat, e: Desc, size: nat)
    requires size > 0
  {
    exists u :: u in s.flight && u.rank == k && SamePlace(u.d, e, size)
  }

  /** Whatever is pending for a place is its last put; where nothing is, the last put has arrived. */
  ghost predicate Settles(s: Net, k: nat, e: Desc, size: nat)
    requires size > 0 && k < |s.got|
  {
    && (forall u :: u in s.flight && u.rank == k && SamePlace(u.d, e, size) ==> LastAt(s.puts, e, size) == Some(u.d))
    && (!SomePending(s, k, e, size) ==> LastAt(s.got[k], e, size) == LastAt(s.puts, e, size))
  }

  ghost predicate Settling(sp: Space, s: Net)
    requires SpaceOk(sp)
  {
    forall k, e: Desc :: 0 <= k < |s.got| && k in sp.hash(e.bb) ==> Settles(s, k, e, sp.size)
  }

  lemma PutSettles(sp: Space, s: Net, d: Desc, s': Net, k: nat, e: Desc)
    requires SpaceOk(sp) && Shape(sp, s) && CarefulPut(sp, s, d, s') && k < |s.got| && k in sp.hash(e.bb) && Settles(s, k, e, sp.size)
    ensures Settles(s', k, e, sp.size)
  {
    hide Partition, Concerns, StoreAfter, Puttable, UpdatesOf, Bin;
    LastAtSnoc(s.puts, d, e, sp.size);
    forall u: Update
      ensures u in s'.flight <==> u in s.flight || (u.d == d && u.rank in sp.hash(d.bb))
    {
      UpdatesCount(sp, d, u.rank, u.d);
    }
    assert !OtherPending(s, k, d, sp.size);
    if SamePlace(d, e, sp.size) {
      assert Update(k, d) in s'.flight;
    } else if SomePending(s, k, e, sp.size) {
      var u :| u in s.flight && u.rank == k && SamePlace(u.d, e, sp.size);
      assert u in s'.flight;
    }
  }

  lemma DeliverSettles(sp: Space, s: Net, u: Update, s': Net, k: nat, e: Desc)
    requires SpaceOk(sp) && Shape(sp, s) && DeliverStep(sp, s, u, s') && k < |s.got| && Settles(s, k, e, sp.size)
    ensures Settles(s', k, e, sp.size)
  {
    hide Partition, Concerns, IndexAfter, Bin, LastAt, SamePlace;
    LastAtSnoc(s.got[u.rank], u.d, e, sp.size);
    FewerFlights(s.flight, u);
    if k != u.rank || !SamePlace(u.d, e, sp.size) {
      if SomePending(s, k, e, sp.size) {
        var v :| v in s.flight && v.rank == k && SamePlace(v.d, e, sp.size);
        assert v != u;
        assert v in s'.flight;
      }
    }
  }

  lemma FewerFlights(flight: multiset<Update>, u: Update)
    ensures forall v :: v in flight - multiset{u} ==> v in flight
    ensures forall v :: v in flight && v != u ==> v in flight - multiset{u}
  {
  }

  lemma CarefulIsRun(sp: Space, run: seq<Net>)
    requires SpaceOk(sp) && IsCarefulRun(sp, run)
    ensures IsRun(sp, run)
  {
    hide Partition, Concerns, PutStep, DeliverStep, Shape;
    forall i | 0 <= i < |run| - 1
      ensures Next(sp, run[i], run[i + 1])
    {
      var s, s' := run[i], run[i + 1];
      assert CarefulNext(sp, s, s');
      if d :| CarefulPut(sp, s, d, s') {
        assert PutStep(sp, s, d, s');
      }
    }
  }

  lemma InitSettles(sp: Space, s: Net)
    requires SpaceOk(sp) && Init(sp, s)
    ensures Settling(sp, s)
  {
    hide Partition, Concerns;
  }

  lemma {:induction false} CarefulSettles(sp: Space, run: seq<Net>, i: nat)
    requires SpaceOk(sp) && IsCarefulRun(sp, run) && i < |run|
    ensures Settling(sp, run[i])
  {
    hide Partition, Concerns, Init, PutStep, DeliverStep, Settles, OtherPending;
    if i == 0 {
      InitSettles(sp, run[0]);
    } else {
      CarefulSettles(sp, run, i - 1);
      var s, s' := run[i - 1], run[i];
      assert CarefulNext(sp, run[i - 1], run[i - 1 + 1]);
      if d :| CarefulPut(sp, s, d, s') {
        StillShaped(sp, s, s');
        forall k, e: Desc | 0 <= k < |s'.got| && k in sp.hash(e.bb)
          ensures Settles(s', k, e, sp.size)
        {
          PutSettles(sp, s, d, s', k, e);
        }
      } else {
        var u :| DeliverStep(sp, s, u, s');
        StillShaped(sp, s, s');
        forall k, e: Desc | 0 <= k < |s'.got| && k in sp.hash(e.bb)
          ensures Settles(s', k, e, sp.size)
        {
          DeliverSettles(sp, s, u, s', k, e);
        }
      }
    }
  }

  lemma StillShaped(sp: Space, s: Net, s': Net)
    requires SpaceOk(sp) && CarefulNext(sp, s, s')
    ensures |s'.got| == |s.got|
  {
    hide Partition, Concerns, StoreAfter, IndexAfter, Puttable;
  }

  /** In a careful run a server agrees with the stores on every place for which it is told nothing more. */
  lemma IndexMatchesStores(sp: Space, run: seq<Net>, i: nat, k: nat, e: Desc)
    requires SpaceOk(sp) && IsCarefulRun(sp, run) && i < |run| && OneOwner(run[i].puts, sp.size)
    requires k in sp.hash(e.bb) && !SomePending(run[i], k, e, sp.size)
    ensures Shape(sp, run[i]) && k < |run[i].index| && Agree(sp, run[i], k, e)
  {
    hide Partition, Concerns, Init, CarefulNext, Next, Agree, SomePending, OneOwner, GoodPuts, Conserved, GoodBins;
    CarefulIsRun(sp, run);
    RunInv(sp, run, i);
    CarefulSettles(sp, run, i);
    assert Settles(run[i], k, e, sp.size);
    AgreesExactlyWhen(sp, run[i], k, e);
  }

  /** And then it has no descriptor of anything that is not stored. */
  lemma NothingStale(sp: Space, run: seq<Net>, i: nat, k: nat, e: Desc)
    requires SpaceOk(sp) && IsCarefulRun(sp, run) && i < |run| && OneOwner(run[i].puts, sp.size) && Shape(sp, run[i])
    requires k < |run[i].index| && Indexed(sp, run[i], k, e) && !SomePending(run[i], k, e, sp.size)
    ensures k in sp.hash(e.bb) && IsStored(sp, run[i], e)
  {
    hide Partition, Concerns, Init, CarefulNext, Next, SomePending, OneOwner, GoodPuts, Conserved, GoodBins, LastAt;
    CarefulIsRun(sp, run);
    RunInv(sp, run, i);
    IndexedIsLast(sp, run[i], k, e);
    LastAtIn(run[i].got[k], e, sp.size);
    InvFacts(sp, run[i]);
    ToldWasPut(sp, run[i], k, e);
    IndexMatchesStores(sp, run, i, k, e);
    SamePlaceItself(e, sp.size);
  }

  // ----- what a query finds

  /** In a careful run every put that is not superseded is in the index of every server the hash names, or on its way there. */
  lemma LandedOrUnderway(sp: Space, run: seq<Net>, i: nat, k: nat, d: Desc)
    requires SpaceOk(sp) && IsCarefulRun(sp, run) && i < |run| && d in Live(run[i].puts, sp.size) && k in sp.hash(d.bb)
    ensures Shape(sp, run[i]) && k < |run[i].index|
    ensures Indexed(sp, run[i], k, d) || Update(k, d) in run[i].flight
  {
    hide Partition, Concerns, Init, CarefulNext, Next, SamePlace, GoodPuts, Conserved, GoodBins, LastAt, Survives, Live, Indexed;
    CarefulIsRun(sp, run);
    RunInv(sp, run, i);
    CarefulSettles(sp, run, i);
    var s := run[i];
    LiveAt(s.puts, d, sp.size);
    SurvivesIsLast(s.puts, d, sp.size);
    assert Settles(s, k, d, sp.size);
    IndexedIsLast(sp, s, k, d);
    if SomePending(s, k, d, sp.size) {
      var u :| u in s.flight && u.rank == k && SamePlace(u.d, d, sp.size);
      assert u == Update(k, d);
    }
  }

  /** At rest the servers have of every object exactly the puts that are not superseded. */
  lemma QuietMeansLanded(sp: Space, run: seq<Net>, i: nat, q: Desc, k: nat)
    requires SpaceOk(sp) && IsCarefulRun(sp, run) && i < |run| && run[i].flight == multiset{} && k < |sp.owned|
    ensures Shape(sp, run[i])
    ensures Landed(sp, Live(run[i].puts, sp.size), q, k, run[i].index[k][Bin(q.version, sp.size)])
  {
    hide Partition, Init, CarefulNext, Next, SamePlace, GoodPuts, Conserved, GoodBins, LastAt, Survives, Live, Concerns;
    CarefulIsRun(sp, run);
    RunInv(sp, run, i);
    var s, live := run[i], Live(run[i].puts, sp.size);
    forall d | d in s.index[k][Bin(q.version, sp.size)] && SameObject(d, q)
      ensures d in live
    {
      IndexedIsLive(sp, run, i, k, d);
    }
    forall d | d in live && SameObject(d, q) && Concerns(sp, d.bb, k)
      ensures d in s.index[k][Bin(q.version, sp.size)]
    {
      LandedOrUnderway(sp, run, i, k, d);
    }
  }

  lemma IndexedIsLive(sp: Space, run: seq<Net>, i: nat, k: nat, d: Desc)
    requires SpaceOk(sp) && IsCarefulRun(sp, run) && i < |run| && run[i].flight == multiset{} && Shape(sp, run[i])
    requires k < |run[i].index| && Indexed(sp, run[i], k, d)
    ensures d in Live(run[i].puts, sp.size)
  {
    hide Partition, Concerns, Init, CarefulNext, Next, SamePlace, GoodPuts, Conserved, GoodBins, LastAt, Survives, Live, Indexed;
    CarefulIsRun(sp, run);
    RunInv(sp, run, i);
    CarefulSettles(sp, run, i);
    var s := run[i];
    IndexedIsLast(sp, s, k, d);
    LastAtIn(s.got[k], d, sp.size);
    InvFacts(sp, s);
    ToldWasPut(sp, s, k, d);
    assert Settles(s, k, d, sp.size);
    LiveAt(s.puts, d, sp.size);
    SurvivesIsLast(s.puts, d, sp.size);
  }
}
