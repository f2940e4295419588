/** Flooding the server tree: every server handles a broadcast once, and the answers add up to all servers' answers. */
module TreeBroadcast {
  import opened ServerTree

  // ----- the flood as a state machine

  /** How often each rank has handled the request, and the messages in flight, in no particular order. */
  datatype Flood = Flood(handled: multiset<nat>, flight: seq<Msg>)

  ghost predicate Start(s: Flood, root: nat) {
    s == Flood(multiset{}, [Msg(root, -1)])
  }

  /** Any message in flight may be the next to arrive; its receiver handles it and passes it on. */
  ghost predicate Arrive(s: Flood, s': Flood, i: nat, size: nat) {
    && i < |s.flight|
    && s'.handled == s.handled + multiset{s.flight[i].to}
    && s'.flight == s.flight[..i] + s.flight[i + 1..] + Sends(s.flight[i].to, s.flight[i].src, size)
  }

  ghost predicate Step(s: Flood, s': Flood, size: nat) {
    exists i: nat :: Arrive(s, s', i, size)
  }

  /** Handled ranks and the ranks still to be reached together are all ranks, each once. */
  ghost predicate FloodInv(s: Flood, size: nat) {
    && (forall i :: 0 <= i < |s.flight| ==> ValidMsg(s.flight[i], size))
    && s.handled + CoverAll(s.flight, size) == multiset(Ranks(size))
  }

  lemma StartInv(s: Flood, root: nat, size: nat)
    requires root < size && Start(s, root)
    ensures FloodInv(s, size)
  {
    CoverOne(Msg(root, -1), size);
  }

  lemma StepInv(s: Flood, s': Flood, size: nat)
    requires FloodInv(s, size) && Step(s, s', size)
    ensures FloodInv(s', size) && |s'.handled| == |s.handled| + 1
  {
    hide Cover, CoverAll, Sends, ValidMsg;
    var i: nat :| Arrive(s, s', i, size);
    var m, before, after := s.flight[i], s.flight[..i], s.flight[i + 1..];
    var sends := Sends(m.to, m.src, size);
    assert s.flight == before + ([m] + after);
    CoverConcat(before, [m] + after, size);
    CoverConcat([m], after, size);
    CoverOne(m, size);
    CoverSplits(m, size);
    CoverConcat(before + after, sends, size);
    CoverConcat(before, after, size);
    SendsValid(m, size);
  }

  ghost predicate IsRun(run: seq<Flood>, root: nat, size: nat) {
    run != [] && Start(run[0], root) && forall i :: 0 <= i < |run| - 1 ==> Step(run[i], run[i + 1], size)
  }

  lemma {:induction false} RunInv(run: seq<Flood>, root: nat, size: nat, i: nat)
    requires root < size && IsRun(run, root, size) && i < |run|
    ensures FloodInv(run[i], size) && |run[i].handled| == i
  {
    hide FloodInv, Step;
    if i == 0 {
      StartInv(run[0], root, size);
    } else {
      RunInv(run, root, size, i - 1);
      assert Step(run[i - 1], run[i - 1 + 1], size);
      StepInv(run[i - 1], run[i], size);
    }
  }

  lemma {:induction false} RanksSize(size: nat)
    ensures |Ranks(size)| == size
  {
    if size > 0 {
      RanksSize(size - 1);
    }
  }

  /**
   * In every run from every rank no server handles the request twice, the run ends after at most as many
   * steps as there are servers, and when nothing is in flight every server has handled it exactly once.
   */
  lemma ExactlyOnce(run: seq<Flood>, root: nat, size: nat)
    requires root < size && IsRun(run, root, size)
    ensures run[|run| - 1].handled <= multiset(Ranks(size))
    ensures |run| <= size + 1
    ensures run[|run| - 1].flight == [] ==> run[|run| - 1].handled == multiset(Ranks(size))
  {
    var last := run[|run| - 1];
    RunInv(run, root, size, |run| - 1);
    RanksSize(size);
    assert |last.handled| + |CoverAll(last.flight, size)| == |multiset(Ranks(size))| == size;
  }

  /** A flood only stops when nothing is in flight. */
  lemma NeverStuck(s: Flood, size: nat) returns (s': Flood)
    requires s.flight != []
    ensures Step(s, s', size)
  {
    s' := Flood(s.handled + multiset{s.flight[0].to},
                s.flight[..0] + s.flight[1..] + Sends(s.flight[0].to, s.flight[0].src, size));
    assert Arrive(s, s', 0, size);
  }

  // ----- collecting the answers

  lemma {:induction false} CoverMember(ms: seq<Msg>, i: nat, size: nat)
    requires i < |ms|
    ensures |Cover(ms[i], size)| <= |CoverAll(ms, size)|
  {
    hide Cover;
    if i > 0 {
      CoverMember(ms[1..], i - 1, size);
    }
  }

  /** What a message is passed on to reaches fewer ranks. */
  lemma SendsReachLess(m: Msg, i: nat, size: nat)
    requires ValidMsg(m, size) && i < |Sends(m.to, m.src, size)|
    ensures |Cover(Sends(m.to, m.src, size)[i], size)| < |Cover(m, size)|
  {
    hide Cover, CoverAll, Sends;
    CoverSplits(m, size);
    CoverMember(Sends(m.to, m.src, size), i, size);
    assert |multiset(Cover(m, size))| == |Cover(m, size)|;
  }

  lemma {:induction false} InCoverAll(ms: seq<Msg>, size: nat, x: nat)
    ensures x in CoverAll(ms, size) <==> exists i :: 0 <= i < |ms| && x in Cover(ms[i], size)
  {
    hide Cover;
    if ms != [] {
      InCoverAll(ms[1..], size, x);
      if x in CoverAll(ms[1..], size) {
        var i :| 0 <= i < |ms| - 1 && x in Cover(ms[1..][i], size);
        assert x in Cover(ms[i + 1], size);
      }
      if x in Cover(ms[0], size) {
        assert x in multiset(Cover(ms[0], size));
      }
      if i :| 0 < i < |ms| && x in Cover(ms[i], size) {
        assert x in Cover(ms[1..][i - 1], size);
      }
    }
  }

  /** Some rank of the set knows the name. */
  ghost predicate Known(vars: seq<set<string>>, ranks: set<nat>, name: string) {
    exists r :: r in ranks && r < |vars| && name in vars[r]
  }

  /** get_vars_rpc at one server: its own names and those its neighbours answer with. */
  method GetVars(vars: seq<set<string>>, rank: nat, src: int) returns (results: set<string>)
    requires ValidMsg(Msg(rank, src), |vars|)
    ensures forall name :: name in results <==> Known(vars, Cover(Msg(rank, src), |vars|), name)
    decreases |Cover(Msg(rank, src), |vars|)|
  {
    hide Cover, CoverAll, Sends, ValidMsg;
    var size := |vars|;
    var started, sent := IbcastRpcStart(rank, size, src);
    SendsValid(Msg(rank, src), size);
    InRange(rank, src, size);
    results := vars[rank];
    for i := 0 to |sent|
      invariant forall name :: name in results <==> name in vars[rank] || exists j :: 0 <= j < i && Known(vars, Cover(sent[j], size), name)
    {
      SendsReachLess(Msg(rank, src), i, size);
      var out := GetVars(vars, sent[i].to, sent[i].src);
      assert sent[i] == Msg(sent[i].to, sent[i].src);
      results := results + out;
    }
    forall name
      ensures name in results <==> Known(vars, Cover(Msg(rank, src), size), name)
    {
      KnownSplits(vars, rank, src, sent, name);
    }
  }

  lemma InRange(rank: nat, src: int, size: nat)
    requires ValidMsg(Msg(rank, src), size)
    ensures rank < size
  {
  }

  lemma KnownSplits(vars: seq<set<string>>, rank: nat, src: int, sent: seq<Msg>, name: string)
    requires ValidMsg(Msg(rank, src), |vars|) && sent == Sends(rank, src, |vars|)
    ensures Known(vars, Cover(Msg(rank, src), |vars|), name)
      <==> name in vars[rank] || exists j :: 0 <= j < |sent| && Known(vars, Cover(sent[j], |vars|), name)
  {
    hide Cover, CoverAll, Sends, ValidMsg;
    var size := |vars|;
    InRange(rank, src, size);
    var m := Msg(rank, src);
    CoverSplits(m, size);
    forall r: nat
      ensures r in Cover(m, size) <==> r == rank || exists j :: 0 <= j < |sent| && r in Cover(sent[j], size)
    {
      InCoverAll(sent, size, r);
      assert r in multiset(Cover(m, size)) <==> r in Cover(m, size);
    }
  }

  /** Asked by a client at any server, get_vars answers the union of all servers' names. */
  method AllNames(vars: seq<set<string>>, rank: nat) returns (results: set<string>)
    requires rank < |vars|
    ensures forall name :: name in results <==> exists r :: 0 <= r < |vars| && name in vars[r]
  {
    results := GetVars(vars, rank, -1);
    forall name
      ensures name in results <==> exists r :: 0 <= r < |vars| && name in vars[r]
    {
      if r :| 0 <= r < |vars| && name in vars[r] {
        assert r in Cover(Msg(rank, -1), |vars|);
      }
    }
  }

  // ----- collecting objects

  function Copies<T>(k: nat, m: multiset<T>): multiset<T> {
    if k == 0 then multiset{} else m + Copies(k - 1, m)
  }

  lemma {:induction false} CopiesAdd<T>(a: nat, b: nat, m: multiset<T>)
    ensures Copies(a + b, m) == Copies(a, m) + Copies(b, m)
  {
    if a > 0 {
      CopiesAdd(a - 1, b, m);
    }
  }

  /** A list without its order. */
  function Bag<T>(s: seq<T>): multiset<T> {
    multiset(s)
  }

  /** The objects of the first upto ranks, each as often as the multiset of ranks says. */
  ghost function Objects<T>(objs: seq<seq<T>>, ranks: multiset<nat>, upto: nat): multiset<T>
    requires upto <= |objs|
  {
    if upto == 0 then multiset{}
    else Objects(objs, ranks, upto - 1) + Copies(ranks[upto - 1], Bag(objs[upto - 1]))
  }

  lemma ObjectsStart<T>(objs: seq<seq<T>>, ranks: multiset<nat>)
    ensures Objects(objs, ranks, 0) == multiset{}
  {
  }

  lemma ObjectsNext<T>(objs: seq<seq<T>>, ranks: multiset<nat>, upto: nat)
    requires 0 < upto <= |objs|
    ensures Objects(objs, ranks, upto) == Objects(objs, ranks, upto - 1) + Copies(ranks[upto - 1], Bag(objs[upto - 1]))
  {
  }

  lemma {:induction false} ObjectsAdd<T>(objs: seq<seq<T>>, a: multiset<nat>, b: multiset<nat>, upto: nat)
    requires upto <= |objs|
    ensures Objects(objs, a + b, upto) == Objects(objs, a, upto) + Objects(objs, b, upto)
  {
    hide *;
    if upto == 0 {
      ObjectsStart(objs, a);
      ObjectsStart(objs, b);
      ObjectsStart(objs, a + b);
    } else {
      ObjectsAdd(objs, a, b, upto - 1);
      ObjectsNext(objs, a, upto);
      ObjectsNext(objs, b, upto);
      ObjectsNext(objs, a + b, upto);
      var m := Bag(objs[upto - 1]);
      CopiesAdd(a[upto - 1], b[upto - 1], m);
      Regroup(Objects(objs, a, upto - 1), Objects(objs, b, upto - 1), Copies(a[upto - 1], m), Copies(b[upto - 1], m));
      assert (a + b)[upto - 1] == a[upto - 1] + b[upto - 1];
    }
  }

  lemma Regroup<T>(a: multiset<T>, b: multiset<T>, c: multiset<T>, d: multiset<T>)
    ensures (a + b) + (c + d) == (a + c) + (b + d)
  {
  }

  lemma CopiesNoneOne<T>(m: multiset<T>)
    ensures Copies(0, m) == multiset{} && Copies(1, m) == m
  {
  }

  lemma CountOne(r: nat, i: nat)
    ensures multiset{r}[i] == if r == i then 1 else 0
  {
  }

  lemma AddNone<T>(m: multiset<T>)
    ensures m + multiset{} == m == multiset{} + m
  {
  }

  lemma {:induction false} ObjectsOne<T>(objs: seq<seq<T>>, r: nat, upto: nat)
    requires upto <= |objs| && r < |objs|
    ensures Objects(objs, multiset{r}, upto) == if r < upto then Bag(objs[r]) else multiset{}
  {
    hide *;
    if upto == 0 {
      ObjectsStart(objs, multiset{r});
    } else {
      ObjectsOne(objs, r, upto - 1);
      CountOne(r, upto - 1);
      ObjectsNext(objs, multiset{r}, upto);
      OneMore(Objects(objs, multiset{r}, upto - 1), Bag(objs[upto - 1]), multiset{r}[upto - 1]);
    }
  }

  lemma OneMore<T>(before: multiset<T>, m: multiset<T>, c: nat)
    requires c == 0 || (c == 1 && before == multiset{})
    ensures before + Copies(c, m) == if c == 0 then before else m
  {
    CopiesNoneOne(m);
    AddNone(before);
    AddNone(m);
  }

  lemma {:induction false} ObjectsNone<T>(objs: seq<seq<T>>, upto: nat)
    requires upto <= |objs|
    ensures Objects(objs, multiset{}, upto) == multiset{}
  {
    if upto > 0 {
      ObjectsNone(objs, upto - 1);
    }
  }

  /** get_var_objs_rpc at one server: its own objects followed by what its neighbours answer with. */
  method GetVarObjs<T>(objs: seq<seq<T>>, rank: nat, src: int) returns (rout: seq<T>)
    requires ValidMsg(Msg(rank, src), |objs|)
    ensures multiset(rout) == Objects(objs, multiset(Cover(Msg(rank, src), |objs|)), |objs|)
    ensures rank < |objs| && objs[rank] <= rout
    decreases |Cover(Msg(rank, src), |objs|)|
  {
    hide Cover, CoverAll, Sends, ValidMsg, Objects;
    var size := |objs|;
    var started, sent := IbcastRpcStart(rank, size, src);
    SendsValid(Msg(rank, src), size);
    InRange(rank, src, size);
    rout := objs[rank];
    CoverNone(size);
    ObjectsNone(objs, size);
    assert sent[..0] == [];
    for i := 0 to |sent|
      invariant multiset(rout) == multiset(objs[rank]) + Objects(objs, CoverAll(sent[..i], size), size)
      invariant objs[rank] <= rout
    {
      SendsReachLess(Msg(rank, src), i, size);
      var out := GetVarObjs(objs, sent[i].to, sent[i].src);
      assert sent[i] == Msg(sent[i].to, sent[i].src);
      assert sent[..i + 1] == sent[..i] + [sent[i]];
      CoverConcat(sent[..i], [sent[i]], size);
      CoverOne(sent[i], size);
      ObjectsAdd(objs, CoverAll(sent[..i], size), multiset(Cover(sent[i], size)), size);
      rout := rout + out;
    }
    assert sent[..|sent|] == sent;
    CoverSplits(Msg(rank, src), size);
    ObjectsAdd(objs, multiset{rank}, CoverAll(sent, size), size);
    ObjectsOne(objs, rank, size);
  }

  ghost function AllOf<T>(objs: seq<seq<T>>): multiset<T> {
    if objs == [] then multiset{} else AllOf(objs[..|objs| - 1]) + multiset(objs[|objs| - 1])
  }

  lemma OneOfEach(size: nat, r: nat)
    requires r < size
    ensures multiset(Ranks(size))[r] == 1
  {
  }

  lemma {:induction false} ObjectsAll<T>(objs: seq<seq<T>>, upto: nat)
    requires upto <= |objs|
    ensures Objects(objs, multiset(Ranks(|objs|)), upto) == AllOf(objs[..upto])
  {
    hide Copies, Objects, Ranks;
    var all := multiset(Ranks(|objs|));
    if upto == 0 {
      ObjectsStart(objs, all);
    } else {
      ObjectsAll(objs, upto - 1);
      ObjectsNext(objs, all, upto);
      assert objs[..upto][..upto - 1] == objs[..upto - 1];
      OneOfEach(|objs|, upto - 1);
      CopiesNoneOne(Bag(objs[upto - 1]));
    }
  }

  /** Asked by a client at any server, get_var_objs answers every server's objects, each as often as it is stored. */
  method AllObjects<T>(objs: seq<seq<T>>, rank: nat) returns (rout: seq<T>)
    requires rank < |objs|
    ensures multiset(rout) == AllOf(objs)
  {
    hide Objects;
    rout := GetVarObjs(objs, rank, -1);
    ObjectsAll(objs, |objs|);
    assert objs[..|objs|] == objs;
  }
}
