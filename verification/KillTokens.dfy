/** Shutting the servers down by kill tokens that flood the tree from rank 0. */
module KillTokens {
  import opened ServerTree

  // ----- one server

  class Server {
    const rank: nat
    const size_sp: nat
    var f_kill: int       // tokens to go; a server that starts with a negative number runs for ever

    constructor (rank: nat, size_sp: nat, num_apps: int)
      ensures this.rank == rank && this.size_sp == size_sp && f_kill == num_apps
    {
      this.rank, this.size_sp, f_kill := rank, size_sp, num_apps;
    }

    /** kill_rpc: a server at zero ignores the token; any other counts down, passes the token on and at zero shuts down. */
    method KillRpc(src: int) returns (sent: seq<Msg>, do_kill: bool)
      requires ValidMsg(Msg(rank, src), size_sp)
      modifies this
      ensures (f_kill, sent, do_kill) == Kill(old(f_kill), Msg(rank, src), size_sp)
    {
      sent, do_kill := [], false;
      if f_kill == 0 {
        return;
      }
      f_kill := f_kill - 1;
      if f_kill == 0 {
        do_kill := true;
      }
      var started;
      started, sent := IbcastRpcStart(rank, size_sp, src);
    }
  }

  /** The count, the tokens passed on and whether the server shuts down when m arrives at a server with count f. */
  function Kill(f: int, m: Msg, size: nat): (int, seq<Msg>, bool) {
    if f == 0 then (0, [], false) else (f - 1, Sends(m.to, m.src, size), f == 1)
  }

  // ----- all servers

  /** Every server's count, how often it has begun to shut down, the tokens in flight and how many clients have sent. */
  datatype Net = Net(f_kill: seq<int>, shutdowns: seq<nat>, flight: seq<Msg>, clients: nat)

  ghost predicate Init(s: Net, size: nat, num_apps: int) {
    s == Net(seq(size, _ => num_apps), seq(size, _ => 0), [], 0)
  }

  /** A client's dspaces_kill: one token for rank 0. */
  ghost predicate ClientKill(s: Net, s': Net) {
    s' == s.(flight := s.flight + [Msg(0, -1)], clients := s.clients + 1)
  }

  /** Any token in flight may be the next to arrive. */
  ghost predicate Arrive(s: Net, s': Net, i: nat, size: nat)
    requires |s.f_kill| == |s.shutdowns| == size
  {
    i < |s.flight| && s.flight[i].to < size &&
    var m := s.flight[i];
    var (f, sent, do_kill) := Kill(s.f_kill[m.to], m, size);
    && s'.f_kill == s.f_kill[m.to := f]
    && s'.shutdowns == s.shutdowns[m.to := s.shutdowns[m.to] + if do_kill then 1 else 0]
    && s'.flight == s.flight[..i] + s.flight[i + 1..] + sent && s'.clients == s.clients
  }

  ghost predicate Step(s: Net, s': Net, size: nat)
    requires |s.f_kill| == |s.shutdowns| == size
  {
    ClientKill(s, s') || exists i: nat :: Arrive(s, s', i, size)
  }

  /** The tokens in flight to a rank. */
  function InFlight(flight: seq<Msg>, to: nat): nat {
    if flight == [] then 0 else (if flight[0].to == to then 1 else 0) + InFlight(flight[1..], to)
  }

  lemma {:induction false} InFlightConcat(a: seq<Msg>, b: seq<Msg>, to: nat)
    ensures InFlight(a + b, to) == InFlight(a, to) + InFlight(b, to)
  {
    if a == [] {
      assert a + b == b;
    } else {
      assert (a + b)[1..] == a[1..] + b;
      InFlightConcat(a[1..], b, to);
    }
  }

  lemma {:induction false} InFlightHas(flight: seq<Msg>, i: nat)
    requires i < |flight|
    ensures InFlight(flight, flight[i].to) > 0
  {
    if i > 0 {
      InFlightHas(flight[1..], i - 1);
    }
  }

  /** Tokens only ever travel down the tree. */
  ghost predicate Downward(m: Msg, size: nat) {
    m.to < size && m.src == if m.to == 0 then -1 else Parent(m.to)
  }

  /** What k tokens leave of a count: it stops at zero, but not when it starts below. */
  function CountDown(num_apps: int, k: int): int {
    if 0 <= num_apps < k then 0 else num_apps - k
  }

  /**
   * Rank 0 has counted the tokens of clients that are not in flight any more; a child's count is its parent's count and the tokens in flight between them; counts that start positive
   * never become negative, and a server has begun to shut down once exactly when its count is zero.
   */
  ghost predicate Inv(s: Net, size: nat, num_apps: int) {
    && size > 0 && |s.f_kill| == |s.shutdowns| == size
    && (forall i :: 0 <= i < |s.flight| ==> Downward(s.flight[i], size))
    && 0 <= InFlight(s.flight, 0) <= s.clients && s.f_kill[0] == CountDown(num_apps, s.clients - InFlight(s.flight, 0))
    && (forall c {:trigger s.f_kill[c]} :: 0 < c < size ==> s.f_kill[c] == s.f_kill[Parent(c)] + InFlight(s.flight, c))
    && (forall r {:trigger s.shutdowns[r]} :: 0 <= r < size ==>
      s.shutdowns[r] == if num_apps > 0 && s.f_kill[r] == 0 then 1 else 0)
    && (forall r {:trigger s.f_kill[r]} :: 0 <= r < size ==> if num_apps >= 0 then 0 <= s.f_kill[r] <= num_apps else s.f_kill[r] <= num_apps)
  }

  lemma InitInv(s: Net, size: nat, num_apps: int)
    requires size > 0 && Init(s, size, num_apps)
    ensures Inv(s, size, num_apps)
  {
  }

  lemma ClientFlight(flight: seq<Msg>, c: nat)
    ensures InFlight(flight + [Msg(0, -1)], c) == InFlight(flight, c) + if c == 0 then 1 else 0
  {
    InFlightConcat(flight, [Msg(0, -1)], c);
    assert [Msg(0, -1)][1..] == [];
  }

  lemma ClientKillInv(s: Net, s': Net, size: nat, num_apps: int)
    requires Inv(s, size, num_apps) && ClientKill(s, s')
    ensures Inv(s', size, num_apps)
  {
    hide InFlight;
    ClientFlight(s.flight, 0);
    forall c | 0 < c < size
      ensures s'.f_kill[c] == s'.f_kill[Parent(c)] + InFlight(s'.flight, c)
    {
      ClientFlight(s.flight, c);
      assert s.f_kill[c] == s.f_kill[Parent(c)] + InFlight(s.flight, c);
    }
  }

  /** No token that travels between servers is ignored. */
  lemma NeverIgnored(s: Net, size: nat, num_apps: int, i: nat)
    requires Inv(s, size, num_apps) && i < |s.flight| && s.flight[i].to > 0
    ensures s.f_kill[s.flight[i].to] != 0
  {
    InFlightHas(s.flight, i);
    assert s.f_kill[Parent(s.flight[i].to)] <= num_apps || num_apps >= 0;
  }

  /** A handled token turns into one for each child. */
  lemma SentDown(m: Msg, size: nat, c: nat)
    requires Downward(m, size) && c < size
    ensures InFlight(Sends(m.to, m.src, size), c) == if c > 0 && Parent(c) == m.to then 1 else 0
    ensures forall i :: 0 <= i < |Sends(m.to, m.src, size)| ==> Downward(Sends(m.to, m.src, size)[i], size)
  {
    var c1, c2 := 2 * m.to + 1, 2 * m.to + 2;
    assert Parent(c1) == m.to && Parent(c2) == m.to;
    var left := if c1 < size then [Msg(c1, m.to)] else [];
    var right := if c2 < size then [Msg(c2, m.to)] else [];
    assert Sends(m.to, m.src, size) == left + right;
    InFlightConcat(left, right, c);
    assert left == [Msg(c1, m.to)] ==> left[1..] == [];
    assert right == [Msg(c2, m.to)] ==> right[1..] == [];
  }

  lemma FlightAfter(s: Net, i: nat, sent: seq<Msg>, c: nat)
    requires i < |s.flight|
    ensures InFlight(s.flight[..i] + s.flight[i + 1..] + sent, c)
      == InFlight(s.flight, c) - (if s.flight[i].to == c then 1 else 0) + InFlight(sent, c)
  {
    var before, m, after := s.flight[..i], s.flight[i], s.flight[i + 1..];
    assert s.flight == before + ([m] + after);
    InFlightConcat(before, [m] + after, c);
    assert ([m] + after)[1..] == after;
    InFlightConcat(before + after, sent, c);
    InFlightConcat(before, after, c);
  }

  lemma ArriveChild(s: Net, s': Net, i: nat, size: nat, num_apps: int, c: nat)
    requires Inv(s, size, num_apps) && Arrive(s, s', i, size) && 0 < c < size
    ensures s'.f_kill[c] == s'.f_kill[Parent(c)] + InFlight(s'.flight, c)
  {
    hide InFlight, Sends;
    var m := s.flight[i];
    var sent := Kill(s.f_kill[m.to], m, size).1;
    if m.to > 0 {
      NeverIgnored(s, size, num_apps, i);
    }
    FlightAfter(s, i, sent, c);
    SentDown(m, size, c);
    NoneInFlight(c);
    assert s.f_kill[c] == s.f_kill[Parent(c)] + InFlight(s.flight, c);
  }

  lemma NoneInFlight(c: nat)
    ensures InFlight([], c) == 0
  {
  }

  lemma ArriveRoot(s: Net, s': Net, i: nat, size: nat, num_apps: int)
    requires Inv(s, size, num_apps) && Arrive(s, s', i, size)
    ensures 0 <= InFlight(s'.flight, 0) <= s'.clients
    ensures s'.f_kill[0] == CountDown(num_apps, s'.clients - InFlight(s'.flight, 0))
  {
    hide InFlight, Sends;
    var m := s.flight[i];
    var sent := Kill(s.f_kill[m.to], m, size).1;
    FlightAfter(s, i, sent, 0);
    SentDown(m, size, 0);
    NoneInFlight(0);
    InFlightHas(s.flight, i);
  }

  lemma ArriveRank(s: Net, s': Net, i: nat, size: nat, num_apps: int, r: nat)
    requires Inv(s, size, num_apps) && Arrive(s, s', i, size) && r < size
    ensures s'.shutdowns[r] == if num_apps > 0 && s'.f_kill[r] == 0 then 1 else 0
    ensures if num_apps >= 0 then 0 <= s'.f_kill[r] <= num_apps else s'.f_kill[r] <= num_apps
  {
    hide InFlight, Sends;
    assert s.f_kill[r] <= num_apps;
    assert s.shutdowns[r] == if num_apps > 0 && s.f_kill[r] == 0 then 1 else 0;
  }

  lemma ArriveDownward(s: Net, s': Net, i: nat, size: nat, num_apps: int)
    requires Inv(s, size, num_apps) && Arrive(s, s', i, size)
    ensures |s'.f_kill| == |s'.shutdowns| == size
    ensures forall j :: 0 <= j < |s'.flight| ==> Downward(s'.flight[j], size)
  {
    hide InFlight, Sends, CountDown;
    SentDown(s.flight[i], size, 0);
  }

  lemma ArriveInv(s: Net, s': Net, i: nat, size: nat, num_apps: int)
    requires Inv(s, size, num_apps) && Arrive(s, s', i, size)
    ensures Inv(s', size, num_apps)
  {
    hide InFlight, Sends, Arrive, Kill, CountDown;
    ArriveDownward(s, s', i, size, num_apps);
    ArriveRoot(s, s', i, size, num_apps);
    forall c | 0 < c < size
      ensures s'.f_kill[c] == s'.f_kill[Parent(c)] + InFlight(s'.flight, c)
    {
      ArriveChild(s, s', i, size, num_apps, c);
    }
    forall r | 0 <= r < size
      ensures s'.shutdowns[r] == if num_apps > 0 && s'.f_kill[r] == 0 then 1 else 0
      ensures if num_apps >= 0 then 0 <= s'.f_kill[r] <= num_apps else s'.f_kill[r] <= num_apps
    {
      ArriveRank(s, s', i, size, num_apps, r);
    }
  }

  ghost predicate IsRun(run: seq<Net>, size: nat, num_apps: int) {
    run != [] && size > 0 && Init(run[0], size, num_apps)
    && forall i :: 0 <= i < |run| - 1 ==> |run[i].f_kill| == |run[i].shutdowns| == size && Step(run[i], run[i + 1], size)
  }

  lemma {:induction false} RunInv(run: seq<Net>, size: nat, num_apps: int, i: nat)
    requires IsRun(run, size, num_apps) && i < |run|
    ensures Inv(run[i], size, num_apps)
  {
    hide Inv, Arrive;
    if i == 0 {
      InitInv(run[0], size, num_apps);
    } else {
      RunInv(run, size, num_apps, i - 1);
      var s, s' := run[i - 1], run[i];
      assert Step(run[i - 1], run[i - 1 + 1], size);
      if ClientKill(s, s') {
        ClientKillInv(s, s', size, num_apps);
      } else {
        var j: nat :| Arrive(s, s', j, size);
        ArriveInv(s, s', j, size, num_apps);
      }
    }
  }

  // ----- what follows

  /** With tokens to count, a server shuts down at most once, and only when everybody above it has counted down. */
  lemma {:induction false} AncestorsFirst(s: Net, size: nat, num_apps: int, r: nat, a: nat)
    requires Inv(s, size, num_apps) && num_apps > 0 && r < size && s.shutdowns[r] > 0 && Below(r, a)
    ensures s.shutdowns[r] == 1 && s.shutdowns[a] == 1 && s.f_kill[a] == 0
    decreases r
  {
    assert s.shutdowns[r] == if s.f_kill[r] == 0 then 1 else 0;
    if r != a {
      var p := Parent(r);
      assert s.f_kill[r] == s.f_kill[p] + InFlight(s.flight, r);
      assert 0 <= s.f_kill[p];
      assert s.shutdowns[p] == if s.f_kill[p] == 0 then 1 else 0;
      AncestorsFirst(s, size, num_apps, p, a);
    }
  }

  /** No token is in flight to a server other than rank 0 that has begun to shut down. */
  lemma NothingToTheDead(s: Net, size: nat, num_apps: int, i: nat)
    requires Inv(s, size, num_apps) && num_apps > 0 && i < |s.flight| && s.flight[i].to > 0
    ensures s.shutdowns[s.flight[i].to] == 0
  {
    NeverIgnored(s, size, num_apps, i);
    var r := s.flight[i].to;
    assert s.shutdowns[r] == if num_apps > 0 && s.f_kill[r] == 0 then 1 else 0;
  }

  /** Once nothing is in flight all counts are equal. */
  lemma {:induction false} QuietMeansEqual(s: Net, size: nat, num_apps: int, r: nat)
    requires Inv(s, size, num_apps) && s.flight == [] && r < size
    ensures s.f_kill[r] == s.f_kill[0]
    decreases r
  {
    if r > 0 {
      assert s.f_kill[r] == s.f_kill[Parent(r)] + InFlight(s.flight, r);
      QuietMeansEqual(s, size, num_apps, Parent(r));
    }
  }

  /**
   * Once nothing is in flight, every server's count is what the clients' tokens have left of it: all have
   * shut down if there were at least as many tokens as applications, and none otherwise.
   */
  lemma QuietOutcome(run: seq<Net>, size: nat, num_apps: int, r: nat)
    requires IsRun(run, size, num_apps) && run[|run| - 1].flight == [] && r < size
    ensures |run[|run| - 1].f_kill| == |run[|run| - 1].shutdowns| == size
    ensures run[|run| - 1].f_kill[r] == CountDown(num_apps, run[|run| - 1].clients)
    ensures run[|run| - 1].shutdowns[r] == if num_apps > 0 && run[|run| - 1].clients >= num_apps then 1 else 0
  {
    var s := run[|run| - 1];
    RunInv(run, size, num_apps, |run| - 1);
    QuietMeansEqual(s, size, num_apps, r);
    NoneInFlight(0);
    assert s.shutdowns[r] == if num_apps > 0 && s.f_kill[r] == 0 then 1 else 0;
  }
}
