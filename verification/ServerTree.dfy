/** The binary heap tree over the server ranks and the part of it a broadcast message still has to reach. */
module ServerTree {
  /** (rank - 1) / 2 with C's truncation: rank 0 is its own parent. */
  function Parent(rank: nat): (p: nat)
    ensures rank > 0 ==> p < rank
  {
    if rank == 0 then 0 else (rank - 1) / 2
  }

  /** r is a or lies below a in the tree. */
  predicate Below(r: nat, a: nat) {
    r == a || (r > a && Below(Parent(r), a))
  }

  lemma {:induction false} EverythingBelowRoot(r: nat)
    ensures Below(r, 0)
  {
    if r > 0 {
      EverythingBelowRoot(Parent(r));
    }
  }

  lemma {:induction false} BelowUp(r: nat, c: nat)
    requires Below(r, c)
    ensures Below(r, Parent(c))
    decreases r
  {
    if r == c {
      if c > 0 {
        assert Below(Parent(c), Parent(c));
      }
    } else {
      BelowUp(Parent(r), c);
    }
  }

  /** Everything below a but a itself lies below one of its children. */
  lemma {:induction false} BelowDown(r: nat, a: nat)
    requires Below(r, a) && r != a
    ensures Below(r, 2 * a + 1) || Below(r, 2 * a + 2)
  {
    if Parent(r) != a {
      BelowDown(Parent(r), a);
    }
  }

  /** Two ancestors of one rank are ancestors of one another. */
  lemma {:induction false} BelowLine(r: nat, x: nat, y: nat)
    requires Below(r, x) && Below(r, y)
    ensures Below(x, y) || Below(y, x)
  {
    if r != x && r != y {
      BelowLine(Parent(r), x, y);
    }
  }

  lemma SiblingsApart(r: nat, a: nat)
    ensures !(Below(r, 2 * a + 1) && Below(r, 2 * a + 2))
  {
    assert Parent(2 * a + 2) == a;
    if Below(r, 2 * a + 1) && Below(r, 2 * a + 2) {
      BelowLine(r, 2 * a + 1, 2 * a + 2);
    }
  }

  /** All ranks. */
  function Ranks(size: nat): (s: set<nat>)
    ensures forall r: nat :: r in s <==> r < size
  {
    if size == 0 then {} else Ranks(size - 1) + {size - 1}
  }

  /** The ranks from a downwards. */
  function Sub(a: nat, size: nat): set<nat> {
    set r | r in Ranks(size) && Below(r, a)
  }

  /** A subtree is its root and the subtrees of the root's children. */
  lemma SubSplit(a: nat, size: nat)
    requires a < size
    ensures Sub(a, size) == {a} + Sub(2 * a + 1, size) + Sub(2 * a + 2, size)
    ensures a !in Sub(2 * a + 1, size) && a !in Sub(2 * a + 2, size) && Sub(2 * a + 1, size) !! Sub(2 * a + 2, size)
  {
    forall r | 0 <= r < size
      ensures Below(r, a) <==> r == a || Below(r, 2 * a + 1) || Below(r, 2 * a + 2)
      ensures !(Below(r, 2 * a + 1) && Below(r, 2 * a + 2))
    {
      SiblingsApart(r, a);
      assert Parent(2 * a + 1) == a && Parent(2 * a + 2) == a;
      if Below(r, a) && r != a {
        BelowDown(r, a);
      }
      if Below(r, 2 * a + 1) {
        BelowUp(r, 2 * a + 1);
      }
      if Below(r, 2 * a + 2) {
        BelowUp(r, 2 * a + 2);
      }
    }
  }

  lemma SubOutside(a: nat, size: nat)
    requires a >= size
    ensures Sub(a, size) == {}
  {
    forall r | 0 <= r < size
      ensures !Below(r, a)
    {
    }
  }

  lemma SubRoot(size: nat)
    ensures Sub(0, size) == Ranks(size)
  {
    forall r | 0 <= r < size
      ensures Below(r, 0)
    {
      EverythingBelowRoot(r);
    }
  }

  // ----- messages

  /** A broadcast message to a rank; src is the sender's rank, -1 for the server the broadcast starts at. */
  datatype Msg = Msg(to: nat, src: int)

  ghost predicate Adjacent(a: nat, b: nat) {
    (a > 0 && Parent(a) == b) || (b > 0 && Parent(b) == a)
  }

  ghost predicate ValidMsg(m: Msg, size: nat) {
    m.to < size && (m.src == -1 || (0 <= m.src < size && Adjacent(m.to, m.src)))
  }

  /** The ranks a message will reach: the part of the tree on the receiver's side of the edge. */
  ghost function Cover(m: Msg, size: nat): set<nat> {
    if m.src == -1 then Ranks(size)
    else if m.src < m.to then Sub(m.to, size)
    else Ranks(size) - Sub(m.src, size)
  }

  /** The three sends of ibcast_rpc_start, in its order. */
  function Sends(rank: nat, src: int, size: nat): seq<Msg> {
    var child1, child2 := 2 * rank + 1, 2 * rank + 2;
    (if (src == -1 || src > rank) && rank > 0 then [Msg(Parent(rank), rank)] else [])
    + (if child1 != src && child1 < size then [Msg(child1, rank)] else [])
    + (if child2 != src && child2 < size then [Msg(child2, rank)] else [])
  }

  /** All sent by rank, to the parent first, then to the first and to the second child. */
  ghost predicate InRankOrder(sent: seq<Msg>, rank: nat) {
    && (forall i :: 0 <= i < |sent| ==> sent[i].src == rank)
    && forall i, j :: 0 <= i < j < |sent| ==> sent[i].to < sent[j].to
  }

  lemma SendsInOrder(rank: nat, src: int, size: nat)
    ensures InRankOrder(Sends(rank, src, size), rank)
  {
  }

  /** ibcast_rpc_start; no state is returned when there is nobody to send to. */
  method IbcastRpcStart(rank: nat, size_sp: nat, src: int) returns (started: bool, sent: seq<Msg>)
    requires ValidMsg(Msg(rank, src), size_sp)
    ensures sent == Sends(rank, src, size_sp)
    ensures started <==> size_sp > 1 && !(src == Parent(rank) && 2 * rank + 1 >= size_sp)
    ensures forall t: nat :: Msg(t, rank) in sent <==> t < size_sp && Adjacent(rank, t) && t != src
    ensures InRankOrder(sent, rank)
  {
    hide Adjacent, InRankOrder;
    AllSends(rank, src, size_sp);

    var parent := Parent(rank);
    var child1 := rank * 2 + 1;
    var child2 := child1 + 1;
    sent := [];
    if size_sp == 1 || (src == parent && child1 >= size_sp) {
      return false, [];
    }
    if (src == -1 || src > rank) && rank > 0 {
      sent := sent + [Msg(parent, rank)];
    }
    if child1 != src && child1 < size_sp {
      sent := sent + [Msg(child1, rank)];
    }
    if child2 != src && child2 < size_sp {
      sent := sent + [Msg(child2, rank)];
    }
    started := true;
  }

  /** The message goes on to exactly the receiver's neighbours in the tree other than the one it came from. */
  lemma SendsToNeighbours(rank: nat, src: int, size: nat, t: nat)
    requires ValidMsg(Msg(rank, src), size)
    ensures Msg(t, rank) in Sends(rank, src, size) <==> t < size && Adjacent(rank, t) && t != src
  {
    assert Parent(2 * rank + 1) == rank && Parent(2 * rank + 2) == rank;
    if t > 0 && Parent(t) == rank {
      assert t == 2 * rank + 1 || t == 2 * rank + 2;
    }
  }

  lemma AllSends(rank: nat, src: int, size: nat)
    requires ValidMsg(Msg(rank, src), size)
    ensures forall t: nat :: Msg(t, rank) in Sends(rank, src, size) <==> t < size && Adjacent(rank, t) && t != src
    ensures InRankOrder(Sends(rank, src, size), rank)
  {
    hide Adjacent, Sends, InRankOrder;
    forall t: nat
      ensures Msg(t, rank) in Sends(rank, src, size) <==> t < size && Adjacent(rank, t) && t != src
    {
      SendsToNeighbours(rank, src, size, t);
    }
    SendsInOrder(rank, src, size);
  }

  /** The ranks the messages of a list will reach, with multiplicity. */
  ghost function CoverAll(ms: seq<Msg>, size: nat): multiset<nat> {
    if ms == [] then multiset{} else multiset(Cover(ms[0], size)) + CoverAll(ms[1..], size)
  }

  lemma {:induction false} CoverConcat(a: seq<Msg>, b: seq<Msg>, size: nat)
    ensures CoverAll(a + b, size) == CoverAll(a, size) + CoverAll(b, size)
  {
    hide Cover;
    if a == [] {
      assert a + b == b;
    } else {
      assert (a + b)[1..] == a[1..] + b;
      CoverConcat(a[1..], b, size);
    }
  }

  lemma CoverOne(m: Msg, size: nat)
    ensures CoverAll([m], size) == multiset(Cover(m, size))
  {
    assert [m][1..] == [];
  }

  ghost function UpPart(rank: nat, src: int, size: nat): set<nat> {
    if (src == -1 || src > rank) && rank > 0 then Ranks(size) - Sub(rank, size) else {}
  }

  ghost function ChildPart(c: nat, src: int, size: nat): set<nat> {
    if c != src then Sub(c, size) else {}
  }

  lemma CoverParts(rank: nat, src: int, size: nat)
    requires ValidMsg(Msg(rank, src), size)
    ensures var u, l, r := UpPart(rank, src, size), ChildPart(2 * rank + 1, src, size), ChildPart(2 * rank + 2, src, size);
      Cover(Msg(rank, src), size) == {rank} + u + l + r && rank !in u + l + r && u !! l && (u + l) !! r
  {
    hide Below;
    SubSplit(rank, size);
    SubInRanks(rank, size);
    SubInRanks(2 * rank + 1, size);
    SubInRanks(2 * rank + 2, size);
    if rank == 0 {
      SubRoot(size);
    }
    assert src == -1 || src == 2 * rank + 1 || src == 2 * rank + 2 || (rank > 0 && src == Parent(rank));
  }

  lemma SubInRanks(a: nat, size: nat)
    ensures Sub(a, size) <= Ranks(size)
  {
  }

  lemma SendParts(rank: nat, src: int, size: nat)
    requires ValidMsg(Msg(rank, src), size)
    ensures var u, l, r := UpPart(rank, src, size), ChildPart(2 * rank + 1, src, size), ChildPart(2 * rank + 2, src, size);
      CoverAll(Sends(rank, src, size), size) == multiset(u) + multiset(l) + multiset(r)
  {
    hide CoverAll, Sub, Below;
    var c1, c2 := 2 * rank + 1, 2 * rank + 2;
    var up := if (src == -1 || src > rank) && rank > 0 then [Msg(Parent(rank), rank)] else [];
    var left := if c1 != src && c1 < size then [Msg(c1, rank)] else [];
    var right := if c2 != src && c2 < size then [Msg(c2, rank)] else [];
    CoverConcat(up + left, right, size);
    CoverConcat(up, left, size);
    CoverNone(size);
    CoverOne(Msg(Parent(rank), rank), size);
    CoverOne(Msg(c1, rank), size);
    CoverOne(Msg(c2, rank), size);
    if c1 >= size {
      SubOutside(c1, size);
    }
    if c2 >= size {
      SubOutside(c2, size);
    }
  }

  lemma CoverNone(size: nat)
    ensures CoverAll([], size) == multiset{}
  {
  }

  /** What a message will reach is its receiver and what the messages it is passed on as will reach, nobody twice. */
  lemma CoverSplits(m: Msg, size: nat)
    requires ValidMsg(m, size)
    ensures multiset(Cover(m, size)) == multiset{m.to} + CoverAll(Sends(m.to, m.src, size), size)
  {
    hide Cover, CoverAll, UpPart, ChildPart, Sends;
    CoverParts(m.to, m.src, size);
    SendParts(m.to, m.src, size);
    assert m == Msg(m.to, m.src);
    var u, l, r := UpPart(m.to, m.src, size), ChildPart(2 * m.to + 1, m.src, size), ChildPart(2 * m.to + 2, m.src, size);
    assert multiset({m.to} + u + l + r) == multiset{m.to} + multiset(u) + multiset(l) + multiset(r);
  }

  lemma SendsValid(m: Msg, size: nat)
    requires ValidMsg(m, size)
    ensures forall i :: 0 <= i < |Sends(m.to, m.src, size)| ==> ValidMsg(Sends(m.to, m.src, size)[i], size)
  {
    assert Parent(2 * m.to + 1) == m.to && Parent(2 * m.to + 2) == m.to;
  }
}
