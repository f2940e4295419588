/** Dealing the bisected domain out to the servers, and the counts and lookups that rest on it. */
module BisectionHash {
  import opened Arithmetic
  import opened Boxes
  import opened LinkedQueue
  import opened HashCache
  import opened Bisection

  class BoxEntry {
    var rank: nat
    var num_bbox: nat
    var bb_tab: array<Box>

    constructor (rank: nat, size_bb_tab: nat)
      ensures this.rank == rank && num_bbox == 0 && bb_tab.Length == size_bb_tab && fresh(bb_tab)
    {
      this.rank := rank;
      num_bbox := 0;
      bb_tab := new Box[size_bb_tab](_ => Box([], []));
    }

    ghost predicate Holds(bs: seq<Box>)
      reads this, bb_tab
    {
      num_bbox <= bb_tab.Length && bb_tab[..num_bbox] == bs
    }

    method Take(bb: Box)
      requires num_bbox < bb_tab.Length
      modifies this, bb_tab
      ensures bb_tab == old(bb_tab) && rank == old(rank)
      ensures Holds(old(bb_tab[..num_bbox]) + [bb])
    {
      var k := num_bbox;
      num_bbox := num_bbox + 1;
      bb_tab[k] := bb;
    }
  }

  /** Entries and their tables do not overlap in memory, and every entry knows its rank. */
  ghost predicate Apart(ent_tab: seq<BoxEntry>)
    reads ent_tab
  {
    && (forall i, j :: 0 <= i < j < |ent_tab| ==> ent_tab[i] != ent_tab[j] && ent_tab[i].bb_tab != ent_tab[j].bb_tab)
    && (forall i :: 0 <= i < |ent_tab| ==> ent_tab[i].rank == i)
  }

  method EntriesAlloc(num_nodes: nat, size_bb_tab: nat) returns (ent_tab: seq<BoxEntry>)
    ensures |ent_tab| == num_nodes && fresh(ent_tab) && Apart(ent_tab)
    ensures forall i :: 0 <= i < num_nodes ==>
      fresh(ent_tab[i].bb_tab) && ent_tab[i].bb_tab.Length == size_bb_tab && ent_tab[i].Holds([])
  {
    ent_tab := [];
    for k := 0 to num_nodes
      invariant |ent_tab| == k && fresh(ent_tab) && Apart(ent_tab)
      invariant forall i :: 0 <= i < k ==>
        fresh(ent_tab[i].bb_tab) && ent_tab[i].bb_tab.Length == size_bb_tab && ent_tab[i].Holds([])
    {
      var de := new BoxEntry(k, size_bb_tab);
      ent_tab := ent_tab + [de];
    }
  }

  function CeilDiv(a: nat, b: nat): nat
    requires b > 0
  {
    (a + b - 1) / b
  }

  /** The first i boxes of bs are dealt out; every table has room for n boxes. */
  ghost predicate Dealing(ent_tab: seq<BoxEntry>, bs: seq<Box>, i: nat, n: nat)
    requires i <= |bs| && ent_tab != []
    reads ent_tab, set k | 0 <= k < |ent_tab| :: ent_tab[k].bb_tab
  {
    && Apart(ent_tab)
    && forall j :: 0 <= j < |ent_tab| ==> ent_tab[j].bb_tab.Length == n && ent_tab[j].Holds(Dealt(bs[..i], |ent_tab|, j))
  }

  /** One turn: box i goes to entry i modulo their number, whose table has room for it. */
  method DealTurn(ent_tab: seq<BoxEntry>, i: nat, bb: Box, ghost bs: seq<Box>, ghost n: nat)
    requires i < |bs| && ent_tab != [] && bb == bs[i] && n == CeilDiv(|bs|, |ent_tab|)
    requires Dealing(ent_tab, bs, i, n)
    modifies ent_tab[Turn(i, |ent_tab|)], ent_tab[Turn(i, |ent_tab|)].bb_tab
    ensures ent_tab[Turn(i, |ent_tab|)].bb_tab == old(ent_tab[Turn(i, |ent_tab|)].bb_tab)
    ensures Dealing(ent_tab, bs, i + 1, n)
  {
    hide Dealt;
    var num_entries := |ent_tab|;
    var j := Turn(i, num_entries);
    DealtRoom(bs, num_entries, i);
    DealtStep(bs, num_entries, i);
    ent_tab[j].Take(bb);
  }

  /** The number of boxes in all tables. */
  ghost function BoxCount(ent_tab: seq<BoxEntry>): nat
    reads ent_tab
  {
    if ent_tab == [] then 0 else BoxCount(ent_tab[..|ent_tab| - 1]) + ent_tab[|ent_tab| - 1].num_bbox
  }

  /** Of e entries entry j has the boxes j, j + e, j + 2e and so on, all boxes together. */
  ghost predicate DealtInTurn(ent_tab: seq<BoxEntry>, bs: seq<Box>)
    reads ent_tab, set k | 0 <= k < |ent_tab| :: ent_tab[k].bb_tab
  {
    var e := |ent_tab|;
    && e > 0 && BoxCount(ent_tab) == |bs|
    && (forall j :: 0 <= j < e ==> ent_tab[j].num_bbox <= ent_tab[j].bb_tab.Length)
    && forall j, k :: 0 <= j < e && 0 <= k < ent_tab[j].num_bbox ==>
      Times(k, e) + j < |bs| && ent_tab[j].bb_tab[k] == bs[Times(k, e) + j]
  }

  lemma {:induction false} CountDealt(ent_tab: seq<BoxEntry>, bs: seq<Box>, e: nat)
    requires |ent_tab| <= e && forall j :: 0 <= j < |ent_tab| ==> ent_tab[j].Holds(Dealt(bs, e, j))
    ensures e > 0 ==> BoxCount(ent_tab) == DealtSum(bs, e, |ent_tab|)
  {
    hide Dealt;
    if ent_tab != [] {
      CountDealt(ent_tab[..|ent_tab| - 1], bs, e);
    }
  }

  lemma {:induction false} HeldInTurn(ent_tab: seq<BoxEntry>, bs: seq<Box>)
    requires ent_tab != [] && forall j :: 0 <= j < |ent_tab| ==> ent_tab[j].Holds(Dealt(bs, |ent_tab|, j))
    ensures DealtInTurn(ent_tab, bs)
  {
    hide Dealt, BoxCount;
    var e := |ent_tab|;
    CountDealt(ent_tab, bs, e);
    DealtSumAll(bs, e);
    forall j, k | 0 <= j < e && 0 <= k < ent_tab[j].num_bbox
      ensures Times(k, e) + j < |bs| && ent_tab[j].bb_tab[k] == bs[Times(k, e) + j]
    {
      HeldAt(ent_tab[j], Dealt(bs, e, j), k);
      DealtAt(bs, e, j, k);
    }
  }

  lemma HeldAt(de: BoxEntry, bs: seq<Box>, k: nat)
    requires de.Holds(bs) && k < de.num_bbox
    ensures de.num_bbox == |bs| && de.bb_tab[k] == bs[k]
  {
    assert de.bb_tab[..de.num_bbox][k] == bs[k];
  }

  /** The round-robin deal: entry j gets boxes j, j + e, j + 2e and so on, and its table never overflows. */
  method DealOut(q: Queue<Box>, num_nodes: nat) returns (ent_tab: seq<BoxEntry>)
    requires q.Valid() && num_nodes > 0
    modifies q.Repr
    ensures |ent_tab| == num_nodes && Apart(ent_tab)
    ensures forall j :: 0 <= j < num_nodes ==> ent_tab[j].Holds(Dealt(old(q.contents), num_nodes, j))
    ensures DealtInTurn(ent_tab, old(q.contents))
  {
    hide Queue.Valid, Dealt, Apart, CeilDiv, Turn, Dealing, BoxEntry.Holds, DealtInTurn;
    ghost var bs := q.contents;
    QueueSize(q);
    var n := CeilDiv(q.num_elem, num_nodes);
    ent_tab := EntriesAlloc(num_nodes, n);
    var i := 0;
    NothingDealt(ent_tab, bs, n);
    assert bs[0..] == bs;
    while !q.IsEmpty()
      invariant q.Valid() && q.Repr == old(q.Repr) && i <= |bs| && q.contents == bs[i..]
      invariant fresh(ent_tab) && forall j :: 0 <= j < num_nodes ==> fresh(ent_tab[j].bb_tab)
      invariant Dealing(ent_tab, bs, i, n)
      decreases |q.contents|
    {
      var item := q.Dequeue();
      assert item.value == bs[i] && bs[i..][1..] == bs[i + 1..];
      assert Dealing(ent_tab, bs, i, n);
      DealTurn(ent_tab, i, item.value, bs, n);
      i := i + 1;
    }
    AllDealt(ent_tab, bs, n);
    HeldInTurn(ent_tab, bs);
  }

  lemma NothingDealt(ent_tab: seq<BoxEntry>, bs: seq<Box>, n: nat)
    requires Apart(ent_tab) && ent_tab != []
    requires forall j :: 0 <= j < |ent_tab| ==> ent_tab[j].bb_tab.Length == n && ent_tab[j].Holds([])
    ensures Dealing(ent_tab, bs, 0, n)
  {
    DealtStart(|ent_tab|);
    assert bs[..0] == [];
  }

  lemma AllDealt(ent_tab: seq<BoxEntry>, bs: seq<Box>, n: nat)
    requires ent_tab != [] && Dealing(ent_tab, bs, |bs|, n)
    ensures Apart(ent_tab)
    ensures forall j :: 0 <= j < |ent_tab| ==> ent_tab[j].Holds(Dealt(bs, |ent_tab|, j))
  {
    assert bs[..|bs|] == bs;
  }

  lemma QueueSize(q: Queue<Box>)
    requires q.Valid()
    ensures q.num_elem == |q.contents|
  {
  }

  lemma DealtStart(e: nat)
    requires e > 0
    ensures forall j :: Dealt([], e, j) == []
  {
  }

  lemma DealtStep(bs: seq<Box>, e: nat, i: nat)
    requires e > 0 && i < |bs|
    ensures forall j :: Dealt(bs[..i + 1], e, j) == Dealt(bs[..i], e, j) + if j == Turn(i, e) then [bs[i]] else []
  {
    assert bs[..i + 1][..i] == bs[..i];
  }

  lemma DealtRoom(bs: seq<Box>, e: nat, i: nat)
    requires e > 0 && i < |bs|
    ensures |Dealt(bs[..i], e, Turn(i, e))| < (|bs| + e - 1) / e
  {
    hide Dealt;
    var j := Turn(i, e);
    DealtStep(bs, e, i);
    DealtFits(bs[..i + 1], e, j);
    QuotientGrows(i + 1 + e - 1, |bs| + e - 1, e);
  }

  lemma QuotientGrows(a: nat, b: nat, e: nat)
    requires e > 0 && a <= b
    ensures a / e <= b / e
  {
    TimesIsProduct(a / e, e);
    QuotientBound(a / e, b, e);
  }
}
