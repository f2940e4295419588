/** Tables of index intervals: sorting, merging neighbours and what a table covers. */
module Intervals {
  datatype Intv = Intv(lb: nat, ub: nat)

  function SpanSize(l: nat, u: nat): nat {
    if l <= u then u - l + 1 else 0
  }

  /** The numbers from l to u. */
  function Span(l: nat, u: nat): (s: set<nat>)
    ensures forall x :: x in s <==> l <= x <= u
    ensures |s| == SpanSize(l, u)
    decreases u
  {
    if l > u then {}
    else if l == u then {u}
    else Span(l, u - 1) + {u}
  }

  function IntvSize(i: Intv): nat {
    SpanSize(i.lb, i.ub)
  }

  predicate Within(i: Intv, x: nat) {
    i.lb <= x <= i.ub
  }

  ghost predicate Proper(tab: seq<Intv>) {
    forall i :: 0 <= i < |tab| ==> tab[i].lb <= tab[i].ub
  }

  /** Sorted and disjoint. */
  ghost predicate Increasing(tab: seq<Intv>) {
    Proper(tab) && forall i, j :: 0 <= i < j < |tab| ==> tab[i].ub < tab[j].lb
  }

  /** No interval begins right after its predecessor ends. */
  ghost predicate NonAdjacent(tab: seq<Intv>) {
    forall i {:trigger tab[i]} :: 0 < i < |tab| ==> tab[i - 1].ub + 1 < tab[i].lb
  }

  ghost predicate Covers(tab: seq<Intv>, x: nat) {
    exists i :: 0 <= i < |tab| && Within(tab[i], x)
  }

  /** How many intervals hold x. */
  function CountOf(tab: seq<Intv>, x: nat): nat {
    if tab == [] then 0 else (if Within(tab[0], x) then 1 else 0) + CountOf(tab[1..], x)
  }

  function TotalSize(tab: seq<Intv>): nat {
    if tab == [] then 0 else IntvSize(tab[0]) + TotalSize(tab[1..])
  }

  lemma {:induction false} CoversIsCount(tab: seq<Intv>, x: nat)
    ensures Covers(tab, x) <==> CountOf(tab, x) > 0
  {
    if tab != [] {
      CoversIsCount(tab[1..], x);
      if Within(tab[0], x) {
        assert Covers(tab, x);
      } else if Covers(tab, x) {
        var i :| 0 <= i < |tab| && Within(tab[i], x);
        assert tab[1..][i - 1] == tab[i];
      }
    }
  }

  // ----- sorting by lower bound

  ghost predicate SortedByLb(tab: seq<Intv>) {
    forall i, j :: 0 <= i < j < |tab| ==> tab[i].lb <= tab[j].lb
  }

  function Insert(i: Intv, tab: seq<Intv>): (r: seq<Intv>)
    ensures multiset(r) == multiset(tab) + multiset{i}
  {
    if tab == [] || i.lb < tab[0].lb then [i] + tab
    else
      assert tab == [tab[0]] + tab[1..];
      [tab[0]] + Insert(i, tab[1..])
  }

  /** The table in the order of the comparison intv_compar. */
  function SortByLb(tab: seq<Intv>): (r: seq<Intv>)
    ensures multiset(r) == multiset(tab)
  {
    if tab == [] then []
    else
      assert tab == [tab[0]] + tab[1..];
      Insert(tab[0], SortByLb(tab[1..]))
  }

  lemma {:induction false} InsertSorts(i: Intv, tab: seq<Intv>)
    requires SortedByLb(tab)
    ensures SortedByLb(Insert(i, tab))
  {
    if tab != [] && i.lb >= tab[0].lb {
      var rest := Insert(i, tab[1..]);
      InsertSorts(i, tab[1..]);
      InsertBound(i, tab[1..], tab[0].lb);
      SortedCons(tab[0], rest);
    }
  }

  lemma {:induction false} InsertBound(i: Intv, tab: seq<Intv>, l: nat)
    requires l <= i.lb && forall j :: 0 <= j < |tab| ==> l <= tab[j].lb
    ensures forall j :: 0 <= j < |Insert(i, tab)| ==> l <= Insert(i, tab)[j].lb
  {
    if tab != [] && i.lb >= tab[0].lb {
      InsertBound(i, tab[1..], l);
    }
  }

  lemma SortedCons(i: Intv, tab: seq<Intv>)
    requires SortedByLb(tab) && forall j :: 0 <= j < |tab| ==> i.lb <= tab[j].lb
    ensures SortedByLb([i] + tab)
  {
  }

  lemma {:induction false} InsertCount(i: Intv, tab: seq<Intv>, x: nat)
    ensures CountOf(Insert(i, tab), x) == CountOf(tab, x) + if Within(i, x) then 1 else 0
  {
    if tab == [] || i.lb < tab[0].lb {
      assert ([i] + tab)[1..] == tab;
    } else {
      InsertCount(i, tab[1..], x);
    }
  }

  lemma {:induction false} SortSorts(tab: seq<Intv>)
    ensures SortedByLb(SortByLb(tab)) && |SortByLb(tab)| == |tab|
    ensures forall x :: CountOf(SortByLb(tab), x) == CountOf(tab, x)
  {
    var r := SortByLb(tab);
    assert |r| == |multiset(r)| == |multiset(tab)| == |tab|;
    if tab != [] {
      SortSorts(tab[1..]);
      InsertSorts(tab[0], SortByLb(tab[1..]));
      forall x: nat
        ensures CountOf(r, x) == CountOf(tab, x)
      {
        InsertCount(tab[0], SortByLb(tab[1..]), x);
      }
    }
  }

  lemma SmallestFirst(a: seq<Intv>, b: seq<Intv>)
    requires multiset(a) == multiset(b) && a != [] && b != [] && SortedByLb(a) && SortedByLb(b)
    ensures a[0].lb <= b[0].lb
  {
    assert b[0] in multiset(a);
    var j :| 0 <= j < |a| && a[j] == b[0];
  }

  lemma TailMultiset(a: seq<Intv>)
    requires a != []
    ensures multiset(a[1..]) == multiset(a) - multiset{a[0]}
  {
    assert a == [a[0]] + a[1..];
  }

  /** When lower bounds differ there is only one sorted arrangement, whatever the sorting algorithm. */
  lemma {:induction false} SortUnique(a: seq<Intv>, b: seq<Intv>)
    requires multiset(a) == multiset(b) && SortedByLb(a) && SortedByLb(b)
    requires forall i, j :: 0 <= i < j < |a| ==> a[i].lb != a[j].lb
    ensures a == b
  {
    assert |a| == |multiset(a)| == |multiset(b)| == |b|;
    if a != [] {
      SmallestFirst(a, b);
      SmallestFirst(b, a);
      assert b[0] in multiset(a);
      TailMultiset(a);
      TailMultiset(b);
      SortUnique(a[1..], b[1..]);
    }
  }

  /** The library sort on the first n entries. */
  method QSort(a: array<Intv>, n: nat)
    requires n <= a.Length
    modifies a
    ensures a[..n] == SortByLb(old(a[..n])) && a[n..] == old(a[n..])
  {
    hide SortByLb;
    var s := SortByLb(a[..n]);
    SortSorts(a[..n]);
    forall i | 0 <= i < n {
      a[i] := s[i];
    }
  }

  lemma {:induction false} CountAtLeast(tab: seq<Intv>, x: nat, i: nat, j: nat)
    requires i < j < |tab| && Within(tab[i], x) && Within(tab[j], x)
    ensures CountOf(tab, x) >= 2
  {
    if i == 0 {
      assert Within(tab[1..][j - 1], x);
      CoversIsCount(tab[1..], x);
    } else {
      CountAtLeast(tab[1..], x, i - 1, j - 1);
    }
  }

  /** A sorted table of proper intervals that holds no index twice is increasing. */
  lemma SortedDisjoint(tab: seq<Intv>)
    requires Proper(tab) && SortedByLb(tab) && forall x :: CountOf(tab, x) <= 1
    ensures Increasing(tab)
  {
    forall i, j | 0 <= i < j < |tab|
      ensures tab[i].ub < tab[j].lb
    {
      if tab[i].ub >= tab[j].lb {
        CountAtLeast(tab, tab[j].lb, i, j);
      }
    }
  }

  // ----- merging neighbours

  function CompactFrom(cur: Intv, rest: seq<Intv>): (r: seq<Intv>)
    ensures r != []
    decreases |rest|
  {
    if rest == [] then [cur]
    else if cur.ub + 1 == rest[0].lb then CompactFrom(Intv(cur.lb, rest[0].ub), rest[1..])
    else [cur] + CompactFrom(rest[0], rest[1..])
  }

  function Compact(tab: seq<Intv>): seq<Intv> {
    if tab == [] then [] else CompactFrom(tab[0], tab[1..])
  }

  /** The table while it is merged: entries before i are done, the one at i takes in what is left of was from j on. */
  ghost predicate CompactsTo(tab: seq<Intv>, i: nat, j: nat, was: seq<Intv>) {
    i < j <= |was| <= |tab| && tab[j..] == was[j..] + tab[|was|..] && tab[..i] + CompactFrom(tab[i], was[j..]) == Compact(was)
  }

  lemma CompactStart(tab: seq<Intv>, was: seq<Intv>)
    requires was != [] && was <= tab
    ensures CompactsTo(tab, 0, 1, was)
  {
  }

  lemma CompactTurn(tab: seq<Intv>, i: nat, j: nat, was: seq<Intv>)
    requires CompactsTo(tab, i, j, was) && j < |was|
    ensures tab[i].ub + 1 == tab[j].lb ==> CompactsTo(tab[i := tab[i].(ub := tab[j].ub)], i, j + 1, was)
    ensures tab[i].ub + 1 != tab[j].lb ==> CompactsTo(tab[i + 1 := tab[j]], i + 1, j + 1, was)
  {
    assert was[j..] == [was[j]] + was[j + 1..];
    assert tab[j] == was[j];
    if tab[i].ub + 1 != tab[j].lb {
      var now := tab[i + 1 := tab[j]];
      assert now[..i + 1] == tab[..i] + [tab[i]];
      assert now[j + 1..] == tab[j..][1..];
    } else {
      assert tab[j + 1..] == tab[j..][1..];
    }
  }

  lemma CompactEnd(tab: seq<Intv>, i: nat, was: seq<Intv>)
    requires CompactsTo(tab, i, |was|, was)
    ensures tab[..i + 1] == Compact(was)
  {
    assert was[|was|..] == [];
    assert tab[..i + 1] == tab[..i] + [tab[i]];
  }

  /** The in-place merge. For an empty table it still answers 1. */
  method IntvCompact(i_tab: array<Intv>, num_itv: nat) returns (r: nat)
    requires num_itv <= i_tab.Length
    modifies i_tab
    ensures num_itv == 0 ==> r == 1 && i_tab[..] == old(i_tab[..])
    ensures num_itv > 0 ==> 1 <= r <= num_itv && i_tab[..r] == Compact(old(i_tab[..num_itv]))
    ensures i_tab[num_itv..] == old(i_tab[num_itv..])
  {
    hide CompactFrom, Compact, CompactsTo;
    ghost var tab, was := i_tab[..], i_tab[..num_itv];
    var i, j := 0, 1;
    if num_itv > 0 {
      CompactStart(tab, was);
    }
    while j < num_itv
      invariant num_itv > 0 ==> 0 <= i < j <= num_itv && CompactsTo(tab, i, j, was)
      invariant num_itv == 0 ==> i == 0 && tab == old(i_tab[..])
      invariant i_tab[..] == tab && tab[num_itv..] == old(i_tab[num_itv..])
    {
      CompactTurn(tab, i, j, was);
      if i_tab[i].ub + 1 == i_tab[j].lb {
        tab := tab[i := tab[i].(ub := tab[j].ub)];
        i_tab[i] := i_tab[i].(ub := i_tab[j].ub);
      } else {
        tab := tab[i + 1 := tab[j]];
        i := i + 1;
        i_tab[i] := i_tab[j];
      }
      j := j + 1;
    }
    if num_itv > 0 {
      CompactEnd(tab, i, was);
    }
    r := i + 1;
  }

  lemma IncreasingTail(cur: Intv, rest: seq<Intv>)
    requires Increasing([cur] + rest) && rest != []
    ensures Increasing(rest) && cur.lb <= cur.ub < rest[0].lb <= rest[0].ub
    ensures Increasing([Intv(cur.lb, rest[0].ub)] + rest[1..])
  {
    hide Increasing;
    TailIncreasing(cur, rest);
    assert rest == [rest[0]] + rest[1..];
    TailIncreasing(rest[0], rest[1..]);
    ConsIncreasing(Intv(cur.lb, rest[0].ub), rest[1..]);
  }

  lemma TailIncreasing(cur: Intv, rest: seq<Intv>)
    requires Increasing([cur] + rest)
    ensures Increasing(rest) && cur.lb <= cur.ub && (rest != [] ==> cur.ub < rest[0].lb <= rest[0].ub)
  {
    var tab := [cur] + rest;
    assert tab[0] == cur;
    assert forall i :: 0 <= i < |rest| ==> rest[i] == tab[i + 1];
  }

  lemma ConsIncreasing(cur: Intv, r: seq<Intv>)
    requires cur.lb <= cur.ub && Increasing(r) && (r != [] ==> cur.ub < r[0].lb)
    ensures Increasing([cur] + r)
  {
    var t := [cur] + r;
    assert t[0] == cur && forall i :: 0 < i < |t| ==> t[i] == r[i - 1];
    forall j | 0 < j < |t|
      ensures cur.ub < t[j].lb
    {
      if j > 1 {
        assert r[0].ub < r[j - 1].lb;
      }
    }
  }

  lemma ConsNonAdjacent(cur: Intv, r: seq<Intv>)
    requires NonAdjacent(r) && (r != [] ==> cur.ub + 1 < r[0].lb)
    ensures NonAdjacent([cur] + r)
  {
    var t := [cur] + r;
    assert t[0] == cur && forall i :: 0 < i < |t| ==> t[i] == r[i - 1];
    forall i | 0 < i < |t|
      ensures t[i - 1].ub + 1 < t[i].lb
    {
      if i > 1 {
        assert r[i - 2].ub + 1 < r[i - 1].lb;
      }
    }
  }

  lemma OneInterval(cur: Intv)
    ensures NonAdjacent([cur]) && TotalSize([cur]) == IntvSize(cur) && TotalSize([]) == 0
  {
    assert [cur][1..] == [];
  }

  lemma {:induction false} CompactFromKeeps(cur: Intv, rest: seq<Intv>)
    requires Increasing([cur] + rest)
    ensures var r := CompactFrom(cur, rest);
      && Increasing(r) && NonAdjacent(r) && r[0].lb == cur.lb
      && TotalSize(r) == IntvSize(cur) + TotalSize(rest)
    decreases |rest|
  {
    hide Increasing, NonAdjacent;
    if rest == [] {
      OneInterval(cur);
      assert [cur] + rest == [cur];
    } else {
      var next, tail := rest[0], rest[1..];
      IncreasingTail(cur, rest);
      assert rest == [next] + tail;
      if cur.ub + 1 == next.lb {
        CompactFromKeeps(Intv(cur.lb, next.ub), tail);
      } else {
        CompactFromKeeps(next, tail);
        ConsKeeps(cur, CompactFrom(next, tail));
      }
    }
  }

  lemma {:induction false} CompactFromCount(cur: Intv, rest: seq<Intv>, x: nat)
    requires Increasing([cur] + rest)
    ensures CountOf(CompactFrom(cur, rest), x) == (if Within(cur, x) then 1 else 0) + CountOf(rest, x)
    decreases |rest|
  {
    if rest == [] {
      assert [cur][1..] == [];
    } else {
      var next, tail := rest[0], rest[1..];
      IncreasingTail(cur, rest);
      assert rest == [next] + tail;
      if cur.ub + 1 == next.lb {
        CompactFromCount(Intv(cur.lb, next.ub), tail, x);
      } else {
        CompactFromCount(next, tail, x);
        assert ([cur] + CompactFrom(next, tail))[1..] == CompactFrom(next, tail);
      }
    }
  }

  lemma ConsKeeps(cur: Intv, r: seq<Intv>)
    requires cur.lb <= cur.ub && r != [] && Increasing(r) && NonAdjacent(r) && cur.ub + 1 < r[0].lb
    ensures Increasing([cur] + r) && NonAdjacent([cur] + r) && TotalSize([cur] + r) == IntvSize(cur) + TotalSize(r)
  {
    hide Increasing, NonAdjacent;
    assert ([cur] + r)[1..] == r;
    ConsIncreasing(cur, r);
    ConsNonAdjacent(cur, r);
  }

  /** Merging keeps what is covered and its size, and leaves no adjacent intervals. */
  lemma CompactKeeps(tab: seq<Intv>)
    requires Increasing(tab)
    ensures Increasing(Compact(tab)) && NonAdjacent(Compact(tab)) && TotalSize(Compact(tab)) == TotalSize(tab)
    ensures forall x :: CountOf(Compact(tab), x) == CountOf(tab, x)
  {
    if tab != [] {
      assert tab == [tab[0]] + tab[1..];
      CompactFromKeeps(tab[0], tab[1..]);
      forall x: nat
        ensures CountOf(Compact(tab), x) == CountOf(tab, x)
      {
        CompactFromCount(tab[0], tab[1..], x);
      }
    }
  }

  // ----- what a table covers

  /** The indices a table covers. */
  function Elements(tab: seq<Intv>): set<nat> {
    if tab == [] then {} else Span(tab[0].lb, tab[0].ub) + Elements(tab[1..])
  }

  lemma {:induction false} ElementsAt(tab: seq<Intv>, x: nat)
    ensures x in Elements(tab) <==> CountOf(tab, x) > 0
  {
    if tab != [] {
      ElementsAt(tab[1..], x);
    }
  }

  /** In an increasing table the sizes add up to the number of indices. */
  lemma {:induction false} ElementsSize(tab: seq<Intv>)
    requires Increasing(tab)
    ensures |Elements(tab)| == TotalSize(tab)
  {
    if tab != [] {
      var head, rest := Span(tab[0].lb, tab[0].ub), tab[1..];
      assert Increasing(rest) by {
        assert forall i :: 0 <= i < |rest| ==> rest[i] == tab[i + 1];
      }
      ElementsSize(rest);
      forall x | x in Elements(rest)
        ensures x !in head
      {
        ElementsAt(rest, x);
        CoversIsCount(rest, x);
        var i :| 0 <= i < |rest| && Within(rest[i], x);
        assert rest[i] == tab[i + 1];
      }
      assert head !! Elements(rest);
    }
  }
}
