/** A table of intervals read as one list of indices, and that list cut into shares of nearly equal length. */
module IndexRuns {
  import opened Arithmetic
  import opened Intervals

  function Run(l: nat, u: nat): (r: seq<nat>)
    ensures |r| == SpanSize(l, u)
    ensures forall i {:trigger r[i]} :: 0 <= i < |r| ==> r[i] == l + i
  {
    seq(SpanSize(l, u), i => l + i)
  }

  /** The indices of a table in table order. */
  function Listing(tab: seq<Intv>): (r: seq<nat>)
    ensures |r| == TotalSize(tab)
  {
    if tab == [] then [] else Run(tab[0].lb, tab[0].ub) + Listing(tab[1..])
  }

  lemma {:induction false} ListingConcat(a: seq<Intv>, b: seq<Intv>)
    ensures Listing(a + b) == Listing(a) + Listing(b)
  {
    hide Run, TotalSize;
    if a == [] {
      assert a + b == b;
    } else {
      ListingConcat(a[1..], b);
      assert (a + b)[1..] == a[1..] + b;
      var r, x, y := Run(a[0].lb, a[0].ub), Listing(a[1..]), Listing(b);
      assert r + (x + y) == (r + x) + y;
    }
  }

  lemma ListingOne(i: Intv)
    ensures Listing([i]) == Run(i.lb, i.ub)
  {
    assert [i][1..] == [];
  }

  lemma EmptyListing()
    ensures Listing([]) == []
  {
  }

  lemma ListingSnoc(a: seq<Intv>, i: Intv)
    ensures Listing(a + [i]) == Listing(a) + Run(i.lb, i.ub)
  {
    ListingConcat(a, [i]);
    ListingOne(i);
  }

  lemma {:induction false} ListingEnds(tab: seq<Intv>)
    requires Proper(tab) && tab != []
    ensures |Listing(tab)| > 0 && Listing(tab)[0] == tab[0].lb && Listing(tab)[|Listing(tab)| - 1] == tab[|tab| - 1].ub
  {
    if |tab| > 1 {
      assert Proper(tab[1..]);
      ListingEnds(tab[1..]);
    } else {
      assert tab[1..] == [];
    }
  }

  /** The list holds exactly the indices the table covers. */
  lemma {:induction false} ListingAt(tab: seq<Intv>, x: nat)
    ensures x in Listing(tab) <==> Covers(tab, x)
  {
    CoversIsCount(tab, x);
    if tab != [] {
      ListingAt(tab[1..], x);
      CoversIsCount(tab[1..], x);
      if Within(tab[0], x) {
        assert Run(tab[0].lb, tab[0].ub)[x - tab[0].lb] == x;
      }
    }
  }

  ghost predicate StrictlyUp(s: seq<nat>) {
    forall i, j :: 0 <= i < j < |s| ==> s[i] < s[j]
  }

  lemma {:induction false} ListingUp(tab: seq<Intv>)
    requires Increasing(tab)
    ensures StrictlyUp(Listing(tab))
  {
    if tab != [] {
      var a, b := Run(tab[0].lb, tab[0].ub), Listing(tab[1..]);
      assert forall i :: 0 <= i < |tab| - 1 ==> tab[1..][i] == tab[i + 1];
      ListingUp(tab[1..]);
      forall j | 0 <= j < |b|
        ensures tab[0].ub < b[j]
      {
        AfterFirst(tab, b[j]);
      }
    }
  }

  lemma AfterFirst(tab: seq<Intv>, x: nat)
    requires Increasing(tab) && tab != [] && x in Listing(tab[1..])
    ensures tab[0].ub < x
  {
    ListingAt(tab[1..], x);
    var i :| 0 <= i < |tab| - 1 && Within(tab[1..][i], x);
    assert tab[0].ub < tab[i + 1].lb;
  }

  // ----- equal shares

  /** The number of indices entry k gets: the volume divided evenly, the remainder over the first entries. */
  function Share(vol: nat, entries: nat, k: nat): nat
    requires entries > 0
  {
    vol / entries + if k < vol % entries then 1 else 0
  }

  /** The number of indices all entries before k get. */
  function SharesBefore(vol: nat, entries: nat, k: nat): nat
    requires entries > 0
  {
    if k == 0 then 0 else SharesBefore(vol, entries, k - 1) + Share(vol, entries, k - 1)
  }

  lemma {:induction false} SharesBeforeIs(vol: nat, entries: nat, k: nat)
    requires entries > 0
    ensures SharesBefore(vol, entries, k) == Times(k, vol / entries) + if k < vol % entries then k else vol % entries
  {
    if k > 0 {
      SharesBeforeIs(vol, entries, k - 1);
    }
  }

  /** The shares add up to the volume. */
  lemma SharesAddUp(vol: nat, entries: nat)
    requires entries > 0
    ensures SharesBefore(vol, entries, entries) == vol
  {
    SharesBeforeIs(vol, entries, entries);
    TimesIsProduct(entries, vol / entries);
  }

  lemma {:induction false} SharesGrow(vol: nat, entries: nat, j: nat, k: nat)
    requires entries > 0 && j <= k
    ensures SharesBefore(vol, entries, j) <= SharesBefore(vol, entries, k)
  {
    if j < k {
      SharesGrow(vol, entries, j, k - 1);
    }
  }

  /** With at least as many indices as entries, nobody goes empty. */
  lemma SharePositive(vol: nat, entries: nat, k: nat)
    requires 0 < entries <= vol
    ensures Share(vol, entries, k) > 0
  {
    TimesIsProduct(vol / entries, entries);
    HighLowOrder(vol / entries, vol % entries, 1, entries);
    assert Times(1, entries) == entries;
  }

  /** Shares differ by at most one. */
  lemma {:induction false} SharesNearlyEqual(vol: nat, entries: nat, j: nat, k: nat)
    requires entries > 0
    ensures Share(vol, entries, j) <= Share(vol, entries, k) + 1
    ensures j <= k ==> Share(vol, entries, k) <= Share(vol, entries, j)
  {
  }

  /** Every position falls into the share of some entry. */
  lemma {:induction false} ShareOf(vol: nat, entries: nat, to: nat, i: nat) returns (k: nat)
    requires entries > 0 && i < SharesBefore(vol, entries, to)
    ensures k < to && SharesBefore(vol, entries, k) <= i < SharesBefore(vol, entries, k + 1)
  {
    if SharesBefore(vol, entries, to - 1) <= i {
      k := to - 1;
    } else {
      k := ShareOf(vol, entries, to - 1, i);
    }
  }

  // ----- cutting a share off the front of a table

  /** Cutting an interval leaves the list unchanged. */
  lemma CutRun(l: nat, len: nat, u: nat)
    requires 0 < len <= u - l
    ensures Run(l, u) == Run(l, l + len - 1) + Run(l + len, u)
  {
  }

  /** One step: a piece of len indices leaves the front of the table, whole or cut. */
  lemma TakePiece(mine: seq<Intv>, front: Intv, rest: seq<Intv>, len: nat)
    requires front.lb <= front.ub && 0 < len < IntvSize(front)
    ensures Listing(mine + [Intv(front.lb, front.lb + len - 1)]) + Listing([Intv(front.lb + len, front.ub)] + rest)
      == Listing(mine) + Listing([front] + rest)
  {
    hide Listing, Run;
    var head, tail := Intv(front.lb, front.lb + len - 1), Intv(front.lb + len, front.ub);
    ListingSnoc(mine, head);
    ListingConcat([tail], rest);
    ListingConcat([front], rest);
    ListingOne(tail);
    ListingOne(front);
    CutRun(front.lb, len, front.ub);
    var a, b, c, d := Listing(mine), Run(head.lb, head.ub), Run(tail.lb, tail.ub), Listing(rest);
    assert (a + b) + (c + d) == a + ((b + c) + d);
  }

  lemma TakeWhole(mine: seq<Intv>, front: Intv, rest: seq<Intv>)
    ensures Listing(mine + [front]) + Listing(rest) == Listing(mine) + Listing([front] + rest)
  {
    hide Listing, Run;
    ListingSnoc(mine, front);
    ListingConcat([front], rest);
    ListingOne(front);
    var a, b, c := Listing(mine), Run(front.lb, front.ub), Listing(rest);
    assert (a + b) + c == a + (b + c);
  }

  lemma ProperNone()
    ensures Proper([])
  {
  }

  lemma ProperParts(front: Intv, rest: seq<Intv>)
    requires Proper([front] + rest)
    ensures front.lb <= front.ub && Proper(rest)
  {
    var tab := [front] + rest;
    assert tab[0] == front && forall i :: 0 <= i < |rest| ==> rest[i] == tab[i + 1];
  }

  lemma ProperCons(front: Intv, rest: seq<Intv>)
    requires front.lb <= front.ub && Proper(rest)
    ensures Proper([front] + rest)
  {
  }

  lemma ProperSnoc(mine: seq<Intv>, i: Intv)
    requires Proper(mine) && i.lb <= i.ub
    ensures Proper(mine + [i])
  {
  }

  lemma ListingStart(tab: seq<Intv>)
    requires TotalSize(tab) > 0
    ensures tab != []
  {
  }

  /**
   * The inner loop of dht_construct_hash: move len0 indices from entry j0 on into a table of the entry's
   * own, which has room for as many intervals as the whole table.
   */
  method CutShare(len0: nat, i_tab: array<Intv>, num: nat, j0: nat) returns (mine: seq<Intv>, j: nat)
    requires j0 <= num <= i_tab.Length && Proper(i_tab[j0..num]) && 0 < len0 <= TotalSize(i_tab[j0..num])
    modifies i_tab
    ensures j0 <= j <= num && Proper(i_tab[j..num]) && Proper(mine) && 0 < |mine| <= num
    ensures Listing(mine) == old(Listing(i_tab[j0..num]))[..len0]
    ensures Listing(i_tab[j..num]) == old(Listing(i_tab[j0..num]))[len0..]
  {
    hide Listing, TotalSize, Proper;
    ghost var all := Listing(i_tab[j0..num]);
    var de_tab := new Intv[num];
    var num_intv: nat, len: nat := 0, len0;
    j := j0;
    assert de_tab[..0] == [];
    EmptyListing();
    ProperNone();
    while len > 0
      invariant j0 <= j <= num && len <= len0
      invariant num_intv <= num && (len > 0 ==> num_intv == j - j0) && (len < len0 ==> num_intv > 0)
      invariant Proper(de_tab[..num_intv]) && Proper(i_tab[j..num])
      invariant Listing(de_tab[..num_intv]) + Listing(i_tab[j..num]) == all
      invariant |Listing(de_tab[..num_intv])| == len0 - len
      decreases len
    {
      ListingStart(i_tab[j..num]);
      ghost var own, left := de_tab[..num_intv], i_tab[j..num];
      ghost var front, rest := i_tab[j], i_tab[j + 1..num];
      assert left == [front] + rest && front == left[0];
      ProperParts(front, rest);
      assert IntvSize(front) == front.ub - front.lb + 1;
      var intv: Intv;
      if IntvSize(i_tab[j]) > len {
        TakePiece(own, front, rest, len);
        intv := Intv(i_tab[j].lb, i_tab[j].lb + len - 1);
        i_tab[j] := Intv(i_tab[j].lb + len, i_tab[j].ub);
        assert i_tab[j..num] == [Intv(front.lb + len, front.ub)] + rest;
        ProperCons(i_tab[j], rest);
      } else {
        TakeWhole(own, front, rest);
        intv := i_tab[j];
        j := j + 1;
      }
      ListingSnoc(own, intv);
      ProperSnoc(own, intv);
      assert IntvSize(intv) == intv.ub - intv.lb + 1;
      len := len - IntvSize(intv);
      de_tab[num_intv] := intv;
      num_intv := num_intv + 1;
      assert de_tab[..num_intv] == own + [intv];
    }
    mine := de_tab[..num_intv];
  }
}
