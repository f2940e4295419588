/** Points shared out over servers: what it means that every point has one owner, and counting by owner. */
module Ownership {
  import opened HilbertIndex

  /** No point has two owners. */
  ghost predicate Disjoint(owned: seq<set<Point>>) {
    forall i, j :: 0 <= i < j < |owned| ==> owned[i] !! owned[j]
  }

  /** Every point of the domain has exactly one owner, and nothing else is owned. */
  ghost predicate Partition(owned: seq<set<Point>>, domain: set<Point>) {
    && Disjoint(owned)
    && (forall k :: 0 <= k < |owned| ==> owned[k] <= domain)
    && (forall p :: p in domain ==> exists k :: 0 <= k < |owned| && p in owned[k])
  }

  /** How many points of ps each server owns, summed over the servers. */
  ghost function SumOwned(owned: seq<set<Point>>, ps: set<Point>): nat {
    if owned == [] then 0 else |owned[0] * ps| + SumOwned(owned[1..], ps)
  }

  ghost function Union(owned: seq<set<Point>>): (r: set<Point>)
    ensures forall p :: p in r <==> exists k :: 0 <= k < |owned| && p in owned[k]
  {
    if owned == [] then {} else
      var r := owned[0] + Union(owned[1..]);
      assert forall k :: 0 < k < |owned| ==> owned[k] == owned[1..][k - 1];
      assert forall k :: 0 <= k < |owned| - 1 ==> owned[1..][k] == owned[k + 1];
      r
  }

  lemma {:induction false} SumOfDisjoint(owned: seq<set<Point>>, ps: set<Point>)
    requires Disjoint(owned)
    ensures SumOwned(owned, ps) == |Union(owned) * ps|
  {
    if owned != [] {
      var rest := owned[1..];
      assert forall k :: 0 <= k < |rest| ==> rest[k] == owned[k + 1];
      SumOfDisjoint(rest, ps);
      assert owned[0] !! Union(rest);
      CommonSplit(owned[0], Union(rest), ps);
    }
  }

  lemma CommonSplit<T>(a: set<T>, b: set<T>, ps: set<T>)
    requires a !! b
    ensures |(a + b) * ps| == |a * ps| + |b * ps|
  {
    assert (a + b) * ps == a * ps + b * ps;
  }

  /** The servers' counts of a set of domain points add up to the number of points. */
  lemma CountsAddUp(owned: seq<set<Point>>, domain: set<Point>, ps: set<Point>)
    requires Partition(owned, domain) && ps <= domain
    ensures SumOwned(owned, ps) == |ps|
  {
    SumOfDisjoint(owned, ps);
    assert Union(owned) * ps == ps;
  }

  /** The servers that own some of the points ps, in rank order. */
  ghost function Holders(owned: seq<set<Point>>, ps: set<Point>): (r: seq<nat>)
    ensures forall k: nat :: k in r <==> k < |owned| && owned[k] * ps != {}
    ensures forall i, j :: 0 <= i < j < |r| ==> r[i] < r[j]
  {
    if owned == [] then [] else
      var last: nat := |owned| - 1;
      var before := Holders(owned[..last], ps);
      assert forall i :: 0 <= i < |before| ==> before[i] in before;
      if owned[last] * ps != {} then before + [last] else before
  }

  lemma HoldersStep(owned: seq<set<Point>>, ps: set<Point>, k: nat)
    requires k < |owned|
    ensures Holders(owned[..k + 1], ps) == Holders(owned[..k], ps) + if owned[k] * ps != {} then [k] else []
  {
    assert owned[..k + 1][..k] == owned[..k];
  }

  lemma EmptyHolders(ps: set<Point>)
    ensures Holders([], ps) == []
  {
  }
}
