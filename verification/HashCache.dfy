/** The list that remembers which servers a box was hashed to. */
module HashCache {
  import opened Boxes

  datatype CacheEntry = CacheEntry(bb: Box, nodes: seq<nat>)

  /** The position of the first entry for bb, or the number of entries if there is none. */
  function FirstFor(entries: seq<CacheEntry>, bb: Box): (i: nat)
    ensures i <= |entries|
    ensures i < |entries| ==> entries[i].bb == bb
    ensures forall j :: 0 <= j < i ==> entries[j].bb != bb
  {
    if entries == [] || entries[0].bb == bb then 0 else 1 + FirstFor(entries[1..], bb)
  }

  ghost predicate Remembers(entries: seq<CacheEntry>, bb: Box) {
    exists i :: 0 <= i < |entries| && entries[i].bb == bb
  }

  class ShCache {
    var entries: seq<CacheEntry>

    ghost predicate Valid()
      reads this
    {
      forall i :: 0 <= i < |entries| ==> IsBox(entries[i].bb, |entries[i].bb.lb|)
    }

    constructor ()
      ensures Valid() && entries == []
    {
      entries := [];
    }

    method ShAdd(bb: Box, de_tab: seq<nat>)
      requires Valid() && IsBox(bb, |bb.lb|)
      modifies this
      ensures Valid() && entries == old(entries) + [CacheEntry(bb, de_tab)]
    {
      entries := entries + [CacheEntry(bb, de_tab)];
    }

    /** The remembered servers of bb and their number, -1 when bb was never added. */
    method ShFind(bb: Box) returns (num_nodes: int, de_tab: seq<nat>)
      requires Valid() && IsBox(bb, |bb.lb|)
      ensures var i := FirstFor(entries, bb);
        if i == |entries| then num_nodes == -1 else de_tab == entries[i].nodes && num_nodes == |de_tab|
    {
      for i := 0 to |entries|
        invariant forall j :: 0 <= j < i ==> entries[j].bb != bb
      {
        var same := BBoxEquals(bb, entries[i].bb);
        if same {
          return |entries[i].nodes|, entries[i].nodes;
        }
      }
      return -1, [];
    }
  }
}
