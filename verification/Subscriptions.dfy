/** A server's descriptor bins and the lookups that wait until their elements have been put. */
module Subscriptions {
  import opened HilbertIndex
  import opened Boxes
  import opened LinkedQueue
  import opened ElementCount
  import opened Descriptors
  import opened ObjectIndex

  /** A waiting lookup: what it wants, how many elements are missing and the descriptors that came meanwhile. */
  class Waiter {
    const q: Desc
    var remaining: int
    var pub_count: nat
    var recv_odsc: seq<Desc>
    ghost const found: seq<Desc>    // the descriptors the lookup had collected before it began to wait

    constructor (q: Desc, remaining: int, ghost found: seq<Desc>)
      ensures this.q == q && this.remaining == remaining && pub_count == 0 && recv_odsc == [] && this.found == found
    {
      this.q, this.remaining, this.found := q, remaining, found;
      pub_count, recv_odsc := 0, [];
    }

    /** The books are right: what is missing and what was collected agree with the bin. */
    ghost predicate Correct(own: set<Point>, bin: seq<Desc>, domain: Box, n: nat)
      reads this
    {
      && Inside(q, domain, n) && AllInside(bin, domain, n)
      && remaining == |Uncovered(own, bin, q)|
      && pub_count == |recv_odsc|
      && forall d :: d in found + recv_odsc <==> d in bin && Answers(d, q, n)
    }

    /** The part of dht_add_entry that serves one waiting lookup. */
    method Publish(d: Desc, share: SelfShare, ghost own: set<Point>, ghost bin: seq<Desc>, ghost domain: Box, ghost n: nat)
      requires Owns(share, own, domain, n) && Inside(d, domain, n) && Correct(own, bin, domain, n)
      requires NewObject(bin, d, n) && Harmless(bin, d, q, n) && AllInside(Added(bin, d, n), domain, n)
      modifies this
      ensures Correct(own, Added(bin, d, n), domain, n)
      ensures recv_odsc == (if Answers(d, q, n) then [d] else []) + old(recv_odsc)
    {
      hide Owns, Points, Uncovered, Meets, Includes, Added, FirstOverlap;
      AddedUncovered(own, bin, d, q, domain, n);
      ghost var was := found + recv_odsc;
      var answers := EqualsIntersect(d, q, n);
      if answers {
        recv_odsc := [d] + recv_odsc;
        pub_count := pub_count + 1;
        var isect := BBoxIntersect(d.bb, q.bb, n);
        MeetsSymmetric(q.bb, d.bb, n);
        IntersectionInside(d.bb, q.bb, domain, n);
        var common := ElemCount(share, isect, own, domain, n);
        ApartCovered(bin, d, q, n);
        AnswerDrops(own, bin, d, q, n);
        IntersectionPoints(d.bb, q.bb, n);
        IntersectionPoints(q.bb, d.bb, n);
        assert Points(isect) == Points(Intersection(q.bb, d.bb));
        remaining := remaining - common;
        assert forall e :: e in found + recv_odsc <==> e == d || e in was;
      } else {
        OtherStays(own, bin, d, q, n);
        assert recv_odsc == [] + recv_odsc;
      }
      forall e
        ensures e in found + recv_odsc <==> e in Added(bin, d, n) && Answers(e, q, n)
      {
        AddedAnswers(bin, d, q, e, n);
      }
    }
  }

  lemma AddedAnswers(bin: seq<Desc>, d: Desc, q: Desc, e: Desc, n: nat)
    requires Harmless(bin, d, q, n)
    ensures (e in Added(bin, d, n) && Answers(e, q, n))
      <==> Answers(e, q, n) && (e == d || e in bin)
  {
    hide Meets, FirstOverlap, Added;
    AddedMember(bin, d, e, n);
    AddedMember(bin, d, d, n);
  }

  lemma BinBoxes(bin: seq<Desc>, domain: Box, n: nat)
    requires AllInside(bin, domain, n)
    ensures forall j :: 0 <= j < |bin| ==> IsBox(bin[j].bb, n)
  {
  }

  lemma AddedIs(bin: seq<Desc>, d: Desc, n: nat)
    ensures var i := FirstOverlap(bin, d, n); Added(bin, d, n) == if i < |bin| then bin[i := d] else [d] + bin
  {
  }

  /** A waiting lookup never misses a negative number of elements. */
  lemma NeverNegative(w: Waiter, own: set<Point>, bin: seq<Desc>, domain: Box, n: nat)
    requires w.Correct(own, bin, domain, n)
    ensures w.remaining >= 0 && (w.remaining == 0 <==> Uncovered(own, bin, w.q) == {})
  {
  }

  ghost predicate Distinct(ws: seq<Waiter>) {
    forall i, j :: 0 <= i < j < |ws| ==> ws[i] != ws[j]
  }

  /** The bin of a version. */
  function Bin(version: nat, size: nat): (b: nat)
    requires size > 0
    ensures b < size
  {
    version % size
  }

  /** The waiting lookups of bin b stand in its list once, with their books right and something missing. */
  ghost predicate ListOk(subs: seq<Waiter>, bin: seq<Desc>, b: nat, size: nat, own: set<Point>, domain: Box, n: nat)
    requires size > 0
    reads subs
  {
    && Distinct(subs)
    && forall i :: 0 <= i < |subs| ==>
      Bin(subs[i].q.version, size) == b && subs[i].remaining > 0 && subs[i].Correct(own, bin, domain, n)
  }

  lemma OneMoreWaits(w: Waiter, subs: seq<Waiter>, bin: seq<Desc>, b: nat, size: nat, own: set<Point>, domain: Box, n: nat)
    requires size > 0 && ListOk(subs, bin, b, size, own, domain, n) && w !in subs
    requires Bin(w.q.version, size) == b && w.remaining > 0 && w.Correct(own, bin, domain, n)
    ensures ListOk([w] + subs, bin, b, size, own, domain, n)
  {
    hide Bin, Waiter.Correct;
  }

  /** A lookup waits in one bin only. */
  lemma OneBin(subs: seq<Waiter>, bin: seq<Desc>, b: nat, subs': seq<Waiter>, bin': seq<Desc>, c: nat,
               size: nat, own: set<Point>, domain: Box, n: nat)
    requires size > 0 && b != c && ListOk(subs, bin, b, size, own, domain, n) && ListOk(subs', bin', c, size, own, domain, n)
    ensures forall i, j :: 0 <= i < |subs| && 0 <= j < |subs'| ==> subs[i] != subs'[j]
  {
  }

  ghost predicate OfBin(subs: seq<Waiter>, b: nat, size: nat)
    requires size > 0
  {
    forall i :: 0 <= i < |subs| ==> Bin(subs[i].q.version, size) == b
  }

  lemma ListCorrect(subs: seq<Waiter>, bin: seq<Desc>, b: nat, size: nat, own: set<Point>, domain: Box, n: nat)
    requires size > 0 && ListOk(subs, bin, b, size, own, domain, n)
    ensures Distinct(subs) && OfBin(subs, b, size)
    ensures forall i :: 0 <= i < |subs| ==> NotYetTold(subs[i], subs[i].recv_odsc, own, bin, domain, n)
  {
    hide Waiter.Correct;
  }

  lemma ListDistinct(subs: seq<Waiter>, bin: seq<Desc>, b: nat, size: nat, own: set<Point>, domain: Box, n: nat)
    requires size > 0 && ListOk(subs, bin, b, size, own, domain, n)
    ensures Distinct(subs)
  {
  }

  /** Those of subs that miss elements, in the order of subs. */
  ghost predicate StillWaiting(waiting: seq<Waiter>, subs: seq<Waiter>)
    reads subs
  {
    exists at :: Selects(waiting, subs, at) && forall i :: 0 <= i < |subs| ==> (i in at <==> subs[i].remaining > 0)
  }

  lemma WaitingMembers(waiting: seq<Waiter>, subs: seq<Waiter>)
    requires StillWaiting(waiting, subs) && Distinct(subs)
    ensures Distinct(waiting) && forall w :: w in waiting <==> w in subs && w.remaining > 0
  {
    var at :| Selects(waiting, subs, at) && forall i :: 0 <= i < |subs| ==> (i in at <==> subs[i].remaining > 0);
    forall w | w in waiting
      ensures w in subs && w.remaining > 0
    {
      var t :| 0 <= t < |waiting| && waiting[t] == w;
      assert at[t] in at;
    }
    forall w | w in subs && w.remaining > 0
      ensures w in waiting
    {
      var i :| 0 <= i < |subs| && subs[i] == w;
      var t :| 0 <= t < |at| && at[t] == i;
      assert waiting[t] == w;
    }
  }

  /** The lookups marked as kept. */
  ghost function Kept(ws: seq<Waiter>, keep: seq<bool>): seq<Waiter>
    requires |keep| == |ws|
  {
    if ws == [] then []
    else
      var last := |ws| - 1;
      var before := Kept(ws[..last], keep[..last]);
      if keep[last] then before + [ws[last]] else before
  }

  lemma KeptNone(ws: seq<Waiter>)
    ensures Kept(ws[..0], []) == []
  {
  }

  lemma KeptMore(ws: seq<Waiter>, keep: seq<bool>, w: Waiter, more: bool)
    requires |keep| == |ws|
    ensures Kept(ws + [w], keep + [more]) == if more then Kept(ws, keep) + [w] else Kept(ws, keep)
    ensures false in keep + [more] <==> false in keep || !more
  {
    assert (ws + [w])[..|ws|] == ws && (keep + [more])[..|ws|] == keep;
  }

  lemma {:induction false} KeptPlaces(ws: seq<Waiter>, keep: seq<bool>) returns (at: seq<nat>)
    requires |keep| == |ws|
    ensures Selects(Kept(ws, keep), ws, at) && forall k :: 0 <= k < |ws| ==> (k in at <==> keep[k])
  {
    hide Selects;
    if ws == [] {
      at := [];
      NoneSelected<Waiter>();
    } else {
      var last := |ws| - 1;
      var before := KeptPlaces(ws[..last], keep[..last]);
      assert ws == ws[..last] + [ws[last]];
      SelectsMore(Kept(ws[..last], keep[..last]), ws[..last], before, ws[last]);
      SelectsBelow(Kept(ws[..last], keep[..last]), ws[..last], before);
      at := if keep[last] then before + [last] else before;
    }
  }

  lemma KeptWaits(subs: seq<Waiter>, left: seq<bool>)
    requires |left| == |subs| && forall i :: 0 <= i < |subs| ==> left[i] == (subs[i].remaining > 0)
    ensures StillWaiting(Kept(subs, left), subs)
    ensures false in left <==> exists i :: 0 <= i < |subs| && subs[i].remaining <= 0
  {
    hide Selects, Kept;
    var at := KeptPlaces(subs, left);
    if i :| 0 <= i < |subs| && subs[i].remaining <= 0 {
      assert left[i] == false;
    }
  }

  /** Those that miss elements still make up a list. */
  lemma StillListed(subs: seq<Waiter>, waiting: seq<Waiter>, d: Desc, bin: seq<Desc>, b: nat, size: nat, own: set<Point>, domain: Box, n: nat)
    requires size > 0 && OfBin(subs, b, size) && Distinct(subs) && StillWaiting(waiting, subs)
    requires forall i :: 0 <= i < |subs| ==> subs[i].Correct(own, Added(bin, d, n), domain, n)
    ensures ListOk(waiting, Added(bin, d, n), b, size, own, domain, n)
  {
    hide Waiter.Correct, Bin, Added, StillWaiting;
    WaitingMembers(waiting, subs);
    forall i | 0 <= i < |waiting|
      ensures Bin(waiting[i].q.version, size) == b && waiting[i].remaining > 0 && waiting[i].Correct(own, Added(bin, d, n), domain, n)
    {
      assert waiting[i] in waiting;
    }
  }

  /** The lookup has been told of d: its books are right for the bin with d, and d has joined what it received if it answers. */
  ghost predicate HasBeenTold(w: Waiter, was: seq<Desc>, d: Desc, own: set<Point>, bin: seq<Desc>, domain: Box, n: nat)
    reads w
  {
    w.Correct(own, Added(bin, d, n), domain, n) && w.recv_odsc == (if Answers(d, w.q, n) then [d] else []) + was
  }

  ghost predicate NotYetTold(w: Waiter, was: seq<Desc>, own: set<Point>, bin: seq<Desc>, domain: Box, n: nat)
    reads w
  {
    w.Correct(own, bin, domain, n) && w.recv_odsc == was
  }

  method Tell(sub: Waiter, d: Desc, share: SelfShare, ghost own: set<Point>, ghost bin: seq<Desc>, ghost domain: Box, ghost n: nat)
    requires Owns(share, own, domain, n) && Inside(d, domain, n) && NewObject(bin, d, n) && Harmless(bin, d, sub.q, n)
    requires AllInside(Added(bin, d, n), domain, n) && sub.Correct(own, bin, domain, n)
    modifies sub
    ensures HasBeenTold(sub, old(sub.recv_odsc), d, own, bin, domain, n) && sub.remaining >= 0
  {
    hide Owns, Meets, Includes, Added, FirstOverlap, Uncovered, Points, Inside, AllInside, NewObject, Harmless, Waiter.Correct, Answers;
    sub.Publish(d, share, own, bin, domain, n);
    NeverNegative(sub, own, Added(bin, d, n), domain, n);
  }

  /**
   * The loop of dht_add_entry over the waiting lookups of a bin: each is told of d, and those with nothing
   * missing any more leave the list.
   */
  method PublishAll(subs: seq<Waiter>, d: Desc, share: SelfShare, ghost own: set<Point>, ghost bin: seq<Desc>, ghost domain: Box, ghost n: nat, ghost b: nat, ghost size: nat)
    returns (waiting: seq<Waiter>, sub_complete: bool)
    requires Owns(share, own, domain, n) && Inside(d, domain, n) && NewObject(bin, d, n) && AllInside(bin, domain, n)
    requires AllInside(Added(bin, d, n), domain, n) && size > 0 && ListOk(subs, bin, b, size, own, domain, n)
    requires forall i :: 0 <= i < |subs| ==> Harmless(bin, d, subs[i].q, n)
    modifies subs
    ensures forall i :: 0 <= i < |subs| ==> HasBeenTold(subs[i], old(subs[i].recv_odsc), d, own, bin, domain, n)
    ensures StillWaiting(waiting, subs) && ListOk(waiting, Added(bin, d, n), b, size, own, domain, n)
    ensures sub_complete <==> exists i :: 0 <= i < |subs| && subs[i].remaining == 0
  {
    hide Owns, Meets, Includes, Added, FirstOverlap, Uncovered, Points, Inside, AllInside, NewObject, Harmless, Waiter.Correct, Answers, Bin, ListOk, OfBin, HasBeenTold, NotYetTold, Kept, StillWaiting;
    waiting, sub_complete := [], false;
    ghost var left: seq<bool> := [];
    ListCorrect(subs, bin, b, size, own, domain, n);
    KeptNone(subs);
    for k := 0 to |subs|
      invariant forall i :: k <= i < |subs| ==> NotYetTold(subs[i], old(subs[i].recv_odsc), own, bin, domain, n)
      invariant forall i :: 0 <= i < k ==> HasBeenTold(subs[i], old(subs[i].recv_odsc), d, own, bin, domain, n) && subs[i].remaining >= 0
      invariant |left| == k && forall i :: 0 <= i < k ==> left[i] == (subs[i].remaining > 0)
      invariant waiting == Kept(subs[..k], left) && (sub_complete <==> false in left)
    {
      var sub := subs[k];
      NotYetToldIs(sub, old(sub.recv_odsc), own, bin, domain, n);
      assert subs[..k + 1] == subs[..k] + [sub];
      Tell(sub, d, share, own, bin, domain, n);
      KeptMore(subs[..k], left, sub, sub.remaining > 0);
      left := left + [sub.remaining > 0];
      if sub.remaining == 0 {
        sub_complete := true;
      } else {
        waiting := waiting + [sub];
      }
    }
    assert subs[..|subs|] == subs;
    KeptWaits(subs, left);
    forall i | 0 <= i < |subs|
      ensures subs[i].Correct(own, Added(bin, d, n), domain, n)
    {
      HasBeenToldIs(subs[i], old(subs[i].recv_odsc), d, own, bin, domain, n);
    }
    StillListed(subs, waiting, d, bin, b, size, own, domain, n);
  }

  lemma HasBeenToldIs(w: Waiter, was: seq<Desc>, d: Desc, own: set<Point>, bin: seq<Desc>, domain: Box, n: nat)
    requires HasBeenTold(w, was, d, own, bin, domain, n)
    ensures w.Correct(own, Added(bin, d, n), domain, n) && w.recv_odsc == (if Answers(d, w.q, n) then [d] else []) + was
  {
  }

  lemma NotYetToldIs(w: Waiter, was: seq<Desc>, own: set<Point>, bin: seq<Desc>, domain: Box, n: nat)
    requires NotYetTold(w, was, own, bin, domain, n)
    ensures w.Correct(own, bin, domain, n) && w.recv_odsc == was
  {
  }

  ghost predicate Joined(was: seq<seq<Waiter>>, now: seq<seq<Waiter>>, b: nat, w: Waiter) {
    b < |was| && now == was[b := [w] + was[b]]
  }

  /** What a lookup ends in: it waits, answers nothing or answers everything the bin has for q. */
  ghost predicate Answered(own: set<Point>, bin: seq<Desc>, q: Desc, n: nat, sub: bool, w: Waiter?, tab: seq<Desc>)
    requires |q.bb.lb| == |q.bb.ub|
    reads w
  {
    var missing := Uncovered(own, bin, q);
    && (w != null <==> sub && missing != {})
    && (w == null ==> tab == if missing == {} then Found(bin, q, n) else [])
    && (w != null ==> w.q == q && tab == w.found == Found(bin, q, n) && w.recv_odsc == [] && w.remaining == |missing|)
  }

  // ----- the bins of one server

  class IndexNode {
    const odsc_size: nat
    const share: SelfShare
    var odsc_num: nat
    var odsc_hash: seq<seq<Desc>>
    var dht_subs: seq<seq<Waiter>>
    ghost var waiters: set<Waiter>  // at least everybody in dht_subs
    ghost const own: set<Point>     // the elements this server is responsible for
    ghost const domain: Box
    ghost const n: nat

    ghost predicate ValidBins()
      reads this
    {
      && odsc_size > 0 && |odsc_hash| == |dht_subs| == odsc_size && Owns(share, own, domain, n) && odsc_num == TotalLen(odsc_hash)
      && forall b :: 0 <= b < odsc_size ==> AllInside(odsc_hash[b], domain, n) && PutOnce(odsc_hash[b], n)
    }

    ghost predicate Valid()
      reads this, waiters
    {
      && ValidBins()
      && (forall b, i :: 0 <= b < odsc_size && 0 <= i < |dht_subs[b]| ==> dht_subs[b][i] in waiters)
      && forall b :: 0 <= b < odsc_size ==> ListOk(dht_subs[b], odsc_hash[b], b, odsc_size, own, domain, n)
    }

    constructor (odsc_size: nat, share: SelfShare, ghost own: set<Point>, ghost domain: Box, ghost n: nat)
      requires odsc_size > 0 && Owns(share, own, domain, n)
      ensures Valid() && odsc_hash == seq(odsc_size, _ => []) && waiters == {}
      ensures this.odsc_size == odsc_size && this.share == share && this.own == own && this.domain == domain && this.n == n
    {
      this.odsc_size, this.share, this.own, this.domain, this.n := odsc_size, share, own, domain, n;
      odsc_num, odsc_hash, dht_subs, waiters := 0, seq(odsc_size, _ => []), seq(odsc_size, _ => []), {};
      EmptyBins<Desc>(odsc_size);
    }

    /** The descriptor takes the place of the first overlapping one of its name, or else the first place in the bin. */
    method AddToBin(d: Desc, b: nat)
      requires b < |odsc_hash| && IsBox(d.bb, n) && AllInside(odsc_hash[b], domain, n) && odsc_num == TotalLen(odsc_hash)
      modifies this`odsc_hash, this`odsc_num
      ensures odsc_hash == old(odsc_hash)[b := Added(old(odsc_hash[b]), d, n)] && odsc_num == TotalLen(odsc_hash)
      ensures InPlaceOrFront(old(odsc_hash[b]), odsc_hash[b], d, n)
    {
      hide FirstOverlap, Added, TotalLen;
      BinBoxes(odsc_hash[b], domain, n);
      AddedIs(odsc_hash[b], d, n);
      AddedPlace(odsc_hash[b], d, n);
      TotalLenUpdate(odsc_hash, b, Added(odsc_hash[b], d, n));
      var i := FindMatch(odsc_hash[b], d, n);
      if i < |odsc_hash[b]| {
        odsc_hash := odsc_hash[b := odsc_hash[b][i := d]];
      } else {
        odsc_hash := odsc_hash[b := [d] + odsc_hash[b]];
        odsc_num := odsc_num + 1;
      }
    }

    /**
     * dht_add_entry, without the lock: d enters its bin, every waiting lookup it answers is told, and exactly
     * those lookups stop waiting that have none of their elements missing any more.
     */
    method DhtAddEntry(d: Desc) returns (broadcast: bool)
      requires Valid() && Inside(d, domain, n) && NewObject(odsc_hash[Bin(d.version, odsc_size)], d, n)
      requires forall i :: 0 <= i < |dht_subs[Bin(d.version, odsc_size)]| ==>
        Harmless(odsc_hash[Bin(d.version, odsc_size)], d, dht_subs[Bin(d.version, odsc_size)][i].q, n)
      modifies this, dht_subs[Bin(d.version, odsc_size)]
      ensures Valid()
      ensures var b := Bin(d.version, odsc_size);
        && odsc_hash == old(odsc_hash)[b := Added(old(odsc_hash[b]), d, n)] && InPlaceOrFront(old(odsc_hash[b]), odsc_hash[b], d, n)
        && (forall c :: 0 <= c < odsc_size && c != b ==> dht_subs[c] == old(dht_subs[c]))
        && StillWaiting(dht_subs[b], old(dht_subs[b])) && (forall w :: w in dht_subs[b] <==> w in old(dht_subs[b]) && w.remaining > 0)
        && (forall w :: w in old(dht_subs[b]) ==> HasBeenTold(w, old(w.recv_odsc), d, own, old(odsc_hash[b]), domain, n))
        && (broadcast <==> exists w :: w in old(dht_subs[b]) && w.remaining == 0)
    {
      hide Owns, Points, Uncovered, Meets, Includes, Answers, Overlaps, Bin, Added, Harmless, NewObject, AllInside, PutOnce, FirstOverlap, ListOk, Waiter.Correct, HasBeenTold, StillWaiting, InPlaceOrFront, TotalLen;
      var b := Bin(d.version, odsc_size);
      ghost var bin, subs := odsc_hash[b], dht_subs[b];
      ListDistinct(subs, bin, b, odsc_size, own, domain, n);
      forall c | 0 <= c < odsc_size && c != b
        ensures forall i, j :: 0 <= i < |dht_subs[c]| && 0 <= j < |dht_subs[b]| ==> dht_subs[c][i] != dht_subs[b][j]
      {
        OneBin(dht_subs[c], odsc_hash[c], c, dht_subs[b], odsc_hash[b], b, odsc_size, own, domain, n);
      }
      AddToBin(d, b);
      AddedPutOnce(bin, d, domain, n);
      var waiting;
      waiting, broadcast := PublishAll(dht_subs[b], d, share, own, bin, domain, n, b, odsc_size);
      WaitingMembers(waiting, subs);
      assert forall i :: 0 <= i < |waiting| ==> waiting[i] in waiting;
      dht_subs := dht_subs[b := waiting];
    }

    /** A lookup that misses elements joins the list of its bin. */
    method Wait(q: Desc, b: nat, num_elem: nat, tab: seq<Desc>) returns (w: Waiter)
      requires Valid() && Inside(q, domain, n) && b == Bin(q.version, odsc_size) && num_elem > 0
      requires tab == Found(odsc_hash[b], q, n) && num_elem == |Uncovered(own, odsc_hash[b], q)|
      modifies this`dht_subs, this`waiters
      ensures Valid() && fresh(w) && Joined(old(dht_subs), dht_subs, b, w)
      ensures w.q == q && w.found == tab && w.recv_odsc == [] && w.remaining == num_elem
    {
      hide Owns, Points, Uncovered, Meets, Includes, Answers, ListOk, Bin;
      w := new Waiter(q, num_elem, tab);
      assert w.found + w.recv_odsc == tab;
      OneMoreWaits(w, dht_subs[b], odsc_hash[b], b, odsc_size, own, domain, n);
      dht_subs := dht_subs[b := [w] + dht_subs[b]];
      waiters := waiters + {w};
    }

    /**
     * dht_find_entry_all. Asked by this server itself without a timeout it begins to wait when elements are
     * missing; asked otherwise it then answers nothing.
     */
    method DhtFindEntryAll(q: Desc, sub: bool) returns (tab: seq<Desc>, w: Waiter?)
      requires Valid() && Inside(q, domain, n)
      modifies this`dht_subs, this`waiters
      ensures Valid() && (w != null ==> fresh(w))
      ensures Answered(own, odsc_hash[Bin(q.version, odsc_size)], q, n, sub, w, tab)
      ensures w == null ==> dht_subs == old(dht_subs) && waiters == old(waiters)
      ensures w != null ==> Joined(old(dht_subs), dht_subs, Bin(q.version, odsc_size), w)
      ensures tab == [] || ListsAnswers(tab, odsc_hash[Bin(q.version, odsc_size)], q, n)
      ensures |tab| <= odsc_num
    {
      hide Owns, Points, Uncovered, Meets, Includes, Answers, ListOk, Bin, TotalLen;
      FoundLists(odsc_hash[Bin(q.version, odsc_size)], q, n);
      BinAtMost(odsc_hash, Bin(q.version, odsc_size));
      var b := Bin(q.version, odsc_size);
      var num_elem;
      tab, num_elem := Collect(share, odsc_hash[b], q, own, domain, n);
      w := null;
      if sub {
        if num_elem > 0 {
          w := Wait(q, b, num_elem, tab);
        }
      } else {
        if num_elem > 0 {
          tab := [];
        }
      }
    }
  }

  /** A lookup that waits resumes when nothing is missing: what it collected are the bin's answers, and they cover the query's elements here. */
  method Resume(w: Waiter, tab: seq<Desc>, ghost own: set<Point>, ghost bin: seq<Desc>, ghost domain: Box, ghost n: nat)
    returns (all: seq<Desc>, tab_entries: nat)
    requires w.Correct(own, bin, domain, n) && w.remaining <= 0 && tab == w.found
    ensures tab_entries == |all| && all == w.found + w.recv_odsc
    ensures forall d :: d in all <==> d in bin && Answers(d, w.q, n)
    ensures Uncovered(own, bin, w.q) == {}
  {
    all := tab + w.recv_odsc;
    tab_entries := |tab| + w.pub_count;
  }
}
