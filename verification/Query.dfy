/** Answering a query: ask every server the box touches, clip what they know, drop the duplicates. */
module Query {
  import opened HilbertIndex
  import opened Boxes
  import opened ElementCount
  import opened Descriptors
  import opened Subscriptions
  import opened Rendezvous

  // ----- clipping

  /** The part of a put that lies in the query box. */
  ghost function Clip(d: Desc, q: Desc): Desc {
    if |d.bb.lb| == |d.bb.ub| == |q.bb.lb| == |q.bb.ub| then d.(bb := Intersection(q.bb, d.bb)) else d
  }

  /** r is the clipped part of some put that answers q. */
  ghost predicate IsPiece(r: Desc, q: Desc, puts: seq<Desc>, n: nat) {
    exists i :: 0 <= i < |puts| && Answers(puts[i], q, n) && r == Clip(puts[i], q)
  }

  method ClipAll(tab: seq<Desc>, q: Desc, ghost n: nat) returns (r: seq<Desc>)
    requires IsBox(q.bb, n) && Shaped(tab, n)
    ensures |r| == |tab| && forall i :: 0 <= i < |tab| ==> r[i] == Clip(tab[i], q)
  {
    r := [];
    for j := 0 to |tab|
      invariant |r| == j && forall i :: 0 <= i < j ==> r[i] == Clip(tab[i], q)
    {
      var isect := BBoxIntersect(q.bb, tab[j].bb, n);
      r := r + [tab[j].(bb := isect)];
    }
  }

  // ----- dropping duplicates

  predicate SamePart(d: Desc, e: Desc) {
    d.version == e.version && d.name == e.name && d.bb == e.bb
  }

  /** obj_desc_equals_no_owner. */
  method EqualsNoOwner(d: Desc, e: Desc) returns (r: bool)
    requires IsBox(d.bb, |d.bb.lb|) && IsBox(e.bb, |e.bb.lb|)
    ensures r <==> SamePart(d, e)
  {
    if d.version == e.version && d.name == e.name {
      r := BBoxEquals(d.bb, e.bb);
    } else {
      r := false;
    }
  }

  ghost predicate HasPart(results: seq<Desc>, d: Desc) {
    exists i :: 0 <= i < |results| && SamePart(results[i], d)
  }

  ghost predicate NoTwice(results: seq<Desc>) {
    forall i, j :: 0 <= i < j < |results| ==> !SamePart(results[i], results[j])
  }

  ghost predicate Shaped(ds: seq<Desc>, n: nat) {
    forall i :: 0 <= i < |ds| ==> IsBox(ds[i].bb, n)
  }

  /** The loop over the results so far. */
  method AddNew(results: seq<Desc>, d: Desc, ghost n: nat) returns (r: seq<Desc>)
    requires Shaped(results, n) && IsBox(d.bb, n) && NoTwice(results)
    ensures r == (if HasPart(results, d) then results else results + [d])
    ensures NoTwice(r) && Shaped(r, n)
  {
    for k := 0 to |results|
      invariant forall i :: 0 <= i < k ==> !SamePart(results[i], d)
    {
      var dup := EqualsNoOwner(results[k], d);
      if dup {
        return results;
      }
    }
    r := results + [d];
  }

  /** Of a list what has no same part before it, in list order. */
  ghost function Deduped(all: seq<Desc>): seq<Desc> {
    if all == [] then []
    else
      var last := |all| - 1;
      var before := Deduped(all[..last]);
      if HasPart(before, all[last]) then before else before + [all[last]]
  }

  lemma {:induction false} DedupedParts(all: seq<Desc>, d: Desc)
    ensures HasPart(Deduped(all), d) <==> HasPart(all, d)
  {
    hide SamePart;
    if all != [] {
      var last := |all| - 1;
      DedupedParts(all[..last], d);
      DedupedParts(all[..last], all[last]);
      PartSnoc(all[..last], all[last], d);
      PartSnoc(Deduped(all[..last]), all[last], d);
      assert all == all[..last] + [all[last]];
      SamePartCarries(Deduped(all[..last]), all[last], d);
    }
  }

  lemma PartSnoc(ds: seq<Desc>, x: Desc, d: Desc)
    ensures HasPart(ds + [x], d) <==> HasPart(ds, d) || SamePart(x, d)
  {
    hide SamePart;
    if HasPart(ds, d) {
      var i :| 0 <= i < |ds| && SamePart(ds[i], d);
      assert SamePart((ds + [x])[i], d);
    }
    assert (ds + [x])[|ds|] == x;
    if HasPart(ds + [x], d) && !SamePart(x, d) {
      var i :| 0 <= i < |ds| + 1 && SamePart((ds + [x])[i], d);
      assert SamePart(ds[i], d);
    }
  }

  lemma SamePartCarries(ds: seq<Desc>, x: Desc, d: Desc)
    ensures SamePart(x, d) && HasPart(ds, x) ==> HasPart(ds, d)
  {
    if SamePart(x, d) && HasPart(ds, x) {
      var i :| 0 <= i < |ds| && SamePart(ds[i], x);
      assert SamePart(ds[i], d);
    }
  }

  /** The places of the list whose part does not occur before. */
  ghost predicate PlacesOfFirsts(at: seq<nat>, all: seq<Desc>) {
    forall k :: 0 <= k < |all| ==> (k in at <==> !HasPart(all[..k], all[k]))
  }

  /** r lists the first descriptor of every part, in the order of all. */
  ghost predicate ListsFirsts(r: seq<Desc>, all: seq<Desc>) {
    exists at :: Selects(r, all, at) && PlacesOfFirsts(at, all)
  }

  lemma {:induction false} DedupedPlaces(all: seq<Desc>) returns (at: seq<nat>)
    ensures Selects(Deduped(all), all, at) && PlacesOfFirsts(at, all)
  {
    hide HasPart;
    if all == [] {
      at := [];
    } else {
      var last := |all| - 1;
      var before := DedupedPlaces(all[..last]);
      assert all == all[..last] + [all[last]];
      SelectsMore(Deduped(all[..last]), all[..last], before, all[last]);
      DedupedParts(all[..last], all[last]);
      at := if HasPart(all[..last], all[last]) then before else before + [last];
      assert forall k :: 0 <= k < last ==> all[k] == all[..last][k] && all[..last][..k] == all[..k];
    }
  }

  lemma DedupedFirsts(all: seq<Desc>)
    ensures ListsFirsts(Deduped(all), all)
  {
    var at := DedupedPlaces(all);
  }

  /** Everything of the table that is not there yet joins the results, which are what was kept of before. */
  method Dedup(results: seq<Desc>, tab: seq<Desc>, ghost n: nat, ghost before: seq<Desc>) returns (r: seq<Desc>)
    requires Shaped(results, n) && Shaped(tab, n) && NoTwice(results) && results == Deduped(before)
    ensures NoTwice(r) && Shaped(r, n) && r == Deduped(before + tab) && ListsFirsts(r, before + tab)
    ensures forall d :: d in r ==> d in results || d in tab
    ensures forall d :: d in tab || HasPart(results, d) ==> HasPart(r, d)
  {
    hide NoTwice, SamePart, Deduped, ListsFirsts;
    r := results;
    assert before + tab[..0] == before;
    for j := 0 to |tab|
      invariant r == Deduped(before + tab[..j])
      invariant NoTwice(r) && Shaped(r, n)
      invariant forall d :: d in r ==> d in results || d in tab
      invariant forall d :: d in tab[..j] || HasPart(results, d) ==> HasPart(r, d)
    {
      ghost var was := r;
      r := AddNew(r, tab[j], n);
      PartsStay(was, r, tab[j]);
      assert tab[..j + 1] == tab[..j] + [tab[j]];
      assert before + tab[..j + 1] == (before + tab[..j]) + [tab[j]];
      DedupedSnoc(before + tab[..j], tab[j]);
    }
    assert tab[..|tab|] == tab;
    DedupedFirsts(before + tab);
  }

  lemma DedupedSnoc(all: seq<Desc>, d: Desc)
    ensures Deduped(all + [d]) == if HasPart(Deduped(all), d) then Deduped(all) else Deduped(all) + [d]
  {
    assert (all + [d])[..|all|] == all;
  }

  lemma PartsStay(was: seq<Desc>, now: seq<Desc>, d: Desc)
    requires now == was || now == was + [d]
    requires HasPart(was, d) || now == was + [d]
    ensures HasPart(now, d) && forall e :: HasPart(was, e) ==> HasPart(now, e)
  {
    forall e | HasPart(was, e)
      ensures HasPart(now, e)
    {
      var i :| 0 <= i < |was| && SamePart(was[i], e);
      assert SamePart(now[i], e);
    }
    if now == was + [d] {
      assert SamePart(now[|was|], d);
    }
  }

  // ----- what the servers answer

  /** When the puts cover the query and have landed, no server misses an element of it. */
  lemma NothingMissing(sp: Space, puts: seq<Desc>, q: Desc, k: nat, bin: seq<Desc>)
    requires SpaceOk(sp) && k < |sp.owned| && Inside(q, sp.domain, sp.n) && AllInside(puts, sp.domain, sp.n)
    requires Covers(puts, q) && Landed(sp, puts, q, k, bin)
    ensures Uncovered(sp.owned[k], bin, q) == {}
  {
    hide SpaceOk, Points, In, Covered;
    forall p | p in sp.owned[k] && p in Points(q.bb)
      ensures p in Covered(bin, q)
    {
      PointsAt(q.bb, p);
      var i :| 0 <= i < |puts| && CoveredBy(puts[i], q, p);
      PointsAt(puts[i].bb, p);
      assert p in sp.owned[k] * Points(puts[i].bb);
      assert Concerns(sp, puts[i].bb, k);
      var j :| 0 <= j < |bin| && bin[j] == puts[i];
      CoveredAt(bin, q, p);
    }
  }

  /** What server k answers: only clipped puts, and for each of its elements of the query the piece that holds it. */
  ghost predicate GoodTable(tab: seq<Desc>, sp: Space, puts: seq<Desc>, q: Desc, k: nat)
    requires k < |sp.owned|
  {
    && (forall i :: 0 <= i < |tab| ==> IsPiece(tab[i], q, puts, sp.n))
    && (forall p :: p in sp.owned[k] && In(q.bb, p) ==> exists i :: 0 <= i < |tab| && In(tab[i].bb, p))
  }

  lemma FoundIsGood(sp: Space, puts: seq<Desc>, q: Desc, k: nat, bin: seq<Desc>, found: seq<Desc>, tab: seq<Desc>)
    requires SpaceOk(sp) && k < |sp.owned| && Inside(q, sp.domain, sp.n) && AllInside(puts, sp.domain, sp.n)
    requires Covers(puts, q) && Landed(sp, puts, q, k, bin) && found == Found(bin, q, sp.n)
    requires |tab| == |found| && Shaped(found, sp.n) && forall i :: 0 <= i < |tab| ==> tab[i] == Clip(found[i], q)
    ensures GoodTable(tab, sp, puts, q, k)
  {
    hide SpaceOk, Points, In, Covered, Meets, Includes;
    forall i | 0 <= i < |tab|
      ensures IsPiece(tab[i], q, puts, sp.n)
    {
      assert found[i] in found;
      var j :| 0 <= j < |puts| && puts[j] == found[i];
    }
    forall p | p in sp.owned[k] && In(q.bb, p)
      ensures exists i :: 0 <= i < |tab| && In(tab[i].bb, p)
    {
      var i := PieceFor(sp, puts, q, k, bin, p);
      assert puts[i] in found;
      var j :| 0 <= j < |found| && found[j] == puts[i];
      InIntersection(q.bb, puts[i].bb, sp.n, p);
      assert In(tab[j].bb, p);
    }
  }

  lemma PieceFor(sp: Space, puts: seq<Desc>, q: Desc, k: nat, bin: seq<Desc>, p: Point) returns (i: nat)
    requires SpaceOk(sp) && k < |sp.owned| && Inside(q, sp.domain, sp.n) && AllInside(puts, sp.domain, sp.n)
    requires Covers(puts, q) && Landed(sp, puts, q, k, bin) && p in sp.owned[k] && In(q.bb, p)
    ensures i < |puts| && puts[i] in bin && Answers(puts[i], q, sp.n) && In(puts[i].bb, p)
  {
    hide SpaceOk, Points, In, Covered;
    i :| 0 <= i < |puts| && CoveredBy(puts[i], q, p);
    PointsAt(puts[i].bb, p);
    assert p in sp.owned[k] * Points(puts[i].bb);
    assert Concerns(sp, puts[i].bb, k);
    PointMeansMeets(q.bb, puts[i].bb, sp.n, p);
  }

  // ----- get_query_odscs

  /** What dht_find_entry_all of one server answers, clipped to the query. */
  method AskServer(node: IndexNode, q: Desc, forever: bool, ghost sp: Space, ghost puts: seq<Desc>, ghost k: nat)
    returns (tab: seq<Desc>)
    requires SpaceOk(sp) && k < |sp.owned| && Inside(q, sp.domain, sp.n) && AllInside(puts, sp.domain, sp.n)
    requires node.Valid() && ServerOf(node, sp, k) && Covers(puts, q)
    requires Landed(sp, puts, q, k, node.odsc_hash[Bin(q.version, sp.size)])
    modifies node`dht_subs, node`waiters
    ensures node.Valid() && node.dht_subs == old(node.dht_subs) && node.waiters == old(node.waiters)
    ensures Shaped(tab, sp.n) && GoodTable(tab, sp, puts, q, k)
  {
    hide SpaceOk, ListOk, Landed, Found, Uncovered, GoodTable, Points, Includes, AllInside, PutOnce, Owns;
    ghost var bin := node.odsc_hash[Bin(q.version, sp.size)];
    NothingMissing(sp, puts, q, k, bin);
    BinInside(node, Bin(q.version, sp.size));
    var found, w := node.DhtFindEntryAll(q, forever);
    FoundShaped(bin, q, sp.n);
    tab := ClipAll(found, q, sp.n);
    ClipsShaped(found, tab, q, sp.n);
    FoundIsGood(sp, puts, q, k, bin, found, tab);
  }

  /** node is server k of the space. */
  ghost predicate ServerOf(node: IndexNode, sp: Space, k: nat)
    requires k < |sp.owned|
    reads node
  {
    && node.own == sp.owned[k] && node.domain == sp.domain && node.n == sp.n && node.odsc_size == sp.size > 0
    && |node.odsc_hash| == sp.size
  }

  lemma BinInside(node: IndexNode, b: nat)
    requires node.Valid() && b < node.odsc_size
    ensures b < |node.odsc_hash| && Shaped(node.odsc_hash[b], node.n)
  {
  }

  lemma FoundShaped(bin: seq<Desc>, q: Desc, n: nat)
    requires Shaped(bin, n)
    ensures Shaped(Found(bin, q, n), n)
  {
    hide Found;
    var r := Found(bin, q, n);
    forall i | 0 <= i < |r|
      ensures IsBox(r[i].bb, n)
    {
      assert r[i] in r;
    }
  }

  lemma ClipsShaped(found: seq<Desc>, tab: seq<Desc>, q: Desc, n: nat)
    requires IsBox(q.bb, n) && Shaped(found, n) && |tab| == |found| && forall i :: 0 <= i < |tab| ==> tab[i] == Clip(found[i], q)
    ensures Shaped(tab, n)
  {
  }

  /** The pieces lie inside the query, do not overlap and together are the whole query. */
  ghost predicate Tiles(results: seq<Desc>, q: Desc, puts: seq<Desc>, n: nat) {
    && (forall i :: 0 <= i < |results| ==> IsPiece(results[i], q, puts, n))
    && (forall i :: 0 <= i < |results| ==> NonEmpty(results[i].bb, n) && IsBox(q.bb, n) && Includes(q.bb, results[i].bb, n))
    && (forall i, j :: 0 <= i < j < |results| ==> Apart(results[i], results[j], n))
    && (forall p :: In(q.bb, p) ==> exists i :: 0 <= i < |results| && In(results[i].bb, p))
  }

  /** The servers asked exist and include every owner of an element of the query. */
  ghost predicate Asked(peers: seq<nat>, sp: Space, q: Desc)
    requires |q.bb.lb| == |q.bb.ub|
  {
    && (forall i :: 0 <= i < |peers| ==> peers[i] < |sp.owned|)
    && (forall k :: 0 <= k < |sp.owned| && sp.owned[k] * Points(q.bb) != {} ==> k in peers)
  }

  ghost predicate Ready(nodes: seq<IndexNode>, sp: Space, puts: seq<Desc>, q: Desc)
    requires SpaceOk(sp)
    reads nodes, set k, w | 0 <= k < |nodes| && w in nodes[k].waiters :: w
  {
    |nodes| == |sp.owned| && forall k :: 0 <= k < |nodes| ==>
      && nodes[k].Valid() && ServerOf(nodes[k], sp, k)
      && Landed(sp, puts, q, k, nodes[k].odsc_hash[Bin(q.version, sp.size)])
  }

  /** The tables of all servers asked; the local one is asked when the hash names nobody. */
  method AskServers(nodes: seq<IndexNode>, peers: seq<nat>, q: Desc, forever: bool, ghost sp: Space, ghost puts: seq<Desc>)
    returns (odsc_tabs: seq<seq<Desc>>)
    requires SpaceOk(sp) && Inside(q, sp.domain, sp.n) && AllInside(puts, sp.domain, sp.n) && Covers(puts, q)
    requires Ready(nodes, sp, puts, q) && forall i :: 0 <= i < |peers| ==> peers[i] < |nodes|
    modifies nodes
    ensures |odsc_tabs| == |peers|
    ensures forall i :: 0 <= i < |peers| ==> Shaped(odsc_tabs[i], sp.n) && GoodTable(odsc_tabs[i], sp, puts, q, peers[i])
  {
    hide SpaceOk, Landed, GoodTable, Points, Includes, IndexNode.Valid, Shaped, AllInside, Inside, Covers;
    odsc_tabs := [];
    for i := 0 to |peers|
      invariant Ready(nodes, sp, puts, q)
      invariant |odsc_tabs| == i
      invariant forall j :: 0 <= j < i ==> Shaped(odsc_tabs[j], sp.n) && GoodTable(odsc_tabs[j], sp, puts, q, peers[j])
    {
      var tab := AskServer(nodes[peers[i]], q, forever, sp, puts, peers[i]);
      odsc_tabs := odsc_tabs + [tab];
    }
  }

  /** Every piece handed in by some server, nothing twice: the state of the results after i tables. */
  ghost predicate Gathered(results: seq<Desc>, tabs: seq<seq<Desc>>, i: nat, n: nat)
    requires i <= |tabs|
  {
    && NoTwice(results) && Shaped(results, n)
    && (forall d :: d in results ==> exists j :: 0 <= j < i && d in tabs[j])
    && (forall j, d :: 0 <= j < i && d in tabs[j] ==> HasPart(results, d))
  }

  /** The tables one after the other. */
  ghost function AllTables(tabs: seq<seq<Desc>>): seq<Desc> {
    if tabs == [] then [] else AllTables(tabs[..|tabs| - 1]) + tabs[|tabs| - 1]
  }

  lemma AllTablesNext(tabs: seq<seq<Desc>>, i: nat)
    requires i < |tabs|
    ensures AllTables(tabs[..i + 1]) == AllTables(tabs[..i]) + tabs[i] && AllTables(tabs[..0]) == []
  {
    assert tabs[..i + 1][..i] == tabs[..i];
  }

  /** The loop over the tables in the order of the peers: the first descriptor of every part is kept. */
  method Gather(odsc_tabs: seq<seq<Desc>>, ghost n: nat) returns (results: seq<Desc>)
    requires forall i :: 0 <= i < |odsc_tabs| ==> Shaped(odsc_tabs[i], n)
    ensures Gathered(results, odsc_tabs, |odsc_tabs|, n)
    ensures ListsFirsts(results, AllTables(odsc_tabs))
  {
    hide NoTwice, HasPart, Deduped, ListsFirsts;
    results := [];
    NoTwiceNone();
    DedupedNone(odsc_tabs);
    for i := 0 to |odsc_tabs|
      invariant Gathered(results, odsc_tabs, i, n) && results == Deduped(AllTables(odsc_tabs[..i]))
    {
      ghost var was := results;
      AllTablesNext(odsc_tabs, i);
      results := Dedup(results, odsc_tabs[i], n, AllTables(odsc_tabs[..i]));
      forall d | d in results
        ensures exists j :: 0 <= j < i + 1 && d in odsc_tabs[j]
      {
        if d in was {
          var j :| 0 <= j < i && d in odsc_tabs[j];
        } else {
          assert d in odsc_tabs[i];
        }
      }
    }
    assert odsc_tabs[..|odsc_tabs|] == odsc_tabs;
    DedupedFirsts(AllTables(odsc_tabs));
  }

  lemma DedupedNone(tabs: seq<seq<Desc>>)
    ensures Deduped(AllTables(tabs[..0])) == []
  {
  }

  lemma NoTwiceNone()
    ensures NoTwice([])
  {
  }

  /** A gathered result comes from a put. */
  lemma GatheredPiece(sp: Space, puts: seq<Desc>, q: Desc, peers: seq<nat>, tabs: seq<seq<Desc>>, results: seq<Desc>, i: nat)
    requires |tabs| == |peers| && Gathered(results, tabs, |tabs|, sp.n) && i < |results|
    requires forall j :: 0 <= j < |peers| ==> peers[j] < |sp.owned| && GoodTable(tabs[j], sp, puts, q, peers[j])
    ensures IsPiece(results[i], q, puts, sp.n)
  {
    hide NoTwice, HasPart, IsPiece;
    assert results[i] in results;
    var j :| 0 <= j < |tabs| && results[i] in tabs[j];
    var t :| 0 <= t < |tabs[j]| && tabs[j][t] == results[i];
  }

  /** A piece is a box with points inside the query. */
  lemma PieceInside(r: Desc, q: Desc, puts: seq<Desc>, domain: Box, n: nat)
    requires IsPiece(r, q, puts, n) && Inside(q, domain, n) && AllInside(puts, domain, n)
    ensures NonEmpty(r.bb, n) && Includes(q.bb, r.bb, n)
  {
    var i :| 0 <= i < |puts| && Answers(puts[i], q, n) && r == Clip(puts[i], q);
    IntersectionInside(q.bb, puts[i].bb, domain, n);
  }

  /** Different pieces have no point in common, because different puts have none and no piece comes twice. */
  lemma PiecesApart(r: Desc, r': Desc, q: Desc, puts: seq<Desc>, domain: Box, n: nat)
    requires IsPiece(r, q, puts, n) && IsPiece(r', q, puts, n) && !SamePart(r, r')
    requires Inside(q, domain, n) && AllInside(puts, domain, n) && PutOnce(puts, n)
    ensures Apart(r, r', n)
  {
    var i :| 0 <= i < |puts| && Answers(puts[i], q, n) && r == Clip(puts[i], q);
    var j :| 0 <= j < |puts| && Answers(puts[j], q, n) && r' == Clip(puts[j], q);
    PieceInside(r, q, puts, domain, n);
    PieceInside(r', q, puts, domain, n);
    PutsApart(puts, i, j, n);
    if Meets(r.bb, r'.bb, n) {
      MeetsMeansPoint(r.bb, r'.bb, n);
      var p :| In(r.bb, p) && In(r'.bb, p);
      InIntersection(q.bb, puts[i].bb, n, p);
      InIntersection(q.bb, puts[j].bb, n, p);
      PointMeansMeets(puts[i].bb, puts[j].bb, n, p);
    }
  }

  lemma PutsApart(puts: seq<Desc>, i: nat, j: nat, n: nat)
    requires PutOnce(puts, n) && i < |puts| && j < |puts| && i != j && SameObject(puts[i], puts[j])
    ensures Apart(puts[i], puts[j], n)
  {
    if j < i {
      MeetsSymmetric(puts[j].bb, puts[i].bb, n);
    }
  }

  /** Every point of the query lies in a gathered piece: its owner was asked and knew. */
  lemma PointServed(sp: Space, puts: seq<Desc>, q: Desc, peers: seq<nat>, tabs: seq<seq<Desc>>, results: seq<Desc>, p: Point) returns (i: nat)
    requires SpaceOk(sp) && Inside(q, sp.domain, sp.n) && Asked(peers, sp, q) && In(q.bb, p)
    requires |tabs| == |peers| && Gathered(results, tabs, |tabs|, sp.n)
    requires forall j :: 0 <= j < |peers| ==> GoodTable(tabs[j], sp, puts, q, peers[j])
    ensures i < |results| && In(results[i].bb, p)
  {
    hide NoTwice, IsPiece, Shaped, Concerns;
    PointsAt(q.bb, p);
    PointsAt(sp.domain, p);
    var k :| 0 <= k < |sp.owned| && p in sp.owned[k];
    assert p in sp.owned[k] * Points(q.bb);
    var j :| 0 <= j < |peers| && peers[j] == k;
    assert GoodTable(tabs[j], sp, puts, q, k);
    var t :| 0 <= t < |tabs[j]| && In(tabs[j][t].bb, p);
    assert tabs[j][t] in tabs[j];
    assert HasPart(results, tabs[j][t]);
    i :| 0 <= i < |results| && SamePart(results[i], tabs[j][t]);
  }

  /**
   * get_query_odscs: when disjoint puts cover the query and their index updates have landed, the descriptors
   * it returns tile the query exactly.
   */
  method GetQueryOdscs(nodes: seq<IndexNode>, rank: nat, de_tab: seq<nat>, q: Desc, forever: bool, ghost sp: Space, ghost puts: seq<Desc>)
    returns (results: seq<Desc>)
    requires SpaceOk(sp) && Inside(q, sp.domain, sp.n) && AllInside(puts, sp.domain, sp.n)
    requires PutOnce(puts, sp.n) && Covers(puts, q)
    requires Ready(nodes, sp, puts, q) && Asked(de_tab, sp, q) && rank < |nodes|
    modifies nodes
    ensures Tiles(results, q, puts, sp.n)
  {
    hide SpaceOk, GoodTable, Covers, PutOnce, AllInside, NoTwice, IsPiece, Ready, Gathered, Includes, Asked;
    var peers := if |de_tab| == 0 then [rank] else de_tab;
    PeersAsked(de_tab, rank, peers, nodes, sp, puts, q);
    var odsc_tabs := AskServers(nodes, peers, q, forever, sp, puts);
    results := Gather(odsc_tabs, sp.n);
    GatheredTiles(sp, puts, q, peers, odsc_tabs, results);
  }

  lemma PeersAsked(de_tab: seq<nat>, rank: nat, peers: seq<nat>, nodes: seq<IndexNode>, sp: Space, puts: seq<Desc>, q: Desc)
    requires SpaceOk(sp) && Inside(q, sp.domain, sp.n) && Ready(nodes, sp, puts, q) && Asked(de_tab, sp, q) && rank < |nodes|
    requires peers == if |de_tab| == 0 then [rank] else de_tab
    ensures Asked(peers, sp, q) && forall i :: 0 <= i < |peers| ==> peers[i] < |nodes|
  {
    hide SpaceOk, Points;
  }

  lemma GatheredTiles(sp: Space, puts: seq<Desc>, q: Desc, peers: seq<nat>, tabs: seq<seq<Desc>>, results: seq<Desc>)
    requires SpaceOk(sp) && Inside(q, sp.domain, sp.n) && AllInside(puts, sp.domain, sp.n)
    requires PutOnce(puts, sp.n) && Asked(peers, sp, q)
    requires |tabs| == |peers| && Gathered(results, tabs, |tabs|, sp.n)
    requires forall j :: 0 <= j < |peers| ==> GoodTable(tabs[j], sp, puts, q, peers[j])
    ensures Tiles(results, q, puts, sp.n)
  {
    hide SpaceOk, GoodTable, PutOnce, AllInside, IsPiece, Includes, Meets, Points, HasPart, SamePart;
    forall i | 0 <= i < |results|
      ensures IsPiece(results[i], q, puts, sp.n) && NonEmpty(results[i].bb, sp.n) && Includes(q.bb, results[i].bb, sp.n)
    {
      GatheredPiece(sp, puts, q, peers, tabs, results, i);
      PieceInside(results[i], q, puts, sp.domain, sp.n);
    }
    forall i, j | 0 <= i < j < |results|
      ensures Apart(results[i], results[j], sp.n)
    {
      PiecesApart(results[i], results[j], q, puts, sp.domain, sp.n);
    }
    forall p | In(q.bb, p)
      ensures exists i :: 0 <= i < |results| && In(results[i].bb, p)
    {
      var i := PointServed(sp, puts, q, peers, tabs, results, p);
    }
  }
}
