/** Metadata kept in bins by version, and the searches for the next and the last version. */
module MetaSearch {
  import opened Arithmetic
  import opened LinkedQueue
  import opened Subscriptions
  import opened VersionedStore

  datatype Meta = Meta(name: string, version: nat, data: seq<bv8>)

  ghost predicate Candidate(m: Meta, name: string, curr: int) {
    m.name == name && m.version > curr
  }

  /** res is the candidate with the least version among the seen ones, None if there is none. */
  ghost predicate Least(res: Option<Meta>, seen: set<Meta>, name: string, curr: int) {
    match res
    case None => forall m :: m in seen ==> !Candidate(m, name, curr)
    case Some(r) => r in seen && Candidate(r, name, curr) && forall m :: m in seen && Candidate(m, name, curr) ==> r.version <= m.version
  }

  function Entries(list: seq<Meta>): (s: set<Meta>)
    ensures forall m :: m in s <==> m in list
  {
    set m | m in list
  }

  lemma NextEntry(list: seq<Meta>, k: nat)
    requires k < |list|
    ensures Entries(list[..k + 1]) == Entries(list[..k]) + {list[k]}
    ensures Entries(list[..0]) == {}
  {
    assert list[..k + 1] == list[..k] + [list[k]];
  }

  /** Within one bin a candidate less than size above curr has the least version of the bin's candidates. */
  lemma CloseIsLeast(v: nat, w: nat, curr: int, size: nat)
    requires size > 0 && Bin(v, size) == Bin(w, size) && curr < w && v < curr + size
    ensures v <= w
  {
    SameBin(w, v, size);
  }

  lemma {:induction false} BinReached(from: nat, b: nat, size: nat) returns (i: nat)
    requires b < size
    ensures i < size && Bin(from + i, size) == b
  {
    hide Bin;
    var q := Quotient(from, size);
    var r := Bin(from, size);
    i := if r <= b then b - r else b + size - r;
    var q' := Quotient(from + i, size);
    var p := if r <= b then q else q + 1;
    HighLowUnique(p, b, q', Bin(from + i, size), size);
  }

  class MetaStore {
    const size_hash: nat
    var meta_hash: seq<seq<Meta>>

    /** Every entry stands in the bin of its version, and no name has a version twice. */
    ghost predicate Valid()
      reads this
    {
      && size_hash > 0 && |meta_hash| == size_hash
      && (forall b, i :: 0 <= b < size_hash && 0 <= i < |meta_hash[b]| ==> Bin(meta_hash[b][i].version, size_hash) == b)
      && (forall b, i, j :: 0 <= b < size_hash && 0 <= i < j < |meta_hash[b]| ==>
        meta_hash[b][i].name != meta_hash[b][j].name || meta_hash[b][i].version != meta_hash[b][j].version)
    }

    ghost predicate Has(m: Meta)
      reads this
    {
      exists b :: 0 <= b < |meta_hash| && m in meta_hash[b]
    }

    ghost predicate Knows(name: string, version: nat)
      reads this
    {
      exists m :: Has(m) && m.name == name && m.version == version
    }

    constructor (max_versions: nat)
      requires max_versions > 0
      ensures Valid() && size_hash == max_versions && forall m :: !Has(m)
    {
      size_hash, meta_hash := max_versions, seq(max_versions, _ => []);
    }

    /** ls_find_meta. */
    method LsFindMeta(name: string, version: nat) returns (r: Option<Meta>)
      requires Valid()
      ensures match r
        case None => forall m :: Has(m) ==> !(m.name == name && m.version == version)
        case Some(m) => Has(m) && m.name == name && m.version == version
    {
      var index := Bin(version, size_hash);
      for i := 0 to |meta_hash[index]|
        invariant forall j :: 0 <= j < i ==> !(meta_hash[index][j].name == name && meta_hash[index][j].version == version)
      {
        if meta_hash[index][i].name == name && meta_hash[index][i].version == version {
          assert meta_hash[index][i] in meta_hash[index];
          return Some(meta_hash[index][i]);
        }
      }
      return None;
    }

    /** ls_add_meta without the waiting lookups: a version received before is ignored. */
    method LsAddMeta(mdata: Meta)
      requires Valid()
      modifies this
      ensures Valid()
      ensures old(Knows(mdata.name, mdata.version)) ==> meta_hash == old(meta_hash)
      ensures !old(Knows(mdata.name, mdata.version)) ==> forall m :: Has(m) <==> m == mdata || old(Has(m))
      ensures !old(Knows(mdata.name, mdata.version)) ==>
        var b := Bin(mdata.version, size_hash); meta_hash == old(meta_hash)[b := [mdata] + old(meta_hash[b])]
    {
      var known := LsFindMeta(mdata.name, mdata.version);
      if known.Some? {
        return;
      }
      var index := Bin(mdata.version, size_hash);
      ghost var was := meta_hash;
      assert forall j :: 0 <= j < |was[index]| ==> was[index][j] in was[index] && Has(was[index][j]);
      meta_hash := meta_hash[index := [mdata] + meta_hash[index]];
      AddedHas(was, index, mdata);
    }

    lemma AddedHas(was: seq<seq<Meta>>, index: nat, mdata: Meta)
      requires index < |was| && meta_hash == was[index := [mdata] + was[index]]
      ensures forall m :: Has(m) <==> m == mdata || exists b :: 0 <= b < |was| && m in was[b]
    {
      assert mdata in meta_hash[index];
      forall m
        ensures Has(m) <==> m == mdata || exists b :: 0 <= b < |was| && m in was[b]
      {
        if b :| 0 <= b < |was| && m in was[b] {
          assert m in meta_hash[b];
        }
        if Has(m) && m != mdata {
          var b :| 0 <= b < |meta_hash| && m in meta_hash[b];
          assert m in was[b];
        }
      }
    }

    /** The bin a search from curr on looks at in turn i. */
    function TurnBin(curr: int, i: nat): (b: nat)
      requires size_hash > 0 && curr >= -1
      ensures b < size_hash
    {
      Bin(curr + i + 1, size_hash)
    }

    /** The entries of the bins a search from curr on has seen after i turns. */
    ghost function Seen(curr: int, i: nat): set<Meta>
      requires Valid() && curr >= -1
      reads this
    {
      if i == 0 then {} else Seen(curr, i - 1) + Entries(meta_hash[TurnBin(curr, i - 1)])
    }

    lemma {:induction false} SeenHas(curr: int, i: nat, j: nat, m: Meta)
      requires Valid() && curr >= -1
      ensures m in Seen(curr, i) ==> Has(m)
      ensures j < i && m in meta_hash[TurnBin(curr, j)] ==> m in Seen(curr, i)
    {
      hide Bin;
      if i > 0 {
        SeenHas(curr, i - 1, j, m);
      }
    }

    /** After as many turns as there are bins every entry has been seen. */
    lemma SeenAll(curr: int, m: Meta)
      requires Valid() && curr >= -1
      ensures m in Seen(curr, size_hash) <==> Has(m)
    {
      hide Bin;
      SeenHas(curr, size_hash, 0, m);
      if Has(m) {
        var b :| 0 <= b < |meta_hash| && m in meta_hash[b];
        var j := BinReached(curr + 1, b, size_hash);
        assert TurnBin(curr, j) == b;
        SeenHas(curr, size_hash, j, m);
      }
    }

    lemma SeenNext(curr: int, i: nat)
      requires Valid() && curr >= -1
      ensures Seen(curr, i + 1) == Seen(curr, i) + Entries(meta_hash[TurnBin(curr, i)])
    {
    }

    lemma CloseInBin(index: nat, mdata: Meta, name: string, curr: int)
      requires Valid() && index < size_hash && mdata in meta_hash[index] && curr < mdata.version < curr + size_hash
      ensures forall m :: m in meta_hash[index] && Candidate(m, name, curr) ==> mdata.version <= m.version
    {
      hide Bin;
      forall m | m in meta_hash[index] && Candidate(m, name, curr)
        ensures mdata.version <= m.version
      {
        CloseIsLeast(mdata.version, m.version, curr, size_hash);
      }
    }

    /** The scan of one bin, which stops early at a version close to curr. */
    method ScanBin(index: nat, name: string, curr: int, mdres: Option<Meta>, ghost i: nat) returns (r: Option<Meta>)
      requires Valid() && curr >= -1 && index == TurnBin(curr, i)
      requires Least(mdres, Seen(curr, i), name, curr)
      ensures Least(r, Seen(curr, i + 1), name, curr)
    {
      hide Bin, Seen, TurnBin, Entries;
      r := mdres;
      var list := meta_hash[index];
      ghost var before := Seen(curr, i);
      SeenNext(curr, i);
      for k := 0 to |list|
        invariant Least(r, before + Entries(list[..k]), name, curr)
      {
        var mdata := list[k];
        NextEntry(list, k);
        if mdata.name == name && mdata.version > curr && (r.None? || mdata.version < r.value.version) {
          r := Some(mdata);
          if mdata.version < curr + size_hash {
            CloseInBin(index, mdata, name, curr);
            break;
          }
        }
      }
      assert list[..|list|] == list;
    }
  
    /** meta_find_next_entry without waiting: the least version above curr, None exactly when there is none. */
    method MetaFindNextEntry(name: string, curr: int) returns (mdres: Option<Meta>)
      requires Valid() && curr >= -1
      ensures match mdres
        case None => forall m :: Has(m) ==> !Candidate(m, name, curr)
        case Some(r) => Has(r) && Candidate(r, name, curr) && forall m :: Has(m) && Candidate(m, name, curr) ==> r.version <= m.version
    {
      mdres := None;
      for i := 0 to size_hash
        invariant Least(mdres, Seen(curr, i), name, curr)
      {
        mdres := ScanBin(TurnBin(curr, i), name, curr, mdres, i);
      }
      forall m
        ensures m in Seen(curr, size_hash) <==> Has(m)
      {
        SeenAll(curr, m);
      }
    }

    /** A version no entry exceeds. */
    ghost function Top(bins: seq<seq<Meta>>): (t: nat)
      ensures forall b, m :: 0 <= b < |bins| && m in bins[b] ==> m.version <= t
    {
      if bins == [] then 0
      else
        var t, u := Top(bins[..|bins| - 1]), TopOf(bins[|bins| - 1]);
        if t > u then t else u
    }

    ghost function TopOf(list: seq<Meta>): (t: nat)
      ensures forall m :: m in list ==> m.version <= t
    {
      if list == [] then 0
      else
        var t, u := TopOf(list[..|list| - 1]), list[|list| - 1].version;
        if t > u then t else u
    }

    /** The search for the last version: from one version to the next until there is none. */
    method FindLast(name: string, curr: int) returns (mdata: Option<Meta>)
      requires Valid() && curr >= -1
      ensures match mdata
        case None => forall m :: Has(m) ==> !Candidate(m, name, curr)
        case Some(r) => Has(r) && r.name == name && forall m :: Has(m) && m.name == name ==> m.version <= r.version
    {
      var mdlatest := MetaFindNextEntry(name, curr);
      mdata := None;
      while mdlatest.Some?
        invariant mdlatest.Some? ==> Has(mdlatest.value) && mdlatest.value.name == name && mdlatest.value.version > curr
        invariant mdata.Some? ==> Has(mdata.value) && mdata.value.name == name && mdata.value.version > curr
        invariant mdlatest.None? && mdata.None? ==> forall m :: Has(m) ==> !Candidate(m, name, curr)
        invariant mdlatest.None? && mdata.Some? ==> forall m :: Has(m) ==> !Candidate(m, name, mdata.value.version)
        decreases if mdlatest.Some? then Top(meta_hash) + 1 - mdlatest.value.version else 0
      {
        mdata := mdlatest;
        mdlatest := MetaFindNextEntry(name, mdata.value.version);
      }
    }
  }
}
