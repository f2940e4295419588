/** Transposing a word of nDims fields of nBits bits into nBits fields of nDims bits. */
module Transposition {
  import opened Arithmetic
  import opened BitStrings
  import opened MachineWords

  // ----- fields of a word

  /** The fields one after the other, field 0 lowest. */
  function Pack(fs: seq<Bits>): Bits {
    if fs == [] then [] else fs[0] + Pack(fs[1..])
  }

  ghost predicate Fields(fs: seq<Bits>, m: nat) {
    forall d :: 0 <= d < |fs| ==> |fs[d]| == m
  }

  function Unpack(w: Bits, n: nat, m: nat): (fs: seq<Bits>)
    requires Times(n, m) <= |w|
    ensures |fs| == n && Fields(fs, m)
  {
    if n == 0 then [] else
      [w[..m]] + Unpack(w[m..], n - 1, m)
  }

  function Column(fs: seq<Bits>, m: nat, b: nat): (c: Bits)
    requires Fields(fs, m) && b < m
    ensures |c| == |fs| && forall d :: 0 <= d < |fs| ==> c[d] == fs[d][b]
  {
    seq(|fs|, d requires 0 <= d < |fs| => fs[d][b])
  }

  function Columns(fs: seq<Bits>, m: nat): (cs: seq<Bits>)
    requires Fields(fs, m)
    ensures |cs| == m && Fields(cs, |fs|)
    ensures forall b {:trigger cs[b]} :: 0 <= b < m ==> cs[b] == Column(fs, m, b)
  {
    seq(m, b requires 0 <= b < m => Column(fs, m, b))
  }

  lemma {:induction false} PackLength(fs: seq<Bits>, m: nat)
    requires Fields(fs, m)
    ensures |Pack(fs)| == Times(|fs|, m)
  {
    if fs != [] {
      PackLength(fs[1..], m);
    }
  }

  lemma {:induction false} PackAt(fs: seq<Bits>, m: nat, d: nat, b: nat)
    requires Fields(fs, m) && d < |fs| && b < m
    ensures Times(d, m) + b < |Pack(fs)| == Times(|fs|, m)
    ensures Pack(fs)[Times(d, m) + b] == fs[d][b]
  {
    PackLength(fs, m);
    if d > 0 {
      PackAt(fs[1..], m, d - 1, b);
    }
  }

  lemma {:induction false} PackUnpack(w: Bits, n: nat, m: nat)
    requires Times(n, m) == |w|
    ensures Pack(Unpack(w, n, m)) == w
  {
    if n > 0 {
      PackUnpack(w[m..], n - 1, m);
    }
  }

  lemma {:induction false} UnpackPack(fs: seq<Bits>, m: nat)
    requires Fields(fs, m)
    ensures |Pack(fs)| == Times(|fs|, m)
    ensures Unpack(Pack(fs), |fs|, m) == fs
  {
    PackLength(fs, m);
    if fs != [] {
      UnpackPack(fs[1..], m);
      assert Pack(fs)[m..] == Pack(fs[1..]);
    }
  }

  lemma {:induction false} Split(p: nat, n: nat, m: nat) returns (d: nat, b: nat)
    requires p < Times(n, m)
    ensures d < n && b < m && p == Times(d, m) + b
  {
    if p < m {
      d, b := 0, p;
    } else {
      d, b := Split(p - m, n - 1, m);
      d := d + 1;
    }
  }

  /** Field d of the result holds bit d of every field of w. */
  function Transpose(n: nat, m: nat, w: Word): (r: Word)
    requires Times(n, m) <= WIDTH
  {
    var cs := Columns(Unpack(w[..Times(n, m)], n, m), m);
    PackLength(cs, n);
    TimesCommutes(n, m);
    Pad(Pack(cs))
  }

  ghost predicate FitsBelow(w: Word, k: nat) {
    forall i :: k <= i < WIDTH ==> !w[i]
  }

  lemma ColumnsOfColumns(fs: seq<Bits>, m: nat)
    requires Fields(fs, m)
    ensures Columns(Columns(fs, m), |fs|) == fs
  {
    var cs := Columns(fs, m);
    forall d | 0 <= d < |fs|
      ensures Column(cs, |fs|, d) == fs[d]
    {
    }
  }

  /** Transposing with the arguments swapped undoes a transposition. */
  lemma TransposeInverse(n: nat, m: nat, w: Word)
    requires Times(n, m) <= WIDTH && FitsBelow(w, Times(n, m))
    ensures Times(m, n) <= WIDTH && Transpose(m, n, Transpose(n, m, w)) == w
  {
    var k := Times(n, m);
    var fs := Unpack(w[..k], n, m);
    TimesCommutes(n, m);
    UnpackPack(Columns(fs, m), n);
    assert Transpose(n, m, w)[..k] == Pack(Columns(fs, m));
    ColumnsOfColumns(fs, m);
    PackUnpack(w[..k], n, m);
  }

  // ----- the log-step transposition
  //
  // Every round halves the runs of bits that are still in field order. A block is such a run: with
  // lowest row b it starts at bit Times(b, n) of the word and holds n fields of len bits. A set of
  // rows says where the blocks are.

  ghost predicate Apart(rows: set<nat>, len: nat, m: nat) {
    && (forall b :: b in rows ==> b + len <= m)
    && (forall b, c :: b in rows && c in rows && b < c ==> b + len <= c)
  }

  lemma BlocksApart(n: nat, len: nat, b: nat, c: nat)
    requires b + len <= c
    ensures Times(b, n) + Times(len, n) <= Times(c, n)
  {
    TimesAdd(b, len, n);
    TimesMonotone(b + len, c, n);
  }

  ghost predicate InRun(n: nat, rows: set<nat>, len: nat, b: nat, p: nat) {
    b in rows && Times(b, n) <= p < Times(b, n) + len
  }

  ghost predicate Masked(n: nat, rows: set<nat>, len: nat, p: int) {
    p >= 0 && exists b :: InRun(n, rows, len, b, p)
  }

  /** The word with ones in the first len bits of every block. */
  ghost predicate RunMask(w: Word, n: nat, rows: set<nat>, len: nat) {
    forall p :: 0 <= p < WIDTH ==> w[p] == Masked(n, rows, len, p)
  }

  ghost predicate HasBit(n: nat, rows: set<nat>, len: nat, f: Bits, b: nat, p: nat) {
    InRun(n, rows, len, b, p) && b + p - Times(b, n) < |f| && f[b + p - Times(b, n)]
  }

  ghost predicate FieldBit(n: nat, rows: set<nat>, len: nat, f: Bits, p: int) {
    p >= 0 && exists b :: HasBit(n, rows, len, f, b, p)
  }

  /** The word holding one field, its bits at the start of every block. */
  ghost predicate FieldWord(w: Word, n: nat, rows: set<nat>, len: nat, f: Bits) {
    forall p :: 0 <= p < WIDTH ==> w[p] == FieldBit(n, rows, len, f, p)
  }

  ghost predicate HasFieldBit(n: nat, rows: set<nat>, len: nat, fs: seq<Bits>, b: nat, d: nat, p: nat) {
    d < |fs| && Times(d, len) <= p && HasBit(n, rows, len, fs[d], b, p - Times(d, len))
  }

  /** The word holding all fields, field d at distance Times(d, len) from the start of every block. */
  ghost predicate Packed(w: Word, n: nat, rows: set<nat>, len: nat, fs: seq<Bits>) {
    forall p :: 0 <= p < WIDTH ==> (w[p] <==> exists b, d :: HasFieldBit(n, rows, len, fs, b, d, p))
  }

  lemma FieldEnd(n: nat, len: nat, d: nat)
    requires d < n
    ensures Times(d, len) + len <= Times(len, n)
  {
    TimesMonotone(d + 1, n, len);
    TimesCommutes(n, len);
  }

  /** A position belongs to one field of one block only. */
  lemma PlaceUnique(n: nat, m: nat, rows: set<nat>, len: nat, b: nat, d: nat, p: nat, c: nat, e: nat, q: nat)
    requires Apart(rows, len, m) && InRun(n, rows, len, b, p) && InRun(n, rows, len, c, q) && d < n && e < n
    requires p + Times(d, len) == q + Times(e, len)
    ensures b == c && d == e
  {
    FieldEnd(n, len, d);
    FieldEnd(n, len, e);
    if c < b {
      BlocksApart(n, len, c, b);
    } else if b < c {
      BlocksApart(n, len, b, c);
    } else {
      HighLowUnique(d, p - Times(b, n), e, q - Times(b, n), len);
    }
  }

  lemma HasBitIs(n: nat, m: nat, rows: set<nat>, len: nat, f: Bits, b: nat, p: nat)
    requires n >= 1 && Apart(rows, len, m) && InRun(n, rows, len, b, p) && |f| == m
    ensures FieldBit(n, rows, len, f, p) == f[b + p - Times(b, n)]
  {
    if f[b + p - Times(b, n)] {
      assert HasBit(n, rows, len, f, b, p);
    }
    forall c: nat | HasBit(n, rows, len, f, c, p)
      ensures c == b
    {
      PlaceUnique(n, m, rows, len, b, 0, p, c, 0, p);
    }
  }

  lemma HasFieldBitIs(n: nat, m: nat, rows: set<nat>, len: nat, fs: seq<Bits>, b: nat, d: nat, p: nat, q: nat)
    requires q == p + Times(d, len)
    requires |fs| == n && Fields(fs, m) && Apart(rows, len, m) && InRun(n, rows, len, b, p) && d < n
    ensures (exists c, e :: HasFieldBit(n, rows, len, fs, c, e, q)) <==> fs[d][b + p - Times(b, n)]
  {
    if fs[d][b + p - Times(b, n)] {
      assert HasFieldBit(n, rows, len, fs, b, d, q);
    }
    forall c: nat, e: nat | HasFieldBit(n, rows, len, fs, c, e, q)
      ensures c == b && e == d
    {
      PlaceUnique(n, m, rows, len, b, d, p, c, e, q - Times(e, len));
    }
  }

  /** Within its run, field d of a packed word is read at distance Times(d, len). */
  lemma {:induction false} ReadField(n: nat, m: nat, rows: set<nat>, len: nat, fs: seq<Bits>, w: Word, b: nat, d: nat, p: nat)
    requires |fs| == n && Fields(fs, m) && Apart(rows, len, m) && Packed(w, n, rows, len, fs)
    requires InRun(n, rows, len, b, p) && d < n && Times(m, n) <= WIDTH
    ensures p + Times(d, len) < WIDTH && w[p + Times(d, len)] == fs[d][b + p - Times(b, n)]
  {
    hide Times;
    FieldEnd(n, len, d);
    BlocksApart(n, len, b, m);
    HasFieldBitIs(n, m, rows, len, fs, b, d, p, p + Times(d, len));
  }

  /** cur is w shifted right by off bits, where off may reach the width. */
  ghost predicate Shifted(cur: Word, w: Word, off: nat) {
    forall p :: 0 <= p < WIDTH ==> cur[p] == (p + off < WIDTH && w[p + off])
  }

  lemma NotShifted(w: Word)
    ensures Shifted(w, w, 0)
  {
  }

  lemma ShiftedStep(cur: Word, w: Word, d: nat, len: nat)
    requires len < WIDTH && Shifted(cur, w, Times(d, len))
    ensures Shifted(ShiftRight(cur, len), w, Times(d + 1, len))
  {
    TimesAdd(1, d, len);
  }

  /** Masking the shifted word picks one field of all blocks at once. */
  lemma PickField(n: nat, m: nat, rows: set<nat>, len: nat, fs: seq<Bits>, w: Word, cur: Word, mask: Word, d: nat)
    requires |fs| == n && Fields(fs, m) && Apart(rows, len, m) && Packed(w, n, rows, len, fs)
    requires d < n && Times(m, n) <= WIDTH && RunMask(mask, n, rows, len)
    requires Shifted(cur, w, Times(d, len))
    ensures FieldWord(And(cur, mask), n, rows, len, fs[d])
  {
    hide Times, Apart, Packed, FieldBit, Masked;
    forall p | 0 <= p < WIDTH
      ensures And(cur, mask)[p] == FieldBit(n, rows, len, fs[d], p)
    {
      if Masked(n, rows, len, p) {
        PickBit(n, m, rows, len, fs, w, d, p);
      } else {
        NoBit(n, rows, len, fs[d], p);
      }
    }
  }

  lemma {:induction false} PickBit(n: nat, m: nat, rows: set<nat>, len: nat, fs: seq<Bits>, w: Word, d: nat, p: nat)
    requires |fs| == n && Fields(fs, m) && Apart(rows, len, m) && Packed(w, n, rows, len, fs)
    requires d < n && Times(m, n) <= WIDTH && Masked(n, rows, len, p)
    ensures p + Times(d, len) < WIDTH && w[p + Times(d, len)] == FieldBit(n, rows, len, fs[d], p)
  {
    hide Times, Apart, Packed, FieldBit;
    var b: nat :| InRun(n, rows, len, b, p);
    RunInside(n, m, rows, len, b, p);
    ReadField(n, m, rows, len, fs, w, b, d, p);
    HasBitIs(n, m, rows, len, fs[d], b, p);
  }

  /** The blocks of the next round: every block cut into its u lower and its u next rows. */
  ghost function Halved(rows: set<nat>, u: nat): (r: set<nat>) {
    rows + Raised(rows, u)
  }

  ghost function Raised(rows: set<nat>, u: nat): (r: set<nat>)
    ensures forall c {:trigger c in r} :: c in r <==> c >= u && c - u in rows
    decreases |rows|
  {
    if rows == {} then {} else
      var b :| b in rows;
      Raised(rows - {b}, u) + {b + u}
  }

  lemma HalvedApart(rows: set<nat>, len: nat, u: nat, m: nat)
    requires Apart(rows, len, m) && 2 * u <= len
    ensures Apart(Halved(rows, u), u, m) && Apart(rows, 2 * u, m)
  {
  }

  lemma RowWidth(n: nat, u: nat)
    requires n >= 1
    ensures Times(u, n) == Times(n, u) == u + Times(n - 1, u)
    ensures Times(2 * u, n) == 2 * Times(u, n)
  {
    TimesCommutes(u, n);
    TimesDouble(u, n);
  }

  /** The low half of a run stays in place, the high half moves to the next block, and nothing else survives the mask. */
  lemma SpreadBit(n: nat, m: nat, rows: set<nat>, u: nat, f: Bits, c: nat, p: nat, q: nat)
    requires n >= 1 && |f| == m && Apart(rows, 2 * u, m) && InRun(n, Halved(rows, u), u, c, p)
    requires q == p - Times(n - 1, u) || q == p
    requires FieldBit(n, rows, 2 * u, f, q)
    ensures f[c + p - Times(c, n)]
  {
    hide Raised, Times;
    var b: nat :| HasBit(n, rows, 2 * u, f, b, q);
    var a := if c in rows then c else c - u;
    assert a in rows;
    RowWidth(n, u);
    TimesAdd(a, c - a, n);
    if b < a {
      BlocksApart(n, 2 * u, b, a);
    } else if a < b {
      BlocksApart(n, 2 * u, a, b);
    }
    TimesZeroOne(u);
    TimesCommutes(1, u);
    if n >= 2 {
      TimesMonotone(1, n - 1, u);
    }
  }

  lemma Spread(n: nat, m: nat, rows: set<nat>, u: nat, f: Bits, w: Word, mask: Word)
    requires n >= 1 && |f| == m && Apart(rows, 2 * u, m) && Times(n - 1, u) < WIDTH
    requires FieldWord(w, n, rows, 2 * u, f) && RunMask(mask, n, Halved(rows, u), u)
    ensures FieldWord(And(Or(w, ShiftLeft(w, Times(n - 1, u))), mask), n, Halved(rows, u), u, f)
  {
    hide Times, FieldBit, Halved, Apart;
    HalvedApart(rows, 2 * u, u, m);
    forall p | 0 <= p < WIDTH
      ensures And(Or(w, ShiftLeft(w, Times(n - 1, u))), mask)[p] == FieldBit(n, Halved(rows, u), u, f, p)
    {
      if Masked(n, Halved(rows, u), u, p) {
        SpreadAt(n, m, rows, u, f, p);
        if FieldBit(n, rows, 2 * u, f, p - Times(n - 1, u)) {
          BitPlace(n, rows, 2 * u, f, p - Times(n - 1, u));
        }
      } else {
        NoBit(n, Halved(rows, u), u, f, p);
      }
    }
  }

  /** A bit of the halved blocks comes from its old place or from a half block lower. */
  lemma SpreadAt(n: nat, m: nat, rows: set<nat>, u: nat, f: Bits, p: nat)
    requires n >= 1 && |f| == m && Apart(rows, 2 * u, m) && Apart(Halved(rows, u), u, m)
    requires Masked(n, Halved(rows, u), u, p)
    ensures FieldBit(n, Halved(rows, u), u, f, p)
      <==> FieldBit(n, rows, 2 * u, f, p) || FieldBit(n, rows, 2 * u, f, p - Times(n - 1, u))
  {
    hide Times, FieldBit, Halved, Apart;
    var c: nat :| InRun(n, Halved(rows, u), u, c, p);
    RunInside(n, m, Halved(rows, u), u, c, p);
    HasBitIs(n, m, Halved(rows, u), u, f, c, p);
    if FieldBit(n, rows, 2 * u, f, p) {
      SpreadBit(n, m, rows, u, f, c, p, p);
    }
    if FieldBit(n, rows, 2 * u, f, p - Times(n - 1, u)) {
      BitPlace(n, rows, 2 * u, f, p - Times(n - 1, u));
      SpreadBit(n, m, rows, u, f, c, p, p - Times(n - 1, u));
    }
    if f[c + p - Times(c, n)] {
      SpreadBitBack(n, rows, u, f, c, p);
    }
  }

  lemma RunInside(n: nat, m: nat, rows: set<nat>, len: nat, b: nat, p: nat)
    requires Apart(rows, len, m) && InRun(n, rows, len, b, p)
    ensures Times(b, n) <= p && b + p - Times(b, n) < m
  {
  }

  lemma BitPlace(n: nat, rows: set<nat>, len: nat, f: Bits, p: int)
    requires FieldBit(n, rows, len, f, p)
    ensures p >= 0
  {
  }

  lemma NoBit(n: nat, rows: set<nat>, len: nat, f: Bits, p: nat)
    requires !Masked(n, rows, len, p)
    ensures !FieldBit(n, rows, len, f, p)
  {
  }

  lemma SpreadBitBack(n: nat, rows: set<nat>, u: nat, f: Bits, c: nat, p: nat)
    requires n >= 1 && InRun(n, Halved(rows, u), u, c, p) && c + p - Times(c, n) < |f| && f[c + p - Times(c, n)]
    ensures FieldBit(n, rows, 2 * u, f, p) || FieldBit(n, rows, 2 * u, f, p - Times(n - 1, u))
  {
    if c in rows {
      assert HasBit(n, rows, 2 * u, f, c, p);
    } else {
      RowWidth(n, u);
      TimesAdd(c - u, u, n);
      assert HasBit(n, rows, 2 * u, f, c - u, p - Times(n - 1, u));
    }
  }

  // ----- masks

  ghost predicate StartAt(n: nat, rows: set<nat>, b: nat, p: nat) {
    b in rows && p == Times(b, n)
  }

  ghost predicate IsStart(n: nat, rows: set<nat>, p: int) {
    p >= 0 && exists b :: StartAt(n, rows, b, p)
  }

  /** The word with a one at the start of every block. */
  ghost predicate Starts(w: Word, n: nat, rows: set<nat>) {
    forall p :: 0 <= p < WIDTH ==> w[p] == IsStart(n, rows, p)
  }

  lemma InHalved(rows: set<nat>, u: nat, b: nat)
    requires b in rows
    ensures b in Halved(rows, u) && b + u in Halved(rows, u)
  {
  }

  lemma StartMoves(n: nat, rows: set<nat>, u: nat, b: nat, p: nat, q: nat)
    requires StartAt(n, rows, b, p) && q == p + Times(u, n)
    ensures IsStart(n, Halved(rows, u), p) && IsStart(n, Halved(rows, u), q)
  {
    hide Raised, Times, Halved;
    InHalved(rows, u, b);
    TimesAdd(b, u, n);
    assert StartAt(n, Halved(rows, u), b, p);
    assert StartAt(n, Halved(rows, u), b + u, q);
  }

  lemma StartCameFrom(n: nat, rows: set<nat>, u: nat, c: nat, p: nat)
    requires StartAt(n, Halved(rows, u), c, p)
    ensures IsStart(n, rows, p) || IsStart(n, rows, p - Times(u, n))
  {
    hide Raised, Times;
    if c in rows {
      assert StartAt(n, rows, c, p);
    } else {
      var b := c - u;
      TimesAdd(b, u, n);
      var q := p - Times(u, n);
      assert StartAt(n, rows, b, q);
    }
  }

  lemma NextStart(n: nat, rows: set<nat>, u: nat, p: nat)
    ensures IsStart(n, Halved(rows, u), p) <==> IsStart(n, rows, p) || IsStart(n, rows, p - Times(u, n))
  {
    hide Halved, Times;
    if IsStart(n, rows, p) {
      var b: nat :| StartAt(n, rows, b, p);
      StartMoves(n, rows, u, b, p, p + Times(u, n));
    }
    var q := p - Times(u, n);
    if IsStart(n, rows, q) {
      var b: nat :| StartAt(n, rows, b, q);
      StartMoves(n, rows, u, b, q, p);
    }
    if IsStart(n, Halved(rows, u), p) {
      var c: nat :| StartAt(n, Halved(rows, u), c, p);
      StartCameFrom(n, rows, u, c, p);
    }
  }

  lemma NextStarts(n: nat, rows: set<nat>, u: nat, ends: Word)
    requires Starts(ends, n, rows) && Times(u, n) < WIDTH
    ensures Starts(Or(ends, ShiftLeft(ends, Times(u, n))), n, Halved(rows, u))
  {
    hide IsStart;
    var r := Or(ends, ShiftLeft(ends, Times(u, n)));
    forall p | 0 <= p < WIDTH
      ensures r[p] == IsStart(n, Halved(rows, u), p)
    {
      NextStart(n, rows, u, p);
      if p < Times(u, n) {
        NoStartBelow(n, rows, p - Times(u, n));
      }
    }
  }

  lemma NoStartBelow(n: nat, rows: set<nat>, p: int)
    requires p < 0
    ensures !IsStart(n, rows, p)
  {
  }

  /** Subtracting the starts from the starts moved up by len borrows exactly through the runs. */
  lemma BorrowAt(n: nat, m: nat, rows: set<nat>, len: nat, ends: Word, p: nat)
    requires n >= 1 && len >= 1 && Apart(rows, len, m) && Starts(ends, n, rows) && p < WIDTH
    ensures var a, prev := p >= len && ends[p - len], Masked(n, rows, len, p - 1);
      && ((a != !ends[p]) != !prev) == Masked(n, rows, len, p)
      && Majority(a, !ends[p], !prev) == !Masked(n, rows, len, p)
  {
    RowWidth(n, len);
    if ends[p] {
      var b: nat :| StartAt(n, rows, b, p);
      assert InRun(n, rows, len, b, p);
      EndMeetsStart(n, m, rows, len, ends, b, p);
    } else if Masked(n, rows, len, p) {
      var b: nat :| InRun(n, rows, len, b, p);
      assert p == Times(b, n) ==> StartAt(n, rows, b, p);
      assert InRun(n, rows, len, b, p - 1);
      if p >= len && ends[p - len] {
        var c: nat :| StartAt(n, rows, c, p - len);
        if c < b {
          BlocksApart(n, len, c, b);
        } else if b < c {
          BlocksApart(n, len, b, c);
        }
      }
    } else {
      EndAfterRun(n, rows, len, ends, p);
    }
  }

  lemma EndMeetsStart(n: nat, m: nat, rows: set<nat>, len: nat, ends: Word, b: nat, p: nat)
    requires n >= 1 && len >= 1 && Apart(rows, len, m) && Starts(ends, n, rows) && p < WIDTH && StartAt(n, rows, b, p)
    ensures (p >= len && ends[p - len]) == Masked(n, rows, len, p - 1)
  {
    RowWidth(n, len);
    if p >= len && ends[p - len] {
      var c: nat :| StartAt(n, rows, c, p - len);
      assert InRun(n, rows, len, c, p - 1);
    }
    if Masked(n, rows, len, p - 1) {
      var c: nat :| InRun(n, rows, len, c, p - 1);
      if c < b {
        BlocksApart(n, len, c, b);
      } else if b < c {
        BlocksApart(n, len, b, c);
      }
      assert StartAt(n, rows, c, p - len);
    }
  }

  lemma EndAfterRun(n: nat, rows: set<nat>, len: nat, ends: Word, p: nat)
    requires len >= 1 && Starts(ends, n, rows) && p < WIDTH && !Masked(n, rows, len, p)
    ensures (p >= len && ends[p - len]) == Masked(n, rows, len, p - 1)
  {
    if p >= len && ends[p - len] {
      var c: nat :| StartAt(n, rows, c, p - len);
      assert InRun(n, rows, len, c, p - 1);
    }
    if Masked(n, rows, len, p - 1) {
      var c: nat :| InRun(n, rows, len, c, p - 1);
      assert !InRun(n, rows, len, c, p);
      assert StartAt(n, rows, c, p - len);
    }
  }

  lemma MaskOfStarts(n: nat, m: nat, rows: set<nat>, len: nat, ends: Word)
    requires n >= 1 && 1 <= len < WIDTH && Apart(rows, len, m) && Starts(ends, n, rows)
    ensures RunMask(Subtract(ShiftLeft(ends, len), ends), n, rows, len)
  {
    SubtractSuffix(n, m, rows, len, ends, 0);
    var a, b := ShiftLeft(ends, len), Not(ends);
    assert a[0..] == a && b[0..] == b;
  }

  ghost function MaskWord(n: nat, rows: set<nat>, len: nat): Word {
    seq(WIDTH, p => Masked(n, rows, len, p))
  }

  lemma {:induction false} SubtractSuffix(n: nat, m: nat, rows: set<nat>, len: nat, ends: Word, k: nat)
    requires n >= 1 && 1 <= len < WIDTH && Apart(rows, len, m) && Starts(ends, n, rows) && k <= WIDTH
    ensures AddCarry(ShiftLeft(ends, len)[k..], Not(ends)[k..], !Masked(n, rows, len, k - 1)) == MaskWord(n, rows, len)[k..]
    decreases WIDTH - k
  {
    hide AddCarry, Masked, Starts, Apart;
    if k == WIDTH {
      NoSuffix(ShiftLeft(ends, len), Not(ends), MaskWord(n, rows, len), !Masked(n, rows, len, k - 1));
    } else {
      var a, b, r := ShiftLeft(ends, len), Not(ends), MaskWord(n, rows, len);
      BorrowAt(n, m, rows, len, ends, k);
      SubtractSuffix(n, m, rows, len, ends, k + 1);
      CarrySuffix(a, b, r, k, !Masked(n, rows, len, k - 1), !Masked(n, rows, len, k));
    }
  }

  lemma NoSuffix(a: Bits, b: Bits, r: Bits, carry: bool)
    requires |a| == |b| == |r|
    ensures AddCarry(a[|a|..], b[|a|..], carry) == r[|a|..]
  {
  }

  lemma CarrySuffix(a: Bits, b: Bits, r: Bits, k: nat, carry: bool, next: bool)
    requires k < |a| == |b| == |r| && r[k] == ((a[k] != b[k]) != carry) && next == Majority(a[k], b[k], carry)
    requires AddCarry(a[k + 1..], b[k + 1..], next) == r[k + 1..]
    ensures AddCarry(a[k..], b[k..], carry) == r[k..]
  {
    assert a[k..][1..] == a[k + 1..] && b[k..][1..] == b[k + 1..];
    assert r[k..] == [r[k]] + r[k + 1..];
  }

  // ----- rows already in place

  ghost predicate StoredAt(n: nat, fs: seq<Bits>, rows: set<nat>, tops: set<nat>, d: nat, b: nat, e: nat, p: nat) {
    && e < |fs| && ((b in rows && e < n) || (b in tops && e < d))
    && p == Times(b, n) + e && b < |fs[e]| && fs[e][b]
  }

  ghost predicate Stored(n: nat, fs: seq<Bits>, rows: set<nat>, tops: set<nat>, d: nat, p: nat) {
    exists b, e :: StoredAt(n, fs, rows, tops, d, b, e, p)
  }

  /** The word holding the finished rows and, of the rows in tops, the bits of the first d fields. */
  ghost predicate RowsWord(w: Word, n: nat, fs: seq<Bits>, rows: set<nat>, tops: set<nat>, d: nat) {
    forall p :: 0 <= p < WIDTH ==> w[p] == Stored(n, fs, rows, tops, d, p)
  }

  ghost function Tops(rows: set<nat>, u: nat): set<nat> {
    Raised(rows, 2 * u)
  }

  ghost predicate TopAt(n: nat, rows: set<nat>, u: nat, f: Bits, b: nat, q: nat) {
    b in rows && q == Times(b, n) + 2 * u && b + 2 * u < |f| && f[b + 2 * u]
  }

  ghost predicate IsTop(n: nat, rows: set<nat>, u: nat, f: Bits, q: int) {
    q >= 0 && exists b :: TopAt(n, rows, u, f, b, q)
  }

  lemma TopOfRun(n: nat, m: nat, rows: set<nat>, u: nat, f: Bits, b: nat, q: nat)
    requires n >= 1 && |f| == m && Apart(rows, 2 * u + 1, m) && q >= 2 * u && StartAt(n, rows, b, q - 2 * u)
    ensures !FieldBit(n, rows, 2 * u, f, q)
    ensures FieldBit(n, rows, 2 * u + 1, f, q) == f[b + 2 * u]
    ensures IsTop(n, rows, u, f, q) == f[b + 2 * u]
  {
    var len := 2 * u + 1;
    HasBitIs(n, m, rows, len, f, b, q);
    forall c: nat | HasBit(n, rows, 2 * u, f, c, q)
      ensures false
    {
      PlaceUnique(n, m, rows, len, b, 0, q, c, 0, q);
    }
    assert f[b + 2 * u] ==> TopAt(n, rows, u, f, b, q);
    forall c: nat | TopAt(n, rows, u, f, c, q)
      ensures c == b
    {
      PlaceUnique(n, m, rows, len, b, 0, q, c, 0, q);
    }
  }

  /** The starts moved up to the top bit of every odd run split a field into its top bits and the rest. */
  lemma TopBit(n: nat, m: nat, rows: set<nat>, u: nat, f: Bits, ends: Word, w: Word, q: nat)
    requires n >= 1 && |f| == m && Apart(rows, 2 * u + 1, m) && Starts(ends, n, rows)
    requires FieldWord(w, n, rows, 2 * u + 1, f) && 2 * u < WIDTH && q < WIDTH
    ensures And(w, ShiftLeft(ends, 2 * u))[q] == IsTop(n, rows, u, f, q)
    ensures And(w, Not(ShiftLeft(ends, 2 * u)))[q] == FieldBit(n, rows, 2 * u, f, q)
  {
    if ShiftLeft(ends, 2 * u)[q] {
      var b: nat :| StartAt(n, rows, b, q - 2 * u);
      TopOfRun(n, m, rows, u, f, b, q);
    } else {
      TopBitBelow(n, rows, u, f, ends, q);
    }
  }

  lemma TopBitBelow(n: nat, rows: set<nat>, u: nat, f: Bits, ends: Word, q: nat)
    requires Starts(ends, n, rows) && 2 * u < WIDTH && q < WIDTH && !ShiftLeft(ends, 2 * u)[q]
    ensures !IsTop(n, rows, u, f, q)
    ensures FieldBit(n, rows, 2 * u + 1, f, q) == FieldBit(n, rows, 2 * u, f, q)
  {
    forall b: nat
      ensures !TopAt(n, rows, u, f, b, q)
    {
      assert TopAt(n, rows, u, f, b, q) ==> StartAt(n, rows, b, q - 2 * u);
    }
    if FieldBit(n, rows, 2 * u + 1, f, q) {
      var b: nat :| HasBit(n, rows, 2 * u + 1, f, b, q);
      assert q == Times(b, n) + 2 * u ==> StartAt(n, rows, b, q - 2 * u);
      assert HasBit(n, rows, 2 * u, f, b, q);
    }
    if FieldBit(n, rows, 2 * u, f, q) {
      var b: nat :| HasBit(n, rows, 2 * u, f, b, q);
      assert HasBit(n, rows, 2 * u + 1, f, b, q);
    }
  }

  lemma StoredNext(n: nat, fs: seq<Bits>, done: set<nat>, rows: set<nat>, u: nat, d: nat, p: nat)
    requires |fs| == n && d < n
    ensures Stored(n, fs, done, Tops(rows, u), d + 1, p) <==>
            Stored(n, fs, done, Tops(rows, u), d, p) || IsTop(n, rows, u, fs[d], p - (2 * Times(n - 1, u) + d))
  {
    hide Raised, Times;
    var shift, next, tops := 2 * Times(n - 1, u) + d, d + 1, Tops(rows, u);
    if Stored(n, fs, done, tops, d, p) {
      var b: nat, e: nat :| StoredAt(n, fs, done, tops, d, b, e, p);
      assert StoredAt(n, fs, done, tops, next, b, e, p);
    }
    if IsTop(n, rows, u, fs[d], p - shift) {
      var b: nat :| TopAt(n, rows, u, fs[d], b, p - shift);
      TopPlace(n, u, b, d);
      assert StoredAt(n, fs, done, tops, next, b + 2 * u, d, p);
    }
    if Stored(n, fs, done, tops, next, p) {
      var b: nat, e: nat :| StoredAt(n, fs, done, tops, next, b, e, p);
      if b in done || e < d {
        assert StoredAt(n, fs, done, tops, d, b, e, p);
      } else {
        TopPlace(n, u, b - 2 * u, d);
        assert TopAt(n, rows, u, fs[d], b - 2 * u, p - shift);
      }
    }
  }

  /** Moved to their rows, the top bits of field d are what the finished rows were missing of it. */
  lemma StoreTops(n: nat, fs: seq<Bits>, done: set<nat>, rows: set<nat>, u: nat, d: nat, coords: Word, top: Word)
    requires |fs| == n && d < n && 2 * Times(n - 1, u) + d < WIDTH
    requires RowsWord(coords, n, fs, done, Tops(rows, u), d)
    requires forall q :: 0 <= q < WIDTH ==> top[q] == IsTop(n, rows, u, fs[d], q)
    ensures RowsWord(Or(coords, ShiftLeft(top, 2 * Times(n - 1, u) + d)), n, fs, done, Tops(rows, u), d + 1)
  {
    var shift := 2 * Times(n - 1, u) + d;
    var r := Or(coords, ShiftLeft(top, shift));
    forall p | 0 <= p < WIDTH
      ensures r[p] == Stored(n, fs, done, Tops(rows, u), d + 1, p)
    {
      StoredNext(n, fs, done, rows, u, d, p);
      assert p < shift ==> !IsTop(n, rows, u, fs[d], p - shift);
    }
  }

  lemma TopPlace(n: nat, u: nat, b: nat, d: nat)
    requires n >= 1
    ensures Times(b, n) + 2 * u + (2 * Times(n - 1, u) + d) == Times(b + 2 * u, n) + d
  {
    RowWidth(n, u);
    TimesAdd(b, 2 * u, n);
  }

  // ----- one round, first and last state

  ghost predicate Placed(n: nat, rows: set<nat>, len: nat, fs: seq<Bits>, p: nat) {
    exists b, d :: HasFieldBit(n, rows, len, fs, b, d, p)
  }

  lemma PlacedNext(n: nat, rows: set<nat>, len: nat, fs: seq<Bits>, d: nat, p: nat)
    requires d < |fs|
    ensures Placed(n, rows, len, fs[..d + 1], p) <==>
            Placed(n, rows, len, fs[..d], p) || FieldBit(n, rows, len, fs[d], p - Times(d, len))
  {
    hide HasBit, Times, HasFieldBit;
    if Placed(n, rows, len, fs[..d], p) {
      var b: nat, e: nat :| HasFieldBit(n, rows, len, fs[..d], b, e, p);
      SameFieldBit(n, rows, len, fs, d, b, e, p);
    }
    if FieldBit(n, rows, len, fs[d], p - Times(d, len)) {
      var b: nat :| HasBit(n, rows, len, fs[d], b, p - Times(d, len));
      LastFieldBit(n, rows, len, fs, d, b, p);
    }
    if Placed(n, rows, len, fs[..d + 1], p) {
      var b: nat, e: nat :| HasFieldBit(n, rows, len, fs[..d + 1], b, e, p);
      SameFieldBit(n, rows, len, fs, d, b, e, p);
      LastFieldBit(n, rows, len, fs, d, b, p);
    }
  }

  lemma SameFieldBit(n: nat, rows: set<nat>, len: nat, fs: seq<Bits>, d: nat, b: nat, e: nat, p: nat)
    requires d < |fs|
    ensures HasFieldBit(n, rows, len, fs[..d + 1], b, e, p) && e != d ==> HasFieldBit(n, rows, len, fs[..d], b, e, p)
    ensures HasFieldBit(n, rows, len, fs[..d], b, e, p) ==> HasFieldBit(n, rows, len, fs[..d + 1], b, e, p)
  {
    hide HasBit, Times;
  }

  lemma LastFieldBit(n: nat, rows: set<nat>, len: nat, fs: seq<Bits>, d: nat, b: nat, p: nat)
    requires d < |fs|
    ensures HasFieldBit(n, rows, len, fs[..d + 1], b, d, p)
      <==> p >= Times(d, len) && HasBit(n, rows, len, fs[d], b, p - Times(d, len))
  {
    hide HasBit, Times;
  }

  lemma AddField(n: nat, rows: set<nat>, len: nat, fs: seq<Bits>, d: nat, w: Word, f: Word)
    requires d < |fs| && Times(d, len) < WIDTH
    requires Packed(w, n, rows, len, fs[..d]) && FieldWord(f, n, rows, len, fs[d])
    ensures Packed(Or(w, ShiftLeft(f, Times(d, len))), n, rows, len, fs[..d + 1])
  {
    hide HasBit, HasFieldBit, Times;
    forall p | 0 <= p < WIDTH
      ensures Or(w, ShiftLeft(f, Times(d, len)))[p] == Placed(n, rows, len, fs[..d + 1], p)
    {
      AddFieldAt(n, rows, len, fs, d, w, f, p);
    }
  }

  lemma AddFieldAt(n: nat, rows: set<nat>, len: nat, fs: seq<Bits>, d: nat, w: Word, f: Word, p: nat)
    requires d < |fs| && Times(d, len) < WIDTH && p < WIDTH
    requires Packed(w, n, rows, len, fs[..d]) && FieldWord(f, n, rows, len, fs[d])
    ensures Or(w, ShiftLeft(f, Times(d, len)))[p] == Placed(n, rows, len, fs[..d + 1], p)
  {
    hide HasBit, HasFieldBit, Times;
    PlacedNext(n, rows, len, fs, d, p);
    assert w[p] == Placed(n, rows, len, fs[..d], p);
    if p >= Times(d, len) {
      assert f[p - Times(d, len)] == FieldBit(n, rows, len, fs[d], p - Times(d, len));
    }
  }

  lemma NonePacked(n: nat, rows: set<nat>, len: nat, fs: seq<Bits>)
    ensures Packed(Zeros(WIDTH), n, rows, len, fs[..0])
  {
    forall p | 0 <= p < WIDTH
      ensures !Placed(n, rows, len, fs[..0], p)
    {
    }
  }

  lemma FirstBit(n: nat, m: nat, fs: seq<Bits>, p: nat)
    requires |fs| == n && Fields(fs, m) && p < Times(n, m)
    ensures |Pack(fs)| == Times(n, m) && Placed(n, {0}, m, fs, p) == Pack(fs)[p]
  {
    var d, b := Split(p, n, m);
    PackAt(fs, m, d, b);
    assert InRun(n, {0}, m, 0, b);
    HasFieldBitIs(n, m, {0}, m, fs, 0, d, b, p);
  }

  lemma FirstPacked(n: nat, m: nat, w: Word, fs: seq<Bits>)
    requires Times(n, m) <= WIDTH && FitsBelow(w, Times(n, m)) && fs == Unpack(w[..Times(n, m)], n, m)
    ensures Packed(w, n, {0}, m, fs)
  {
    PackUnpack(w[..Times(n, m)], n, m);
    forall p | 0 <= p < WIDTH
      ensures w[p] == Placed(n, {0}, m, fs, p)
    {
      if p < Times(n, m) {
        FirstBit(n, m, fs, p);
      } else if Placed(n, {0}, m, fs, p) {
        var b: nat, d: nat :| HasFieldBit(n, {0}, m, fs, b, d, p);
        FieldEnd(n, m, d);
        TimesCommutes(n, m);
      }
    }
  }

  ghost predicate Covered(rows: set<nat>, len: nat, b: nat) {
    exists r :: r in rows && r <= b < r + len
  }

  /** Every row is finished or in a block. */
  ghost predicate AllRows(m: nat, done: set<nat>, rows: set<nat>, len: nat) {
    forall b :: 0 <= b < m ==> b in done || Covered(rows, len, b)
  }

  lemma HalvedCoversRow(rows: set<nat>, len: nat, u: nat, b: nat)
    requires (len == 2 * u || len == 2 * u + 1) && Covered(rows, len, b)
    ensures Covered(Halved(rows, u), u, b) || (len == 2 * u + 1 && b in Tops(rows, u))
  {
    hide Raised;
    var r :| r in rows && r <= b < r + len;
    InHalved(rows, u, r);
    if b < r + u {
      assert r in Halved(rows, u) && r <= b < r + u;
    } else if b < r + 2 * u {
      assert r + u in Halved(rows, u) && r + u <= b < r + u + u;
    }
  }

  lemma HalvedCovers(m: nat, done: set<nat>, rows: set<nat>, len: nat, u: nat)
    requires (len == 2 * u || len == 2 * u + 1) && AllRows(m, done, rows, len)
    ensures AllRows(m, if len == 2 * u + 1 then done + Tops(rows, u) else done, Halved(rows, u), u)
  {
    hide Raised, Halved, Tops, Covered;
    forall b | 0 <= b < m && b !in done
      ensures Covered(Halved(rows, u), u, b) || (len == 2 * u + 1 && b in Tops(rows, u))
    {
      HalvedCoversRow(rows, len, u, b);
    }
  }

  lemma FinishedRows(n: nat, fs: seq<Bits>, done: set<nat>, tops: set<nat>, w: Word)
    requires |fs| == n
    ensures RowsWord(w, n, fs, done, {}, 0) <==> RowsWord(w, n, fs, done, tops, 0)
    ensures RowsWord(w, n, fs, done, tops, n) <==> RowsWord(w, n, fs, done + tops, {}, 0)
  {
    forall p | 0 <= p < WIDTH
      ensures Stored(n, fs, done, {}, 0, p) == Stored(n, fs, done, tops, 0, p)
      ensures Stored(n, fs, done, tops, n, p) == Stored(n, fs, done + tops, {}, 0, p)
    {
      assert forall b, e :: StoredAt(n, fs, done, {}, 0, b, e, p) == StoredAt(n, fs, done, tops, 0, b, e, p);
      assert forall b, e :: StoredAt(n, fs, done, tops, n, b, e, p) == StoredAt(n, fs, done + tops, {}, 0, b, e, p);
    }
  }

  lemma LastBit(n: nat, m: nat, fs: seq<Bits>, done: set<nat>, rows: set<nat>, b: nat, e: nat, p: nat)
    requires |fs| == n && Fields(fs, m) && b < m && e < n && p == Times(b, n) + e
    ensures Stored(n, fs, done, {}, 0, p) == (b in done && fs[e][b])
    ensures Placed(n, rows, 1, fs, p) == (b in rows && fs[e][b])
  {
    assert b in done && fs[e][b] ==> StoredAt(n, fs, done, {}, 0, b, e, p);
    TimesZeroOne(e);
    assert b in rows && fs[e][b] ==> HasFieldBit(n, rows, 1, fs, b, e, p);
    forall c: nat, d: nat | StoredAt(n, fs, done, {}, 0, c, d, p)
      ensures c == b && d == e
    {
      HighLowUnique(b, e, c, d, n);
    }
    forall c: nat, d: nat | HasFieldBit(n, rows, 1, fs, c, d, p)
      ensures c == b && d == e
    {
      TimesZeroOne(d);
      HighLowUnique(b, e, c, d, n);
    }
  }

  lemma PlacedBelow(n: nat, m: nat, fs: seq<Bits>, done: set<nat>, rows: set<nat>, p: nat)
    requires |fs| == n && Fields(fs, m) && p >= Times(m, n)
    ensures !Stored(n, fs, done, {}, 0, p) && !Placed(n, rows, 1, fs, p)
  {
    if Stored(n, fs, done, {}, 0, p) {
      var b: nat, e: nat :| StoredAt(n, fs, done, {}, 0, b, e, p);
      HighLowOrder(b, e, m, n);
    }
    if Placed(n, rows, 1, fs, p) {
      var b: nat, e: nat :| HasFieldBit(n, rows, 1, fs, b, e, p);
      TimesZeroOne(e);
      HighLowOrder(b, e, m, n);
    }
  }

  /** With runs of one bit every row is in place. */
  lemma LastPacked(n: nat, m: nat, fs: seq<Bits>, done: set<nat>, rows: set<nat>, coords: Word, w: Word)
    requires |fs| == n && Fields(fs, m) && Times(m, n) <= WIDTH
    requires RowsWord(coords, n, fs, done, {}, 0) && Packed(w, n, rows, 1, fs) && AllRows(m, done, rows, 1)
    ensures |Pack(Columns(fs, m))| == Times(m, n) && Or(coords, w) == Pad(Pack(Columns(fs, m)))
  {
    var cs, r := Columns(fs, m), Or(coords, w);
    PackLength(cs, n);
    forall p | 0 <= p < WIDTH
      ensures r[p] == Pad(Pack(cs))[p]
    {
      if p < Times(m, n) {
        var b, e := Split(p, m, n);
        LastBit(n, m, fs, done, rows, b, e, p);
        PackAt(cs, n, b, e);
        assert b in done || Covered(rows, 1, b);
      } else {
        PlacedBelow(n, m, fs, done, rows, p);
      }
    }
  }

  /** One field's share of the halved word. */
  lemma HalveField(n: nat, m: nat, rows: set<nat>, u: nat, fs: seq<Bits>, d: nat, bits: Word, mask: Word, w: Word)
    requires n >= 2 && |fs| == n && Fields(fs, m) && d < n && Apart(rows, 2 * u, m)
    requires Times(n - 1, u) < WIDTH && Times(d, u) < WIDTH
    requires FieldWord(bits, n, rows, 2 * u, fs[d]) && RunMask(mask, n, Halved(rows, u), u)
    requires Packed(w, n, Halved(rows, u), u, fs[..d])
    ensures Packed(Or(w, ShiftLeft(And(Or(bits, ShiftLeft(bits, Times(n - 1, u))), mask), Times(d, u))),
                   n, Halved(rows, u), u, fs[..d + 1])
  {
    hide Packed, FieldWord, RunMask;
    Spread(n, m, rows, u, fs[d], bits, mask);
    AddField(n, Halved(rows, u), u, fs, d, w, And(Or(bits, ShiftLeft(bits, Times(n - 1, u))), mask));
  }

  /** One field of odd width: its top bits are stored, the others are left. */
  lemma SplitTop(n: nat, m: nat, rows: set<nat>, u: nat, fs: seq<Bits>, d: nat, w: Word, cur: Word, mask: Word, ends: Word,
                 coords: Word, done: set<nat>)
    requires n >= 2 && |fs| == n && Fields(fs, m) && d < n && Times(m, n) <= WIDTH
    requires 2 * u < WIDTH && 2 * Times(n - 1, u) + d < WIDTH
    requires Apart(rows, 2 * u + 1, m) && Packed(w, n, rows, 2 * u + 1, fs)
    requires RunMask(mask, n, rows, 2 * u + 1) && Starts(ends, n, rows)
    requires Shifted(cur, w, Times(d, 2 * u + 1))
    requires RowsWord(coords, n, fs, done, Tops(rows, u), d)
    ensures var starts := ShiftLeft(ends, 2 * u);
      && FieldWord(And(And(cur, mask), Not(starts)), n, rows, 2 * u, fs[d])
      && RowsWord(Or(coords, ShiftLeft(And(And(cur, mask), starts), 2 * Times(n - 1, u) + d)), n, fs, done, Tops(rows, u), d + 1)
  {
    hide Packed, FieldWord, RunMask, RowsWord, IsTop, Starts, Apart, Shifted;
    PickField(n, m, rows, 2 * u + 1, fs, w, cur, mask, d);
    TopBits(n, m, rows, u, fs[d], ends, And(cur, mask));
    StoreTops(n, fs, done, rows, u, d, coords, And(And(cur, mask), ShiftLeft(ends, 2 * u)));
  }

  /** The even round: every field of every block is cut in two. */
  method HalveEvenFields(nDims: nat, ghost nBits: nat, inB: nat, utB: nat, inCoords0: Word, inMask: Word, utMask: Word,
                         ghost fs: seq<Bits>, ghost rows: set<nat>)
    returns (utCoords: Word)
    requires nDims >= 2 && |fs| == nDims && Fields(fs, nBits) && Times(nBits, nDims) <= WIDTH
    requires 1 <= utB < inB == 2 * utB <= nBits
    requires Apart(rows, inB, nBits) && Packed(inCoords0, nDims, rows, inB, fs)
    requires RunMask(inMask, nDims, rows, inB) && RunMask(utMask, nDims, Halved(rows, utB), utB)
    ensures Packed(utCoords, nDims, Halved(rows, utB), utB, fs)
  {
    hide Packed, RunMask, FieldWord, Apart, Halved, Shifted;
    NotShifted(inCoords0);
    var inCoords := inCoords0;
    var shiftAmt := Times(nDims - 1, utB);
    RoundBounds(nDims, nBits, inB, utB);
    HalvedApart(rows, inB, utB, nBits);
    NonePacked(nDims, Halved(rows, utB), utB, fs);
    utCoords := Zeros(WIDTH);
    for d := 0 to nDims
      invariant Shifted(inCoords, inCoords0, Times(d, inB))
      invariant Packed(utCoords, nDims, Halved(rows, utB), utB, fs[..d])
    {
      PickField(nDims, nBits, rows, inB, fs, inCoords0, inCoords, inMask, d);
      var bits := And(inCoords, inMask);
      ShiftedStep(inCoords, inCoords0, d, inB);
      inCoords := ShiftRight(inCoords, inB);
      HalveField(nDims, nBits, rows, utB, fs, d, bits, utMask, utCoords);
      bits := And(Or(bits, ShiftLeft(bits, shiftAmt)), utMask);
      utCoords := Or(utCoords, ShiftLeft(bits, Times(d, utB)));
    }
    assert fs[..nDims] == fs;
  }

  /** The odd round: the top bit of every field goes to its final place, the rest is cut in two. */
  method HalveOddFields(nDims: nat, ghost nBits: nat, inB: nat, utB: nat, inCoords0: Word, coords0: Word, inFieldEnds: Word,
                        inMask: Word, utMask: Word, ghost fs: seq<Bits>, ghost done: set<nat>, ghost rows: set<nat>)
    returns (utCoords: Word, coords: Word)
    requires nDims >= 2 && |fs| == nDims && Fields(fs, nBits) && Times(nBits, nDims) <= WIDTH
    requires 1 <= utB && inB == 2 * utB + 1 <= nBits
    requires Apart(rows, inB, nBits) && Packed(inCoords0, nDims, rows, inB, fs)
    requires RunMask(inMask, nDims, rows, inB) && RunMask(utMask, nDims, Halved(rows, utB), utB)
    requires Starts(inFieldEnds, nDims, rows) && RowsWord(coords0, nDims, fs, done, {}, 0)
    ensures Packed(utCoords, nDims, Halved(rows, utB), utB, fs)
    ensures RowsWord(coords, nDims, fs, done + Tops(rows, utB), {}, 0)
  {
    hide Packed, RunMask, FieldWord, Apart, Halved, Starts, RowsWord, Tops, IsTop, Shifted;
    NotShifted(inCoords0);
    var inCoords := inCoords0;
    var shiftAmt := Times(nDims - 1, utB);
    RoundBounds(nDims, nBits, inB, utB);
    HalvedApart(rows, inB, utB, nBits);
    NonePacked(nDims, Halved(rows, utB), utB, fs);
    FinishedRows(nDims, fs, done, Tops(rows, utB), coords0);
    coords, utCoords := coords0, Zeros(WIDTH);
    var inFieldStarts := ShiftLeft(inFieldEnds, inB - 1);
    var oddShift := 2 * shiftAmt;
    for d := 0 to nDims
      invariant oddShift == 2 * shiftAmt + d
      invariant Shifted(inCoords, inCoords0, Times(d, inB))
      invariant Packed(utCoords, nDims, Halved(rows, utB), utB, fs[..d])
      invariant RowsWord(coords, nDims, fs, done, Tops(rows, utB), d)
    {
      SplitTop(nDims, nBits, rows, utB, fs, d, inCoords0, inCoords, inMask, inFieldEnds, coords, done);
      var bits := And(inCoords, inMask);
      ShiftedStep(inCoords, inCoords0, d, inB);
      inCoords := ShiftRight(inCoords, inB);
      coords := Or(coords, ShiftLeft(And(bits, inFieldStarts), oddShift));
      oddShift := oddShift + 1;
      bits := And(bits, Not(inFieldStarts));
      HalveField(nDims, nBits, rows, utB, fs, d, bits, utMask, utCoords);
      bits := And(Or(bits, ShiftLeft(bits, shiftAmt)), utMask);
      utCoords := Or(utCoords, ShiftLeft(bits, Times(d, utB)));
    }
    assert fs[..nDims] == fs;
    FinishedRows(nDims, fs, done, Tops(rows, utB), coords);
  }

  /** The log-step transposition: fields are cut in half until single bits are left. */
  method BitTranspose(nDims: nat, nBits: nat, inCoords0: Word) returns (coords: Word)
    requires nDims >= 2 && nBits >= 1 && Times(nDims, nBits) <= WIDTH
    requires FitsBelow(inCoords0, Times(nDims, nBits))
    ensures coords == Transpose(nDims, nBits, inCoords0)
  {
    hide Packed, Starts, RunMask, RowsWord, Apart, AllRows, Halved, Tops, Subtract, Unpack, Pack, OnesMacro;
    ghost var fs := Unpack(inCoords0[..Times(nDims, nBits)], nDims, nBits);
    ghost var rows: set<nat>, done: set<nat> := {0}, {};
    TimesCommutes(nDims, nBits);
    FirstPacked(nDims, nBits, inCoords0, fs);
    TimesMonotone(2, nDims, nBits);
    assert Times(2, nBits) == nBits + Times(1, nBits);
    OnesMacroValue(nBits);
    FirstMasks(nDims, nBits, fs);

    var nDims1 := nDims - 1;
    var inCoords, inB := inCoords0, nBits;
    var inFieldEnds: Word := Pad([true]);
    var inMask := OnesMacro(inB);
    coords := Zeros(WIDTH);
    while inB / 2 != 0
      invariant 1 <= inB <= nBits && Apart(rows, inB, nBits) && AllRows(nBits, done, rows, inB)
      invariant Packed(inCoords, nDims, rows, inB, fs)
      invariant Starts(inFieldEnds, nDims, rows) && RunMask(inMask, nDims, rows, inB)
      invariant RowsWord(coords, nDims, fs, done, {}, 0)
      decreases inB
    {
      var utB := inB / 2;
      var shiftAmt := Times(nDims1, utB);
      RoundBounds(nDims, nBits, inB, utB);
      NextStarts(nDims, rows, utB, inFieldEnds);
      HalvedApart(rows, inB, utB, nBits);
      HalvedCovers(nBits, done, rows, inB, utB);
      var utFieldEnds := Or(inFieldEnds, ShiftLeft(inFieldEnds, shiftAmt + utB));
      MaskOfStarts(nDims, nBits, Halved(rows, utB), utB, utFieldEnds);
      var utMask := Subtract(ShiftLeft(utFieldEnds, utB), utFieldEnds);
      var utCoords: Word;
      if inB % 2 == 1 {
        utCoords, coords := HalveOddFields(nDims, nBits, inB, utB, inCoords, coords, inFieldEnds, inMask, utMask, fs, done, rows);
        done := done + Tops(rows, utB);
      } else {
        utCoords := HalveEvenFields(nDims, nBits, inB, utB, inCoords, inMask, utMask, fs, rows);
      }
      rows := Halved(rows, utB);
      inCoords, inB, inFieldEnds, inMask := utCoords, utB, utFieldEnds, utMask;
    }
    LastPacked(nDims, nBits, fs, done, rows, coords, inCoords);
    coords := Or(coords, inCoords);
  }

  lemma FirstMasks(n: nat, m: nat, fs: seq<Bits>)
    requires m <= WIDTH
    ensures Starts(Pad([true]), n, {0}) && RunMask(Pad(Ones(m)), n, {0}, m)
    ensures Apart({0}, m, m) && AllRows(m, {}, {0}, m)
    ensures RowsWord(Zeros(WIDTH), n, fs, {}, {}, 0)
  {
    forall p: nat | p < WIDTH
      ensures IsStart(n, {0}, p) == (p == 0)
      ensures Masked(n, {0}, m, p) == (p < m)
    {
      assert StartAt(n, {0}, 0, p) == (p == 0);
      assert InRun(n, {0}, m, 0, p) == (p < m);
    }
  }

  lemma RoundBounds(n: nat, m: nat, len: nat, u: nat)
    requires n >= 2 && Times(m, n) <= WIDTH && 1 <= u == len / 2 && len <= m
    ensures Times(n - 1, u) + u == Times(u, n) < WIDTH && len < WIDTH
    ensures len % 2 == 1 ==> 2 * Times(n - 1, u) + n <= WIDTH
    ensures forall d :: 0 <= d < n ==> Times(d, u) < WIDTH
  {
    hide Times;
    RowWidth(n, u);
    TimesMonotone(len, m, n);
    OneTimes(n);
    OneTimes(len);
    if len % 2 == 1 {
      TimesAdd(1, 2 * u, n);
    } else {
      assert len == 2 * u;
    }
    RowWidth(n, len);
    TimesMonotone(1, n - 1, len);
    forall d | 0 <= d < n {
      TimesMonotone(d, n - 1, u);
    }
  }

  lemma TopBits(n: nat, m: nat, rows: set<nat>, u: nat, f: Bits, ends: Word, w: Word)
    requires n >= 1 && |f| == m && Apart(rows, 2 * u + 1, m) && Starts(ends, n, rows)
    requires FieldWord(w, n, rows, 2 * u + 1, f) && 2 * u < WIDTH
    ensures forall q :: 0 <= q < WIDTH ==> And(w, ShiftLeft(ends, 2 * u))[q] == IsTop(n, rows, u, f, q)
    ensures FieldWord(And(w, Not(ShiftLeft(ends, 2 * u))), n, rows, 2 * u, f)
  {
    forall q | 0 <= q < WIDTH {
      TopBit(n, m, rows, u, f, ends, w, q);
    }
  }

  // ----- the bit-by-bit transposition

  /** The bits of f, n positions apart. */
  function Spaced(f: Bits, n: nat): Bits
    requires n >= 1
  {
    if f == [] then [] else [f[0]] + Zeros(n - 1) + Spaced(f[1..], n)
  }

  ghost predicate SpacedBit(f: Bits, n: nat, k: nat, q: nat) {
    k < |f| && q == Times(k, n) && f[k]
  }

  ghost predicate SomeSpaced(f: Bits, n: nat, q: nat) {
    exists k :: SpacedBit(f, n, k, q)
  }

  lemma {:induction false} SpacedAt(f: Bits, n: nat, q: nat)
    requires n >= 1
    ensures |Spaced(f, n)| == Times(|f|, n)
    ensures q < |Spaced(f, n)| ==> (Spaced(f, n)[q] <==> SomeSpaced(f, n, q))
    ensures q >= |Spaced(f, n)| ==> !SomeSpaced(f, n, q)
  {
    if f == [] {
      assert Spaced(f, n) == [];
    } else {
      SpacedAt(f[1..], n, if q >= n then q - n else 0);
      if q == 0 && f[0] {
        assert SpacedBit(f, n, 0, q);
      }
      forall k: nat | SpacedBit(f, n, k, q)
        ensures if k == 0 then q == 0 && f[0] else q >= n && SpacedBit(f[1..], n, k - 1, q - n)
      {
        assert k > 0 ==> f[k] == f[1..][k - 1];
      }
      if q >= n {
        var r := q - n;
        forall k: nat | SpacedBit(f[1..], n, k, r)
          ensures SpacedBit(f, n, k + 1, q)
        {
        }
      }
    }
  }

  /** The inner loop: the bits of one field, read from the top, spread out. */
  method SpreadBits(nDims: nat, nBits: nat, input: Word) returns (output: Word)
    requires 1 <= nDims < WIDTH && 1 <= nBits <= WIDTH && Times(nBits, nDims) <= WIDTH
    ensures |Spaced(input[..nBits], nDims)| <= WIDTH && output == Pad(Spaced(input[..nBits], nDims))
  {
    output := Zeros(WIDTH);
    var b := nBits;
    assert input[..nBits][nBits..] == [];
    while b != 0
      invariant 0 <= b <= nBits
      invariant |Spaced(input[..nBits][b..], nDims)| == Times(nBits - b, nDims)
      invariant |Spaced(input[..nBits][b..], nDims)| <= WIDTH && output == Pad(Spaced(input[..nBits][b..], nDims))
    {
      b := b - 1;
      ghost var f := input[..nBits];
      assert f[b..][1..] == f[b + 1..];
      SpacedAt(f[b..], nDims, 0);
      TimesMonotone(nBits - b, nBits, nDims);
      AppendPad([input[b]] + Zeros(nDims - 1), Spaced(f[b + 1..], nDims));
      ReadBit(input, b, nDims);
      output := ShiftLeft(output, nDims);
      output := Or(output, And(ShiftRight(input, b), Pad([true])));
    }
    assert input[..nBits][0..] == input[..nBits];
  }

  lemma ReadBit(w: Word, b: nat, n: nat)
    requires b < WIDTH && 1 <= n <= WIDTH
    ensures And(ShiftRight(w, b), Pad([true])) == Pad([w[b]] + Zeros(n - 1))
  {
  }

  ghost function RowsBelow(m: nat): (r: set<nat>)
    ensures forall b: nat :: b in r <==> b < m
  {
    if m == 0 then {} else RowsBelow(m - 1) + {m - 1}
  }

  /** The bits stored once a field more is in: those before and the field's own. */
  lemma StoredMore(n: nat, m: nat, fs: seq<Bits>, d: nat, p: nat)
    requires |fs| == n && Fields(fs, m) && d < n
    ensures Stored(n, fs, {}, RowsBelow(m), d + 1, p)
      <==> Stored(n, fs, {}, RowsBelow(m), d, p) || (p >= d && SomeSpaced(fs[d], n, p - d))
  {
    hide Times;
    var next, rows := d + 1, RowsBelow(m);
    if Stored(n, fs, {}, rows, d, p) {
      var b: nat, e: nat :| StoredAt(n, fs, {}, rows, d, b, e, p);
      assert StoredAt(n, fs, {}, rows, next, b, e, p);
    }
    if p >= d && SomeSpaced(fs[d], n, p - d) {
      var k: nat :| SpacedBit(fs[d], n, k, p - d);
      assert StoredAt(n, fs, {}, rows, next, k, d, p);
    }
    if Stored(n, fs, {}, rows, next, p) {
      var b: nat, e: nat :| StoredAt(n, fs, {}, rows, next, b, e, p);
      if e < d {
        assert StoredAt(n, fs, {}, rows, d, b, e, p);
      } else {
        assert SpacedBit(fs[d], n, b, p - d);
      }
    }
  }

  lemma StoreSpaced(n: nat, m: nat, fs: seq<Bits>, d: nat, coords: Word, w: Word)
    requires |fs| == n && Fields(fs, m) && d < n && d < WIDTH && Times(m, n) <= WIDTH
    requires RowsWord(coords, n, fs, {}, RowsBelow(m), d)
    requires |Spaced(fs[d], n)| <= WIDTH && w == Pad(Spaced(fs[d], n))
    ensures RowsWord(Or(coords, ShiftLeft(w, d)), n, fs, {}, RowsBelow(m), d + 1)
  {
    hide Stored, Spaced, Times;
    forall p | 0 <= p < WIDTH
      ensures Or(coords, ShiftLeft(w, d))[p] == Stored(n, fs, {}, RowsBelow(m), d + 1, p)
    {
      StoredMore(n, m, fs, d, p);
      if p >= d {
        SpacedAt(fs[d], n, p - d);
      }
    }
  }

  lemma {:induction false} NextField(w: Bits, n: nat, m: nat, d: nat)
    requires d < n && Times(n, m) <= |w|
    ensures Times(d, m) + m <= Times(n, m) && w[Times(d, m)..Times(d, m) + m] == Unpack(w[..Times(n, m)], n, m)[d]
  {
    hide Times;
    TimesMonotone(d + 1, n, m);
    TimesAdd(d, 1, m);
    TimesAdd(n - 1, 1, m);
    OneTimes(m);
    if d == 0 {
      TimesZeroOne(m);
      FirstField(w, n, m);
    } else {
      TimesAdd(d - 1, 1, m);
      TimesMonotone(d, n - 1, m);
      NextField(w[m..], n - 1, m, d - 1);
      DropFirst(w, m, Times(n - 1, m), Times(d - 1, m));
    }
  }

  lemma FirstField(w: Bits, n: nat, m: nat)
    requires n > 0 && Times(n, m) <= |w|
    ensures Times(0, m) == 0 && m <= Times(n, m) && w[..m] == Unpack(w[..Times(n, m)], n, m)[0]
  {
  }

  lemma DropFirst(w: Bits, m: nat, length: nat, at: nat)
    requires m + length <= |w| && at + m <= length
    ensures w[..m + length][m..] == w[m..][..length]
    ensures w[m + at..m + at + m] == w[m..][at..at + m]
  {
  }

  /** The bit-by-bit transposition computes the same word. */
  method BitTransposePlain(nDims: nat, nBits: nat, inCoords0: Word) returns (coords: Word)
    requires nDims >= 2 && nBits >= 1 && Times(nDims, nBits) <= WIDTH && nDims < WIDTH
    ensures coords == Transpose(nDims, nBits, inCoords0)
  {
    hide RowsWord, Shifted, RowsBelow;
    ghost var fs := Unpack(inCoords0[..Times(nDims, nBits)], nDims, nBits);
    TimesCommutes(nDims, nBits);
    TimesMonotone(2, nDims, nBits);
    assert Times(2, nBits) == nBits + Times(1, nBits);
    OnesMacroValue(nBits);
    var inCoords := inCoords0;
    coords := Zeros(WIDTH);
    NotShifted(inCoords);
    NoRows(nDims, fs, RowsBelow(nBits));
    for d := 0 to nDims
      invariant Shifted(inCoords, inCoords0, Times(d, nBits))
      invariant RowsWord(coords, nDims, fs, {}, RowsBelow(nBits), d)
    {
      var input := And(inCoords, OnesMacro(nBits));
      NextField(inCoords0, nDims, nBits, d);
      LowField(inCoords, inCoords0, Times(d, nBits), nBits);
      assert input[..nBits] == fs[d];
      ShiftedStep(inCoords, inCoords0, d, nBits);
      inCoords := ShiftRight(inCoords, nBits);
      var output := SpreadBits(nDims, nBits, input);
      StoreSpaced(nDims, nBits, fs, d, coords, output);
      coords := Or(coords, ShiftLeft(output, d));
    }
    AllStored(nDims, nBits, fs, coords);
  }

  lemma NoRows(n: nat, fs: seq<Bits>, rows: set<nat>)
    ensures RowsWord(Zeros(WIDTH), n, fs, {}, rows, 0)
  {
  }

  lemma LowField(cur: Word, w: Word, off: nat, len: nat)
    requires Shifted(cur, w, off) && off + len <= WIDTH
    ensures And(cur, Pad(Ones(len)))[..len] == w[off..off + len]
  {
  }

  lemma AllStored(n: nat, m: nat, fs: seq<Bits>, coords: Word)
    requires |fs| == n && Fields(fs, m) && Times(m, n) <= WIDTH
    requires RowsWord(coords, n, fs, {}, RowsBelow(m), n)
    ensures |Pack(Columns(fs, m))| == Times(m, n) && coords == Pad(Pack(Columns(fs, m)))
  {
    var none: set<nat> := {};
    FinishedRows(n, fs, none, RowsBelow(m), coords);
    assert none + RowsBelow(m) == RowsBelow(m);
    NonePacked(n, none, 1, fs);
    forall p | 0 <= p < WIDTH
      ensures !Placed(n, none, 1, fs, p)
    {
    }
    LastPacked(n, m, fs, RowsBelow(m), none, coords, Zeros(WIDTH));
    assert Or(coords, Zeros(WIDTH)) == coords;
  }

  /** Bit b of field d of the word goes to bit d of field b of its transpose, and there is nothing else. */
  lemma {:induction false} TransposeAt(n: nat, m: nat, w: Word, d: nat, b: nat)
    requires Times(n, m) <= WIDTH && d < n && b < m
    ensures Times(d, m) + b < Times(n, m) && Times(b, n) + d < Times(n, m)
    ensures Transpose(n, m, w)[Times(b, n) + d] == w[Times(d, m) + b]
    ensures forall p :: Times(n, m) <= p < WIDTH ==> !Transpose(n, m, w)[p]
  {
    hide Times, Pack, Unpack;
    var fs := Unpack(w[..Times(n, m)], n, m);
    var cs := Columns(fs, m);
    TimesCommutes(n, m);
    PackLength(cs, n);
    PackAt(cs, n, b, d);
    NextField(w, n, m, d);
    assert fs[d] == w[Times(d, m)..Times(d, m) + m];
  }
}
