/** When the search of bbox_to_intv ends: its turns on boxes, for query boxes with and without points. */
module SearchEnds {
  import opened BitStrings
  import opened HilbertIndex
  import opened Boxes
  import opened AlignedCubes
  import opened Decomposition

  ghost predicate AllBoxes(bs: seq<Box>, n: nat) {
    forall i :: 0 <= i < |bs| ==> IsBox(bs[i], n)
  }

  /** One turn of the loop: the first box leaves the queue, and its parts join when it meets bb without lying inside. */
  ghost function Turn(bb: Box, n: nat, pending: seq<Box>): (r: seq<Box>)
    requires IsBox(bb, n) && AllBoxes(pending, n)
    ensures AllBoxes(r, n)
  {
    if pending == [] then []
    else if Includes(bb, pending[0], n) || !Meets(bb, pending[0], n) then pending[1..]
    else pending[1..] + PartsOf(pending[0], Pow2(n))
  }

  ghost function Turns(bb: Box, n: nat, pending: seq<Box>, k: nat): (r: seq<Box>)
    requires IsBox(bb, n) && AllBoxes(pending, n)
    ensures AllBoxes(r, n)
    decreases k
  {
    if k == 0 then pending else Turns(bb, n, Turn(bb, n, pending), k - 1)
  }

  /** The virtual cube the search starts with. */
  function Virtual(n: nat, q: nat): Box {
    Box(seq(n, _ => 0), seq(n, _ => Pow2(q) - 1))
  }

  /** The queue runs empty after some number of turns. */
  ghost predicate Ends(bb: Box, n: nat, q: nat)
    requires IsBox(bb, n)
  {
    exists k: nat :: Turns(bb, n, [Virtual(n, q)], k) == []
  }

  // ----- boxes with points

  /** On cubes a turn is that of the search for a box with points. */
  lemma TurnOfCubes(bb: Box, n: nat, c: Cube, rest: seq<Cube>)
    requires IsBox(bb, n) && |c.base| == n && Cubes(rest, n) && (Meets(bb, CubeBox(c), n) && !Includes(bb, CubeBox(c), n) ==> c.k > 0)
    ensures AllBoxes(BoxesOf([c] + rest), n)
    ensures Turn(bb, n, BoxesOf([c] + rest))
      == BoxesOf(if Meets(bb, CubeBox(c), n) && !Includes(bb, CubeBox(c), n) then rest + Children(c) else rest)
  {
    hide Meets, Includes, CubeBox, Part, Child;
    var bs := BoxesOf([c] + rest);
    forall i | 0 <= i < |bs|
      ensures IsBox(bs[i], n)
    {
      assert i > 0 ==> ([c] + rest)[i] == rest[i - 1];
    }
    assert bs[0] == CubeBox(c) && bs[1..] == BoxesOf(rest);
    if Meets(bb, CubeBox(c), n) && !Includes(bb, CubeBox(c), n) {
      PartsAreChildren(c);
      BoxesConcat(rest, Children(c));
    }
  }

  lemma {:induction false} EndsWithPoints(bb: Box, n: nat, cs: seq<Cube>) returns (k: nat)
    requires NonEmpty(bb, n) && Cubes(cs, n)
    ensures AllBoxes(BoxesOf(cs), n) && Turns(bb, n, BoxesOf(cs), k) == []
    decreases WeightOf(cs)
  {
    hide Meets, Includes, CubeBox, Turn, Weight, Child;
    if cs == [] {
      k := 0;
    } else {
      var c, rest := cs[0], cs[1..];
      assert cs == [c] + rest;
      if Meets(bb, CubeBox(c), n) && c.k == 0 {
        UnitCube(bb, n, c);
      }
      TurnOfCubes(bb, n, c, rest);
      var next := rest;
      if Meets(bb, CubeBox(c), n) && !Includes(bb, CubeBox(c), n) {
        DivideLowersWeight(c, rest);
        next := rest + Children(c);
      }
      var j := EndsWithPoints(bb, n, next);
      k := j + 1;
    }
  }

  // ----- boxes without points

  /** The pending box that holds the query's lower corner, which no turn gets rid of. */
  ghost predicate Stuck(pending: seq<Box>, n: nat, p: Point) {
    exists i: nat, c: Cube :: 0 <= i < |pending| && |c.base| == n && InCube(c, p) && pending[i] == CubeBox(c)
  }

  /** A cube that holds the lower corner of a box without points meets the box and is not included. */
  lemma CornerMeets(bb: Box, n: nat, c: Cube)
    requires IsBox(bb, n) && !NonEmpty(bb, n) && |c.base| == n && InCube(c, bb.lb)
    ensures Meets(bb, CubeBox(c), n) && !Includes(bb, CubeBox(c), n)
  {
    InCubeBox(c, bb.lb);
    var b := CubeBox(c);
    forall d | 0 <= d < n
      ensures MeetsOnDim(bb, b, d)
    {
    }
    var d :| 0 <= d < n && bb.lb[d] > bb.ub[d];
    assert b.ub[d] >= bb.lb[d];
  }

  /** One of its parts holds the corner again; for a unit cube the first part is the cube itself. */
  lemma PartWithCorner(n: nat, c: Cube, p: Point) returns (i: nat, part: Cube)
    requires |c.base| == n && InCube(c, p)
    ensures i < Pow2(n) && Part(CubeBox(c), n, i) == CubeBox(part) && |part.base| == n && InCube(part, p)
  {
    if c.k > 0 {
      i := Value(LowBits(Halves(p, c.k - 1)));
      ValueBound(LowBits(Halves(p, c.k - 1)));
      part := Child(c, i);
      PartOfCube(c, i);
      InChild(c, i, p);
    } else {
      i, part := 0, c;
      FromZero(n);
      var a, b := Part(CubeBox(c), n, 0), CubeBox(c);
      forall d | 0 <= d < n
        ensures a.lb[d] == b.lb[d] && a.ub[d] == b.ub[d]
      {
        assert b.lb[d] == b.ub[d];
      }
      assert a.lb == b.lb && a.ub == b.ub;
    }
  }

  lemma TurnStaysStuck(bb: Box, n: nat, pending: seq<Box>)
    requires IsBox(bb, n) && !NonEmpty(bb, n) && AllBoxes(pending, n) && Stuck(pending, n, bb.lb)
    ensures Stuck(Turn(bb, n, pending), n, bb.lb)
  {
    hide Meets, Includes, CubeBox, Part, InCube;
    var i: nat, c: Cube :| 0 <= i < |pending| && |c.base| == n && InCube(c, bb.lb) && pending[i] == CubeBox(c);
    var next := Turn(bb, n, pending);
    if i > 0 {
      assert next[i - 1] == CubeBox(c);
    } else {
      CornerMeets(bb, n, c);
      var j, part := PartWithCorner(n, c, bb.lb);
      assert next[|pending| - 1 + j] == CubeBox(part);
    }
  }

  lemma {:induction false} TurnsStayStuck(bb: Box, n: nat, pending: seq<Box>, k: nat)
    requires IsBox(bb, n) && !NonEmpty(bb, n) && AllBoxes(pending, n) && Stuck(pending, n, bb.lb)
    ensures Stuck(Turns(bb, n, pending, k), n, bb.lb)
    decreases k
  {
    hide Turn, Stuck;
    if k > 0 {
      TurnStaysStuck(bb, n, pending);
      TurnsStayStuck(bb, n, Turn(bb, n, pending), k - 1);
    }
  }

  // ----- exactly when

  /** Some lower bound lies beyond the virtual cube. */
  ghost predicate Beyond(bb: Box, n: nat, q: nat)
    requires IsBox(bb, n)
  {
    exists d :: 0 <= d < n && bb.lb[d] >= Pow2(q)
  }

  lemma BeyondEnds(bb: Box, n: nat, q: nat)
    requires IsBox(bb, n) && Beyond(bb, n, q)
    ensures Turns(bb, n, [Virtual(n, q)], 1) == []
  {
    var d :| 0 <= d < n && bb.lb[d] >= Pow2(q);
    var root := Virtual(n, q);
    assert root.ub[d] < bb.lb[d] && !MeetsOnDim(bb, root, d);
    assert Turn(bb, n, [root]) == [];
  }

  lemma RootIsVirtual(n: nat, q: nat)
    ensures BoxesOf([Root(n, q)]) == [Virtual(n, q)] && Cubes([Root(n, q)], n)
  {
    assert CubeBox(Root(n, q)) == Virtual(n, q);
  }

  /**
   * The search ends if and only if the query box has points or some lower bound lies beyond the virtual cube;
   * in all other cases the queue never runs empty.
   */
  lemma SearchEndsWhen(bb: Box, n: nat, q: nat)
    requires IsBox(bb, n)
    ensures Ends(bb, n, q) <==> NonEmpty(bb, n) || Beyond(bb, n, q)
  {
    hide Turns, Meets, Includes, NonEmpty, Stuck;
    RootIsVirtual(n, q);
    if NonEmpty(bb, n) {
      var k := EndsWithPoints(bb, n, [Root(n, q)]);
    } else if Beyond(bb, n, q) {
      BeyondEnds(bb, n, q);
    } else {
      InRoot(n, q, bb.lb);
      StartStuck(bb, n, q);
      forall k: nat
        ensures Turns(bb, n, [Virtual(n, q)], k) != []
      {
        TurnsStayStuck(bb, n, [Virtual(n, q)], k);
        NotEmptyWhenStuck(Turns(bb, n, [Virtual(n, q)], k), n, bb.lb);
      }
    }
  }

  lemma StartStuck(bb: Box, n: nat, q: nat)
    requires IsBox(bb, n) && !Beyond(bb, n, q)
    ensures Stuck([Virtual(n, q)], n, bb.lb)
  {
    RootIsVirtual(n, q);
    InRoot(n, q, bb.lb);
    assert InCube(Root(n, q), bb.lb) && [Virtual(n, q)][0] == CubeBox(Root(n, q));
  }

  lemma NotEmptyWhenStuck(pending: seq<Box>, n: nat, p: Point)
    requires Stuck(pending, n, p)
    ensures pending != []
  {
  }

  /** A concrete query without points that keeps the search going for ever. */
  lemma EmptyBoxNeverEnds()
    ensures !Ends(Box([1], [0]), 1, 1)
  {
    var bb := Box([1], [0]);
    assert !NonEmpty(bb, 1) by { assert bb.lb[0] > bb.ub[0]; }
    assert Pow2(1) == 2;
    assert !Beyond(bb, 1, 1);
    SearchEndsWhen(bb, 1, 1);
  }
}
