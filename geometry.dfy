/** Screen-space geometry of the compound-circle chain: points, offsets and the
    running sum of offsets that places each node on screen. Coordinates are
    exact reals; the source works on JavaScript doubles. */
module Geometry {

  /** A position or an offset in screen space. */
  datatype Vec = Vec(x: real, y: real) {
    function Plus(o: Vec): Vec {
      Vec(x + o.x, y + o.y)
    }

    function Times(k: real): Vec {
      Vec(k * x, k * y)
    }
  }

  const Zero := Vec(0.0, 0.0)

  /** A mutable point (the source's `Point`); nodes and the chain origin each own one. */
  class Point {
    var x: real
    var y: real

    constructor (x: real, y: real)
      ensures Value() == Vec(x, y)
    {
      this.x := x;
      this.y := y;
    }

    function Value(): Vec
      reads this
    {
      Vec(x, y)
    }

    method Set(x: real, y: real)
      modifies this
      ensures Value() == Vec(x, y)
    {
      this.x := x;
      this.y := y;
    }
  }

  /** The sum of a sequence of offsets, added left to right. */
  function Sum(s: seq<Vec>): Vec
  {
    if s == [] then Zero else Sum(s[..|s| - 1]).Plus(s[|s| - 1])
  }

  /** Where the chain's nodes are drawn, one point per offset, each the
      previous one moved by its own offset. */
  function Points(start: Vec, offsets: seq<Vec>): (ps: seq<Vec>)
    ensures |ps| == |offsets|
  {
    if offsets == [] then []
    else Points(start, offsets[..|offsets| - 1]) + [start.Plus(Sum(offsets))]
  }

  /** Node k is drawn at `start` plus the offsets of nodes 0 to k; in
      particular the last node is drawn at `start` plus the sum of all
      offsets. */
  lemma {:induction false} PointsAt(start: Vec, offsets: seq<Vec>, k: nat)
    requires k < |offsets|
    ensures Points(start, offsets)[k] == start.Plus(Sum(offsets[..k + 1]))
  {
    var n := |offsets|;
    if k == n - 1 {
      assert offsets[..k + 1] == offsets;
    } else {
      var init := offsets[..n - 1];
      PointsAt(start, init, k);
      assert init[..k + 1] == offsets[..k + 1];
    }
  }

  /** Walking one node further: the next point is the running origin (start plus
      the offsets so far) moved by the next node's offset. */
  lemma PointsExtend(start: Vec, offsets: seq<Vec>, i: nat)
    requires i < |offsets|
    ensures Sum(offsets[..i + 1]) == Sum(offsets[..i]).Plus(offsets[i])
    ensures Points(start, offsets[..i + 1])
         == Points(start, offsets[..i]) + [start.Plus(Sum(offsets[..i])).Plus(offsets[i])]
  {
    assert offsets[..i + 1][..i] == offsets[..i];
  }

  /** One step of a walk that records the points it draws after `before`: from
      the running origin `here`, the next point drawn is where the walk over one
      more offset ends. */
  lemma WalkStep(start: Vec, offsets: seq<Vec>, i: nat, here: Vec, before: seq<Vec>)
    requires i < |offsets| && here == start.Plus(Sum(offsets[..i]))
    ensures here.Plus(offsets[i]) == start.Plus(Sum(offsets[..i + 1]))
    ensures before + Points(start, offsets[..i]) + [here.Plus(offsets[i])]
         == before + Points(start, offsets[..i + 1])
  {
    PointsExtend(start, offsets, i);
  }

  /** The first point is the start moved by the first offset. */
  lemma PointsFirst(start: Vec, offsets: seq<Vec>)
    requires offsets != []
    ensures Points(start, offsets)[0] == start.Plus(offsets[0])
  {
    PointsAt(start, offsets, 0);
    assert offsets[..1] == [offsets[0]];
    assert Sum([offsets[0]]) == Zero.Plus(offsets[0]);
  }

  /** Consecutive points of the chain are one node offset apart. */
  lemma PointsStep(start: Vec, offsets: seq<Vec>, i: nat)
    requires i + 1 < |offsets|
    ensures Points(start, offsets)[i + 1] == Points(start, offsets)[i].Plus(offsets[i + 1])
  {
    PointsAt(start, offsets, i);
    PointsAt(start, offsets, i + 1);
    PointsExtend(start, offsets, i + 1);
  }

  /** A chain of n equal offsets v sums to n times v. */
  lemma {:induction false} SumOfEqual(s: seq<Vec>, v: Vec)
    requires forall i :: 0 <= i < |s| ==> s[i] == v
    ensures Sum(s) == v.Times(|s| as real)
  {
    if s != [] {
      SumOfEqual(s[..|s| - 1], v);
    }
  }

  /** Starting a walk from a shifted origin shifts every point by the same amount. */
  lemma PointsShift(start: Vec, d: Vec, offsets: seq<Vec>)
    ensures forall i :: 0 <= i < |offsets| ==>
      Points(start.Plus(d), offsets)[i] == Points(start, offsets)[i].Plus(d)
  {
    forall i | 0 <= i < |offsets|
      ensures Points(start.Plus(d), offsets)[i] == Points(start, offsets)[i].Plus(d)
    {
      PointsAt(start.Plus(d), offsets, i);
      PointsAt(start, offsets, i);
    }
  }

  /** A walk that starts where the previous walk ended (the origin moved by the
      sum of the offsets) draws different points, unless the offsets cancel out. */
  lemma RedrawDiffers(start: Vec, offsets: seq<Vec>)
    requires offsets != [] && Sum(offsets) != Zero
    ensures Points(start.Plus(Sum(offsets)), offsets) != Points(start, offsets)
  {
    PointsShift(start, Sum(offsets), offsets);
    assert Points(start.Plus(Sum(offsets)), offsets)[0] != Points(start, offsets)[0];
  }
}
