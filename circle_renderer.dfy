/** The part of `CompoundCircleSystemRenderer` that decides where the nodes are
    drawn. The WebGL point renderer is replaced by the record `drawn` of the
    positions it is handed, in order. */
module CircleRenderer {
  import opened Geometry
  import opened CircleNode
  import opened LinkedList
  import opened CircleSystem

  class CompoundCircleSystemRenderer {
    /** Every position passed to the point renderer so far, oldest first. */
    var drawn: seq<Vec>

    constructor ()
      ensures drawn == []
    {
      drawn := [];
    }

    /** Hands one position to the point renderer. */
    method DrawPoint(pos: Point)
      modifies this
      ensures drawn == old(drawn) + [pos.Value()]
    {
      drawn := drawn + [pos.Value()];
    }

    /** Draws the system; line drawing is switched off, so this is `drawPoints`. */
    method Draw(system: CompoundCircleSystemModel)
      requires system.Valid()
      modifies this, system.origin.pos
      ensures system.States() == old(system.States())
      ensures drawn == old(drawn) + Points(old(system.origin.pos.Value()), Offsets(system.States()))
      ensures system.origin.pos.Value() == old(system.origin.pos.Value()).Plus(Sum(Offsets(system.States())))
    {
      DrawPoints(system);
    }

    /** Draws node i at the origin plus the offsets of nodes 0..i. The running
        origin is the system's own origin point, not a copy, so the walk leaves
        that point moved by the sum of all offsets; resetting the local
        afterwards does not undo it. */
    method DrawPoints(system: CompoundCircleSystemModel)
      requires system.Valid()
      modifies this, system.origin.pos
      ensures system.States() == old(system.States())
      ensures drawn == old(drawn) + Points(old(system.origin.pos.Value()), Offsets(system.States()))
      ensures system.origin.pos.Value() == old(system.origin.pos.Value()).Plus(Sum(Offsets(system.States())))
    {
      var originStart := system.origin.pos;
      var origin := originStart;
      ghost var offsets := Offsets(system.States());
      assert forall k :: 0 <= k < |offsets| ==>
        system.list.Nodes[k].pos.Value() == offsets[k] && system.list.Nodes[k].pos != origin;
      Walk(system.list, origin, offsets);
      StatesKept(system);
      origin := originStart;
    }

    /** `drawPoints` with the running origin a copy of the system's origin, as
        the walk evidently intends: the system's origin is left where it was. */
    method DrawPointsFromOrigin(system: CompoundCircleSystemModel)
      requires system.Valid()
      modifies this
      ensures drawn == old(drawn) + Points(old(system.origin.pos.Value()), old(Offsets(system.States())))
      ensures system.origin.pos.Value() == old(system.origin.pos.Value())
    {
      ghost var offsets := Offsets(system.States());
      var origin := new Point(system.origin.pos.x, system.origin.pos.y);
      Walk(system.list, origin, offsets);
    }

    /** The loop of `drawPoints`: walks the list head to tail, drawing each node
        at the running origin moved by the node's offset (`offsets` holds
        them), and moves the running origin there. */
    method Walk(list: DoublyLinkedList, origin: Point, ghost offsets: seq<Vec>)
      requires list.Valid() && |offsets| == |list.Nodes|
      requires forall k :: 0 <= k < |offsets| ==>
        list.Nodes[k].pos.Value() == offsets[k] && list.Nodes[k].pos != origin
      modifies this, origin
      ensures drawn == old(drawn) + Points(old(origin.Value()), offsets)
      ensures origin.Value() == old(origin.Value()).Plus(Sum(offsets))
    {
      ghost var start := origin.Value();
      ghost var drawn0 := drawn;
      var i := 0;
      while i < list.length
        invariant 0 <= i <= list.length == |offsets|
        invariant drawn == drawn0 + Points(start, offsets[..i])
        invariant origin.Value() == start.Plus(Sum(offsets[..i]))
      {
        ValidKept(list);
        var node := list.ItemAt(i);
        assert node.pos.Value() == offsets[i] && node.pos != origin;
        ghost var here := origin.Value();
        DrawStep(origin, node);
        WalkStep(start, offsets, i, here, drawn0);
        i := i + 1;
      }
      assert offsets[..i] == offsets;
    }

    /** The body of `drawPoints`' loop: draws `node` at the running origin
        moved by the node's offset, then moves the running origin there. */
    method DrawStep(origin: Point, node: Node)
      requires node.pos != origin
      modifies this, origin
      ensures drawn == old(drawn) + [old(origin.Value()).Plus(node.pos.Value())]
      ensures origin.Value() == old(origin.Value()).Plus(node.pos.Value())
    {
      var p := new Point(origin.x + node.pos.x, origin.y + node.pos.y);
      DrawPoint(p);
      origin.x := origin.x + node.pos.x;
      origin.y := origin.y + node.pos.y;
    }
  }

  /** The chain the page builds: five fresh nodes, each offset (0.1, 0). Their
      offsets add up to (0.5, 0), so a second `drawPoints` of the unchanged
      chain, starting from where the first one left the origin, draws every
      point half a unit further right. */
  lemma DefaultChainDrifts()
    ensures Sum(Offsets(Fresh(5))) == Vec(0.5, 0.0)
    ensures Points(Zero.Plus(Sum(Offsets(Fresh(5)))), Offsets(Fresh(5))) != Points(Zero, Offsets(Fresh(5)))
  {
    var offsets := Offsets(Fresh(5));
    SumOfEqual(offsets, Vec(0.1, 0.0));
    RedrawDiffers(Zero, offsets);
  }

  /** The page's start-up and first update: a system of `numNodes` = 5
      nodes is built and updated by `deltaTime`. */
  method BuildAndUpdate(deltaTime: real, trig: Trig) returns (model: CompoundCircleSystemModel)
    ensures fresh(model.origin.pos)
    ensures model.Valid()
    ensures model.States() == StepAll(Fresh(5), deltaTime, trig)
    ensures model.origin.pos.Value() == Zero
  {
    model := new CompoundCircleSystemModel(5);
    model.Update(deltaTime, trig);
  }

  /** The page's start-up and first frame: the system built and updated by
      `deltaTime`, then drawn by a new renderer. The points drawn are the walk
      from (0, 0) over the offsets of five fresh nodes, each stepped once. */
  method FirstFrame(deltaTime: real, trig: Trig) returns (points: seq<Vec>)
    ensures points == Points(Zero, Offsets(StepAll(Fresh(5), deltaTime, trig)))
  {
    var model := BuildAndUpdate(deltaTime, trig);
    var renderer := new CompoundCircleSystemRenderer();
    renderer.Draw(model);
    points := renderer.drawn;
  }
}
