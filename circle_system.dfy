/** The compound-circle system: a doubly linked list of rotating nodes plus a
    fixed origin node, each node's circle hanging off the previous one. */
module CircleSystem {
  import opened Geometry
  import opened CircleNode
  import opened LinkedList

  /** One `update(timeDelta)` of the whole chain, as values: every node takes
      one step. */
  function StepAll(cs: seq<Circle>, timeDelta: real, trig: Trig): (r: seq<Circle>)
    ensures |r| == |cs|
    ensures forall i :: 0 <= i < |cs| ==> r[i] == Step(cs[i], timeDelta, trig)
  {
    if cs == [] then [] else StepAll(cs[..|cs| - 1], timeDelta, trig) + [Step(cs[|cs| - 1], timeDelta, trig)]
  }

  /** The node offsets of a chain, head first. */
  function Offsets(cs: seq<Circle>): (ps: seq<Vec>)
    ensures |ps| == |cs|
    ensures forall i :: 0 <= i < |cs| ==> ps[i] == cs[i].pos
  {
    if cs == [] then [] else Offsets(cs[..|cs| - 1]) + [cs[|cs| - 1].pos]
  }

  /** A chain of `n` freshly constructed nodes. */
  function Fresh(n: nat): seq<Circle>
  {
    seq(n, _ => Initial)
  }

  /** After an update every node's position agrees with its new angle, and
      radii and speeds are as before. */
  lemma {:induction false} StepAllKeepsShape(cs: seq<Circle>, timeDelta: real, trig: Trig)
    ensures forall i :: 0 <= i < |cs| ==>
      Consistent(StepAll(cs, timeDelta, trig)[i], trig) &&
      StepAll(cs, timeDelta, trig)[i].radius == cs[i].radius &&
      StepAll(cs, timeDelta, trig)[i].speed == cs[i].speed
  {
    forall i | 0 <= i < |cs|
      ensures Consistent(StepAll(cs, timeDelta, trig)[i], trig)
      ensures StepAll(cs, timeDelta, trig)[i].radius == cs[i].radius
      ensures StepAll(cs, timeDelta, trig)[i].speed == cs[i].speed
    {
      StepKeepsShape(cs[i], timeDelta, trig);
    }
  }

  /** A freshly constructed node updated once by `timeDelta` seconds, with
      0 <= timeDelta < 2π, sits at angle `timeDelta` on its circle of radius
      0.1. */
  lemma FreshNodeAfterOneUpdate(timeDelta: real, trig: Trig)
    requires 0.0 <= timeDelta < TwoPi
    ensures Step(Initial, timeDelta, trig) == Circle(timeDelta, 0.1, 1.0, Offset(timeDelta, 0.1, trig))
  {
    assert Advance(Initial, timeDelta) == timeDelta;
    StepAdvancesAngle(Initial, timeDelta, trig);
  }

  /** A freshly built chain, updated once by `timeDelta` seconds with
      0 <= timeDelta < 2π, has every node at angle `timeDelta`, all with the
      same offset, so its far end lies `n` offsets away from the origin. */
  lemma FreshChainAfterOneUpdate(n: nat, timeDelta: real, trig: Trig)
    requires 0.0 <= timeDelta < TwoPi
    ensures forall i :: 0 <= i < n ==>
      StepAll(Fresh(n), timeDelta, trig)[i].azimuth == timeDelta
    ensures Sum(Offsets(StepAll(Fresh(n), timeDelta, trig))) == Offset(timeDelta, 0.1, trig).Times(n as real)
  {
    FreshNodeAfterOneUpdate(timeDelta, trig);
    var cs := StepAll(Fresh(n), timeDelta, trig);
    assert |Offsets(cs)| == n;
    SumOfEqual(Offsets(cs), Offset(timeDelta, 0.1, trig));
  }

  /** The states of `ns`, in order. */
  ghost function StatesOf(ns: seq<Node>): (cs: seq<Circle>)
    reads ns`azimuth, set n | n in ns :: n.pos
    ensures |cs| == |ns|
    ensures forall i :: 0 <= i < |ns| ==> cs[i] == ns[i].State()
  {
    if ns == [] then [] else StatesOf(ns[..|ns| - 1]) + [ns[|ns| - 1].State()]
  }

  /** A sequence of nodes whose states are, one by one, those of `cs` has
      states `cs`. */
  lemma StatesOfEach(ns: seq<Node>, cs: seq<Circle>)
    requires |cs| == |ns|
    requires forall i :: 0 <= i < |ns| ==> ns[i].State() == cs[i]
    ensures StatesOf(ns) == cs
  {
  }

  /** No node shares its position object with the origin or another node. */
  ghost predicate OwnPositions(ns: seq<Node>, origin: Node)
  {
    (forall i :: 0 <= i < |ns| ==> ns[i].pos != origin.pos) &&
    (forall i, j :: 0 <= i < j < |ns| ==> ns[i].pos != ns[j].pos)
  }

  /** Appending a node whose position object is new keeps positions owned. */
  lemma OwnPositionsAppend(ns: seq<Node>, origin: Node, n: Node)
    requires OwnPositions(ns, origin) && n.pos != origin.pos
    requires forall k :: 0 <= k < |ns| ==> ns[k].pos != n.pos
    ensures OwnPositions(ns + [n], origin)
  {
  }

  /** The system invariant depends only on the list and the nodes' links, so
      moving nodes keeps it. */
  twostate lemma ValidKeptByLinks(m: CompoundCircleSystemModel)
    requires old(m.Valid()) && unchanged(m.list)
    requires unchanged(m.list.Nodes`next, m.list.Nodes`prev)
    ensures m.Valid()
  {
  }

  /** The states depend only on the nodes' angles and position objects, so a
      change that leaves every node and its position alone keeps them. */
  twostate lemma StatesKept(m: CompoundCircleSystemModel)
    requires unchanged(m.list)
    requires forall k :: 0 <= k < |m.list.Nodes| ==>
      unchanged(m.list.Nodes[k]) && unchanged(m.list.Nodes[k].pos)
    ensures m.States() == old(m.States())
  {
  }

  /** The source's `CompoundCircleSystemModel`, which inherits from
      `DoublyLinkedList`; here it holds its list. */
  class CompoundCircleSystemModel {
    const list: DoublyLinkedList
    const origin: Node

    /** The list is well formed, the origin is not one of its nodes, and no two
        nodes (origin included) share a position object. */
    ghost predicate Valid()
      reads list, list.Nodes`next, list.Nodes`prev
    {
      list.Valid() &&
      origin !in list.Nodes &&
      OwnPositions(list.Nodes, origin)
    }

    /** The position objects of the nodes, which an update changes. */
    ghost function Positions(): set<Point>
      reads list
    {
      set n | n in list.Nodes :: n.pos
    }

    /** The states of the nodes, head first. */
    ghost function States(): seq<Circle>
      reads list, list.Nodes`azimuth, Positions()
    {
      StatesOf(list.Nodes)
    }

    /** Builds the origin at (0, 0) and appends `numNodes` fresh nodes; a
        negative or zero `numNodes` leaves the list empty. */
    constructor (numNodes: int)
      ensures Valid()
      ensures list.length == (if numNodes < 0 then 0 else numNodes)
      ensures States() == Fresh(list.length)
      ensures origin.pos.Value() == Zero
      ensures fresh(list) && fresh(origin) && fresh(origin.pos)
      ensures forall k :: 0 <= k < list.length ==> fresh(list.Nodes[k]) && fresh(list.Nodes[k].pos)
    {
      list := new DoublyLinkedList();
      origin := new Node();
      new;
      origin.pos.Set(0.0, 0.0);
      AddNodes(numNodes);
    }

    /** The constructor's loop: adds `numNodes` freshly constructed nodes to
        the empty list, one `add` per node. */
    method AddNodes(numNodes: int)
      requires Valid() && list.Nodes == []
      modifies list
      ensures Valid()
      ensures list.length == (if numNodes < 0 then 0 else numNodes)
      ensures forall k :: 0 <= k < list.length ==>
        fresh(list.Nodes[k]) && fresh(list.Nodes[k].pos) && list.Nodes[k].State() == Initial
    {
      var i := 0;
      while i < numNodes
        invariant 0 <= i && (i == 0 || i <= numNodes)
        invariant Valid() && list.length == i
        invariant forall k :: 0 <= k < i ==>
          fresh(list.Nodes[k]) && fresh(list.Nodes[k].pos) && list.Nodes[k].State() == Initial
      {
        var node := new Node();
        OwnPositionsAppend(list.Nodes, origin, node);
        list.Add(node);
        i := i + 1;
      }
    }

    /** Updates every node once, head to tail, each through `itemAt`. */
    method Update(timeDelta: real, trig: Trig)
      requires Valid()
      modifies list.Nodes`azimuth, Positions()
      ensures Valid()
      ensures list.Nodes == old(list.Nodes)
      ensures States() == StepAll(old(States()), timeDelta, trig)
      ensures origin.pos.Value() == old(origin.pos.Value())
    {
      UpdateEach(list, timeDelta, trig);
      ValidKeptByLinks(this);
      StatesOfEach(list.Nodes, StepAll(old(States()), timeDelta, trig));
    }
  }

  /** The loop of `update`: every node of `list` takes one step, head to tail,
      each reached through `itemAt`. Nodes own their position objects. */
  method UpdateEach(list: DoublyLinkedList, timeDelta: real, trig: Trig)
    requires list.Valid()
    requires forall j, k :: 0 <= j < k < |list.Nodes| ==> list.Nodes[j].pos != list.Nodes[k].pos
    modifies list.Nodes`azimuth, set n | n in list.Nodes :: n.pos
    ensures forall j :: 0 <= j < |list.Nodes| ==>
      list.Nodes[j].State() == Step(old(list.Nodes[j].State()), timeDelta, trig)
  {
    ghost var ns := list.Nodes;
    var i := 0;
    while i < list.length
      invariant 0 <= i <= list.length == |ns|
      invariant forall j :: 0 <= j < |ns| ==>
        ns[j].State() == if j < i then Step(old(ns[j].State()), timeDelta, trig) else old(ns[j].State())
    {
      ValidKept(list);
      var node := list.ItemAt(i);
      assert node == ns[i];
      node.Update(timeDelta, trig);
      i := i + 1;
    }
  }
}
