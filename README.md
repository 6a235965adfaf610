# Compound circles: a verified model of the chain and its list

`scratch.js` draws a "compound circle": a chain of nodes, each turning on a
small circle that hangs off the previous node. The nodes are kept in a
hand-written doubly linked list. Each animation frame does two things. The
system's `update(timeDelta)` advances every node's angle and recomputes its
offset. The renderer's `draw` then walks the chain from the origin, adds up the
node offsets, and hands one point per node to the WebGL point renderer.

This project models that core in Dafny:

- `geometry.dfy` (module `Geometry`) holds the `Point` class with its `set`.
  It also has the value type `Vec` and two specification functions: `Sum`, the
  running sum of offsets, and `Points`, where a walk from a start point draws
  each node. Lemmas about the walk are proved here.
- `circle_node.dfy` (module `CircleNode`) merges `Node` and
  `CompoundCircleNodeModel` into one class `Node`. It has the list links, the
  angle, the radius, the speed and the position point. `update` and
  `updatePosition` are methods proved against a value-level `Step`. That step
  uses JavaScript's truncating `%` by 2π (`Rem`), and `Math.cos`/`Math.sin` are
  supplied by the caller.
- `linked_list.dfy` (module `LinkedList`) is `DoublyLinkedList`, abstracted by
  the ghost sequence `Nodes` (head to tail) and the invariant `Valid`. `add`,
  `remove` and `itemAt` are methods whose contracts are stated on `Nodes`.
- `circle_system.dfy` (module `CircleSystem`) is `CompoundCircleSystemModel`.
  Its constructor builds the origin at (0, 0) and appends `numNodes` fresh
  nodes. Its `update` steps every node once, head to tail, through `itemAt`.
  The states of the nodes, as values, are `States()`.
- `circle_renderer.dfy` (module `CircleRenderer`) covers `draw`, `drawPoints`
  and `drawPoint` of `CompoundCircleSystemRenderer`. The point renderer is
  replaced by `drawn`, the list of positions handed to it.

## Model

| member | source | states |
|---|---|---|
| `Geometry.Point.constructor` | scratch.js:170-173 | a new point holds exactly the coordinates it was given |
| `Geometry.Point.Set` | scratch.js:175-178 | `set(x, y)` leaves the point at (x, y) |
| `Geometry.PointsAt` | scratch.js:421-427 | the point drawn for node k is the start point plus the sum of the offsets of nodes 0 to k, so the last point drawn is the start point plus the sum of all offsets |
| `Geometry.PointsFirst` | scratch.js:423-424 | the first point drawn is the start point moved by the head node's offset |
| `Geometry.PointsStep` | scratch.js:423-426 | consecutive drawn points are exactly one node offset apart |
| `Geometry.PointsExtend` | scratch.js:423-426 | walking one more node appends one point (the running origin plus that node's offset) and adds that offset to the running sum |
| `Geometry.WalkStep` | scratch.js:424-426 | from a running origin equal to the start plus the offsets so far, the point drawn next and the new running origin are where the walk over one more node ends |
| `Geometry.SumOfEqual` | scratch.js:425-427 | n equal offsets v add up to n times v |
| `Geometry.PointsShift` | scratch.js:421-427 | starting the walk from a shifted origin shifts every drawn point by the same amount |
| `Geometry.RedrawDiffers` | scratch.js:417-431 | a walk that starts where the previous one left the origin draws different points, unless the offsets cancel out |
| `CircleNode.Rem` | scratch.js:130 | `a % m` for m > 0 takes the sign of `a`, has magnitude below `m`, and is `a` itself when -m < a < m |
| `CircleNode.RemPeriodic` | scratch.js:130 | for a non-negative angle, adding one whole turn does not change its remainder |
| `CircleNode.StepKeepsShape` | scratch.js:127-138 | an update keeps radius and speed, puts the position on the circle at the new angle, and brings a non-negative advanced angle into [0, 2π) |
| `CircleNode.StepAdvancesAngle` | scratch.js:128-130 | below one turn the advanced angle is kept as is; between one and two turns exactly one turn is taken off |
| `CircleNode.StepZeroIsIdentity` | scratch.js:127-138 | updating a consistent node whose angle lies strictly between -2π and 2π by zero seconds leaves it unchanged |
| `CircleNode.Node.constructor` | scratch.js:112-123 | a new node has no links, angle 0, radius 0.1, speed 1 and its own position point at (0.1, 0) |
| `CircleNode.Node.Update` | scratch.js:127-132 | the node's new state is one `Step` of its old state: angle advanced by speed times the time step and wrapped by `%` 2π, and position recomputed |
| `CircleNode.Node.UpdatePosition` | scratch.js:134-138 | the position becomes (cos(angle) · radius, sin(angle) · radius) |
| `LinkedList.DoublyLinkedList.constructor` | scratch.js:40-44 | a new list is valid and empty, with no head and no tail |
| `LinkedList.DoublyLinkedList.Add` | scratch.js:74-88 | appending an unlinked node keeps the list valid, makes the node sequence the old one plus the node, adds one to the length and makes the node the tail; the node also becomes the head when the list was empty, and the head is kept otherwise |
| `LinkedList.DoublyLinkedList.Remove` | scratch.js:46-72 | in range, it keeps the list valid and returns the node that was at the index. The sequence loses exactly that element and the length drops by one; the sole node leaves the list empty, removing the head promotes the second node with no `prev`, and removing the tail promotes the one before with no `next`. Out of range, it returns nothing and changes neither the list nor any node |
| `LinkedList.DoublyLinkedList.ItemAt` | scratch.js:90-98 | returns the node at the index, reached from the head by `next` links; out of range it returns nothing |
| `LinkedList.ReachableAreNodes` | scratch.js:40-98 | in a valid list, the nodes reached from the head by `next` until null are exactly the list's nodes, and `length` is their number |
| `CircleSystem.StepAll` | scratch.js:157-161 | a whole-chain update is one step per node, node by node, and keeps the number of nodes |
| `CircleSystem.StepAllKeepsShape` | scratch.js:157-161 | after an update every node's position agrees with its angle, and its radius and speed are as before |
| `CircleSystem.FreshNodeAfterOneUpdate` | scratch.js:112-132 | a fresh node updated once by 0 ≤ Δ < 2π sits at angle Δ on its circle of radius 0.1 |
| `CircleSystem.FreshChainAfterOneUpdate` | scratch.js:144-161 | a freshly built chain updated once by 0 ≤ Δ < 2π has every node at angle Δ, and its offsets add up to n times one node's offset |
| `CircleSystem.CompoundCircleSystemModel.constructor` | scratch.js:144-153 | the system is valid, holds max(numNodes, 0) nodes, each in the fresh state, the nodes and their position points all new (so the caller may update the system it just built), and its origin is at (0, 0) |
| `CircleSystem.CompoundCircleSystemModel.AddNodes` | scratch.js:149-152 | the constructor's loop appends `numNodes` new nodes with new position points (none when `numNodes` ≤ 0), each in the fresh state, and keeps the system valid |
| `CircleSystem.CompoundCircleSystemModel.Update` | scratch.js:157-161 | the new states are exactly one step of the old states, node by node; the nodes, the list invariant and the origin's position are unchanged |
| `CircleSystem.UpdateEach` | scratch.js:158-160 | the loop over indices 0 to length-1 steps every node of the list exactly once |
| `CircleRenderer.CompoundCircleSystemRenderer.DrawPoint` | scratch.js:433-437 | the point renderer receives exactly the given position, after everything drawn before |
| `CircleRenderer.CompoundCircleSystemRenderer.Draw` | scratch.js:410-415 | drawing the system is `drawPoints`: the same points are drawn and the origin moves the same way |
| `CircleRenderer.CompoundCircleSystemRenderer.DrawPoints` | scratch.js:417-431 | the points drawn are those of a walk from the origin over the node offsets. The nodes are left alone, but the system's origin ends moved by the sum of all offsets |
| `CircleRenderer.CompoundCircleSystemRenderer.Walk` | scratch.js:422-427 | the loop draws, head to tail, the points of the walk from the running origin, and leaves the running origin moved by the sum of the offsets |
| `CircleRenderer.CompoundCircleSystemRenderer.DrawStep` | scratch.js:424-426 | one pass of the loop draws the running origin plus the node's offset and moves the running origin there |
| `CircleRenderer.CompoundCircleSystemRenderer.DrawPointsFromOrigin` | scratch.js:417-431 | with the running origin a copy, the points drawn are those of the walk from the system's origin over the node offsets, and the origin stays where it was |
| `CircleRenderer.DefaultChainDrifts` | scratch.js:462-463 | for the page's chain of five fresh nodes the offsets add up to (0.5, 0), so a second `drawPoints` from where the first left the origin draws different points |
| `CircleRenderer.BuildAndUpdate` | scratch.js:461-476 | building the page's system of five nodes and updating it once leaves a valid system whose states are one step of five fresh nodes, with the origin at (0, 0) |
| `CircleRenderer.FirstFrame` | scratch.js:461-477 | the first frame draws the walk from (0, 0) over the offsets of five fresh nodes, each updated once by the frame's time step |

## Left out

- The WebGL plumbing is not modelled: the context, shaders, buffers, `LineRenderer` and `PointRenderer` (scratch.js:185-375). `drawPoint` records the position it is handed in `drawn` instead of calling the point renderer; what the GL draw does with it is not modelled.
- The browser frame loop is not modelled beyond its first frame (scratch.js:464-482). That covers `requestAnimationFrame`, the canvas lookup, the clearing of the canvas and the clock, and the `console.log` at scratch.js:422. The time step is a parameter of `Update` and `FirstFrame`; the later frames, each another update followed by a draw, are not composed.
- `Math.cos` and `Math.sin` are not modelled. The caller supplies them as the `Trig` parameter, and every property holds for any choice of the two functions.
- Coordinates and angles are exact reals, not IEEE doubles. `2.0 * Math.PI` is the exact value of the double it evaluates to. Rounding in `+`, `*` and `%` is not modelled.
- `extend` (scratch.js:5-23) is not modelled: it is prototype plumbing. `Node` and `CompoundCircleNodeModel` become one class. The system holds its list as the field `list` instead of inheriting from it, and its `length` is `list.length`.
- `drawLines` and `drawLine` (scratch.js:439-456) are not modelled: the call to `drawLines` is commented out at scratch.js:412.
- scratch2.js is not part of this model: it duplicates the list and leaves the renderer as stubs.
- `numNodes` and the list indices are integers. JavaScript would also accept a fractional number (the loops would round it up) or a non-number.
- `LinkedList.DoublyLinkedList.Add` requires the node to be unlinked and not already in the list. The source accepts any node, but adding a linked node or one already in the list breaks the list; every caller in the source adds a freshly constructed node.
- `CircleSystem.CompoundCircleSystemModel.AddNodes`, `CircleSystem.UpdateEach`, `CircleRenderer.CompoundCircleSystemRenderer.Walk` and `CircleRenderer.CompoundCircleSystemRenderer.DrawStep` are loops or loop bodies of the constructor, `update` and `drawPoints`. They are split out as methods of their own; the statements are the source's.

## Findings

| source | as written | input that shows it | evidently intended | confidence | as-written member | corrected member |
|---|---|---|---|---|---|---|
| scratch.js:417-431 | `origin` is the system's own origin point, not a copy, so the loop's `origin.x +=` and `origin.y +=` move the stored origin by the sum of all offsets on every draw; `origin = originStart` only rebinds the local | the page's default system of five fresh nodes, drawn twice without an update: the first draw leaves the origin at (0.5, 0), and the second draws every point half a unit further right | the running origin is a copy, so every draw starts at the system's origin and leaves it in place | not executed | `CircleRenderer.CompoundCircleSystemRenderer.DrawPoints`, `CircleRenderer.DefaultChainDrifts` | `CircleRenderer.CompoundCircleSystemRenderer.DrawPointsFromOrigin` |
