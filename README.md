# A verified model of `DAG` (swipely/dag)

The Ruby gem `dag` keeps a directed acyclic graph in an object of class
`DAG`. The object holds two arrays that only grow. `vertices` lists the
`Vertex` objects made by `add_vertex`, and `edges` lists the `DAG::Edge`
structs made by `add_edge`.

- `add_edge` takes its endpoints under four alias keywords each.
- It raises `ArgumentError` when an endpoint is not a vertex of this
  graph, when the edge would be a loop, or when the destination already
  reaches the origin. So the graph stays acyclic.
- `subgraph(predecessors_of, successors_of)` builds a fresh `DAG`:
  - it collects the ancestors of the first roots and the descendants of
    the second;
  - it copies each collected vertex once, with its payload;
  - it copies the edges arriving at the ancestor set and the edges
    leaving the descendant set.

The Dafny project has four modules:

- `Wrappers` (`wrappers.dfy`): `Option` and `Result`.
- `OrderedSets` (`ordered_sets.dfy`): Ruby's insertion-ordered `Set` as a
  repetition-free sequence.
- `Reachability` (`reachability.dfy`): paths over a list of arcs,
  acyclicity, and a worklist search proved against reachability.
- `Dag` (`dag.dfy`): the two classes and the operations of lib/dag.rb.

`DAG` and `Vertex` are Dafny classes. `DAG` keeps `vertices` and `edges`
as sequence fields that its methods reassign. `Valid()` is the invariant
every method keeps:

- vertices and edge endpoints belong to this graph;
- no vertex is listed twice;
- the edges form no cycle.

Payloads and edge properties are type parameters, and the graph never
looks inside them. A Ruby value passed where a vertex is expected is an
`Arg`: nil, false, a vertex, or any other truthy object. That lets
Ruby's `||` chains and `kind_of?` checks be modelled exactly. The
`ArgumentError`s become the four constructors of `Error`, returned in a
`Result`. A refused call changes nothing.

Some facts describe the graph at the moment `subgraph` runs, after the
method returns only ghost values:

- the ancestor and descendant sets it collects;
- the vertex mapping it builds.

`IsSubgraph` states the relation between the old graph and the new one
in those terms.

### Which edges `subgraph` copies

`edge_set` is created at lib/dag.rb:49 and tested before each copy at
lib/dag.rb:80 and lib/dag.rb:93, but nothing is ever added to it. Two
consequences follow from the code:

- An edge that arrives in the predecessor set and leaves from the
  successor set is copied by both passes, so the result holds two equal
  parallel edges (`SharedEdgeCopiedTwice`).
- An edge is copied only when it arrives in the predecessor set or leaves
  the successor set (`CopiedEdgesMeaning`). An edge from a predecessor to
  a successor fits neither pass and is not copied, although both of its
  ends are. With a single edge X→Y, `subgraph([X], [Y])` yields two
  vertices and no edge.

## Model

| member | source | states |
|---|---|---|
| Dag.FirstTruthy | lib/dag.rb:30-31 | `a[k0] \|\| a[k1] \|\| ...` yields the value of the first key whose value is truthy, and the value of the last key when none is |
| Dag.FromTo | lib/dag.rb:82-85 | the `from:`/`to:`/`properties:` arguments `subgraph` builds resolve to exactly the given origin, destination and properties |
| Dag.Outgoing | lib/dag.rb:92 | `outgoing_edges` holds only edges of the graph leaving the vertex, and every such edge |
| Dag.Incoming | lib/dag.rb:79 | `incoming_edges` holds only edges of the graph arriving at the vertex, and every such edge |
| Dag.OutgoingAfterAppend | lib/dag.rb:41 | appending an edge extends the origin's outgoing list by that edge, at the end, and leaves every other vertex's list alone |
| Dag.IncomingAfterAppend | lib/dag.rb:41 | appending an edge extends the destination's incoming list by that edge, at the end, and leaves every other vertex's list alone |
| Dag.Vertex.constructor | lib/dag.rb:23 | a new vertex records its graph and payload and carries no mixin yet |
| Dag.Vertex.HasPathTo | lib/dag.rb:38 | `has_path_to?` answers true exactly when a nonempty chain of edges leads from this vertex to the other |
| Dag.Vertex.Descendants | lib/dag.rb:70 | the accumulator keeps its contents as a prefix; afterwards it holds exactly its old elements and the vertices this one reaches; it stays repetition-free |
| Dag.Vertex.Ancestors | lib/dag.rb:57 | the accumulator keeps its contents as a prefix; afterwards it holds exactly its old elements and the vertices that reach this one; it stays repetition-free |
| Reachability.Search | lib/dag.rb:38 | the worklist search finds the target exactly when it is reachable; when it does not stop early, it returns exactly the set of reachable vertices |
| Reachability.ReachesReversed | lib/dag.rb:57 | `v` reaches `u` over the reversed arcs exactly when `u` reaches `v` over the arcs, so ancestors are descendants of the reversed graph |
| OrderedSets.AddAll | lib/dag.rb:56-57 | `Set#add` of many elements: the old contents stay first and in place, the result holds exactly the old and the new elements, and no element twice |
| Dag.DAG.constructor | lib/dag.rb:15-20 | `DAG.new` has no vertices and no edges, records both mixins and is valid |
| Dag.DAG.AddVertex | lib/dag.rb:22-27 | appends one fresh vertex owned by this graph, with the given payload (default `{}`) and the graph's mixin; the edges are unchanged and the graph stays valid |
| Dag.DAG.AddEdge | lib/dag.rb:29-43 | origin checked first, then destination, each with its own error, then a loop and then a path from destination to origin, the last two sharing `CycleRejected`; otherwise exactly the resolved edge is appended with properties defaulting to `{}`; a refusal leaves the edges as they were; vertices never change; validity (acyclicity) is kept |
| Reachability.AppendArcAcyclic | lib/dag.rb:37-41 | adding an arc to an acyclic graph keeps it acyclic if and only if the arc is not a loop and its head does not already reach its tail, so the two cycle checks are exactly what acyclicity needs |
| Dag.AncestorClosureMeaning | lib/dag.rb:52-58 | a vertex is in the predecessor set exactly when it is one of the vertex roots or reaches one of them |
| Dag.DescendantClosureMeaning | lib/dag.rb:65-71 | a vertex is in the successor set exactly when it is one of the vertex roots or is reached from one of them |
| Dag.AncestorClosureTakesOrigins | lib/dag.rb:78-85 | the origin of an edge arriving in the predecessor set is itself in that set, so `vertex_mapping[origin]` is always defined |
| Dag.DescendantClosureTakesDestinations | lib/dag.rb:91-98 | the destination of an edge leaving the successor set is itself in that set, so `vertex_mapping[destination]` is always defined |
| Dag.DAG.AddWithAncestors | lib/dag.rb:56-57 | one root's `add` and `ancestors` calls grow the collected set by that root and its ancestors, keeping it repetition-free and within this graph |
| Dag.DAG.AddWithDescendants | lib/dag.rb:69-70 | one root's `add` and `descendants` calls grow the collected set by that root and its descendants, keeping it repetition-free and within this graph |
| Dag.DAG.PredecessorsSet | lib/dag.rb:52-58 | fails exactly when some root is not a vertex of this graph; otherwise returns the repetition-free set of the roots and all their ancestors |
| Dag.DAG.SuccessorsSet | lib/dag.rb:65-71 | fails exactly when some root is not a vertex of this graph; otherwise returns the repetition-free set of the roots and all their descendants |
| Dag.CopyVertices | lib/dag.rb:73-75 | each vertex not yet mapped gets one fresh copy with the same payload, appended in order; existing mappings stay; the mapping stays injective into the result's vertices |
| Dag.WithoutMeaning | lib/dag.rb:74 | the vertices the `unless vertex_mapping.include? v` loop copies are exactly those of the set not already mapped |
| Dag.FirstCopies | lib/dag.rb:60-62 | the first vertex loop maps every predecessor and the result's vertices are their copies in set order |
| Dag.BothCopies | lib/dag.rb:60-75 | after both vertex loops the mapping covers both sets and the result's vertices are the copies of the predecessors followed by those of the successors not already copied |
| Dag.CopiedOnce | lib/dag.rb:60-75 | the vertices copied are exactly those of the two sets, and none is copied twice |
| Dag.CopyEdgesArcs | lib/dag.rb:82-85 | the arcs of the copied edges are the original arcs renamed through the vertex mapping |
| Reachability.PullBackReaches | lib/dag.rb:82-85 | under an injective renaming, a path between copies is the image of a path between the originals |
| Dag.CopyAcceptsEdge | lib/dag.rb:82-85 | the `add_edge` calls `subgraph` makes never raise: a copied edge is not a loop and its copied destination never reaches its copied origin |
| Dag.CopyEdge | lib/dag.rb:81-85 | one `add_edge` call appends exactly the renamed copy of the edge and keeps the result valid |
| Dag.CopyEdgeList | lib/dag.rb:79-87 | copying a vertex's edge list appends their renamed copies, in order |
| Dag.IncomingOfAllMeaning | lib/dag.rb:78-79 | the first edge pass visits exactly the graph's edges arriving at a predecessor |
| Dag.OutgoingOfAllMeaning | lib/dag.rb:91-92 | the second edge pass visits exactly the graph's edges leaving a successor |
| Dag.DAG.CopyIncomingEdges | lib/dag.rb:78-88 | the first pass appends the renamed copies of the incoming edges of each predecessor, in set order, and the result stays valid |
| Dag.DAG.CopyOutgoingEdges | lib/dag.rb:91-101 | the second pass appends the renamed copies of the outgoing edges of each successor, in set order, and the result stays valid |
| Dag.DAG.CopySubgraphEdges | lib/dag.rb:77-101 | the result's edges are the renamed copies of the first pass's edges followed by those of the second |
| Dag.CopiedEdgesMeaning | lib/dag.rb:77-101 | an edge is copied exactly when it is an edge of the graph that arrives in the predecessor set or leaves the successor set |
| Dag.SharedEdgeCopiedTwice | lib/dag.rb:80-93 | `edge_set` stays empty, so an edge arriving in the predecessor set and leaving the successor set occurs at least twice among the copied edges |
| Dag.DAG.CopyRest | lib/dag.rb:73-101 | after the predecessors are copied, copying the successors and both edge passes yields a result meeting `IsSubgraph` |
| Dag.DAG.Subgraph | lib/dag.rb:45-104 | fails with the root error exactly when some root of either list is not a vertex of this graph; otherwise returns a fresh valid graph with the same vertex mixin and no edge mixin, whose vertices are payload-preserving copies of the collected ancestors and descendants and whose edges are the renamed copies of both passes |

## Left out

- `render` and the presenter classes (lib/dag/dag_presenter.rb, both
  graphviz presenters) are not part of this model. They only read the
  graph.
- lib/dag/vertex.rb is not part of this model. Its operations are
  modelled from their use in lib/dag.rb:
  - `outgoing_edges` and `incoming_edges` are filters over the graph's
    edges.
  - `has_path_to?`, `ancestors` and `descendants` are one worklist
    search, specified by reachability.
  - Their own traversal order, and the other helpers in that file, are
    not modelled.
- Dag.Vertex.Ancestors and Dag.Vertex.Descendants: Ruby passes the `Set`
  in and mutates it. The model returns the extended sequence instead.
  The model therefore does not capture that the caller's set object
  itself changes, nor the order in which new vertices are added. Only
  the old contents staying first is stated.
- OrderedSets.AddAll: the order of the added elements is left open. The
  sets compared in the proofs are treated as sets.
- Dag.DAG.AddEdge: `e.extend(@mixin_edge)` is not modelled. Edges are
  values, and the edge mixin is only recorded in the graph.
- Dag.DAG.Subgraph: it does not state which mixin the copied vertices
  carry. `AddVertex` states it for every vertex it makes.
- Dag.DAG.Subgraph: for an invalid successor root, Ruby raises after the
  predecessors are already copied into the unfinished result. That
  object is unreachable afterwards, so the model only reports the error.
- Ruby exceptions are modelled as `Result` values. The error messages
  are represented by the constructors of `Error`, not as strings.
- Object identity, `==`/`hash` of `DAG::Edge` and of vertices follow
  Dafny's reference equality for classes and value equality for
  datatypes. Ruby's `Struct#==` on edges is value equality, as modelled.
- Payload and properties hashes are opaque type parameters. The model
  does not look inside them.
