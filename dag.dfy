/** The append-only directed acyclic graph of lib/dag.rb: a `DAG` object
    owns two growing sequences, its vertices and its edges; `add_edge`
    refuses any edge that would close a cycle, and `subgraph` copies an
    ancestor closure and a descendant closure into a fresh `DAG`. */
module Dag {
  import opened Wrappers
  import opened Reachability
  import opened OrderedSets

  /** A Ruby module given to `DAG.new` as `:mixin` or `:mixin_edge`; only
      its identity matters to the graph. */
  datatype Mixin = Mixin(name: string)

  /** Caller data stored as a vertex payload or as edge properties. The
      graph never looks inside; `EmptyHash` is Ruby's `{}` default. */
  datatype Data<T> = EmptyHash | Item(value: T)

  /** A Ruby value handed in where a vertex is expected: an endpoint of
      `add_edge` or a root of `subgraph`. `OtherValue` is any truthy
      non-vertex object, such as the integer 23. */
  datatype Arg<P, Q> = Nil | False | VertexValue(v: Vertex<P, Q>) | OtherValue

  /** The keyword names `add_edge` accepts for its two endpoints. */
  datatype Key = Origin | Source | From | Start | Destination | Sink | To | End

  /** The keyword arguments of one `add_edge` call. A key that is absent
      stands for nil; `properties` is `None` when that key is absent, nil
      or false. */
  datatype EdgeAttrs<P, Q> = EdgeAttrs(endpoints: map<Key, Arg<P, Q>>, properties: Option<Data<Q>>)

  /** `DAG::Edge`, a Ruby Struct: compared by value, so two parallel edges
      with equal properties are equal. */
  datatype Edge<P, Q> = Edge(origin: Vertex<P, Q>, destination: Vertex<P, Q>, properties: Data<Q>)

  /** The `ArgumentError`s the graph raises, one per message. */
  datatype Error =
    | InvalidOrigin       // 'Origin must be a vertex in this DAG'
    | InvalidDestination  // 'Destination must be a vertex in this DAG'
    | CycleRejected       // 'A DAG must not have cycles'
    | InvalidRoot         // 'You must supply a vertex in this DAG'

  /** The alias order for each endpoint, most preferred first. */
  const OriginKeys: seq<Key> := [Origin, Source, From, Start]
  const DestinationKeys: seq<Key> := [Destination, Sink, To, End]

  /** Ruby truthiness: everything but nil and false. */
  predicate Truthy<P, Q>(a: Arg<P, Q>) {
    !(a.Nil? || a.False?)
  }

  /** `attrs[k]`: nil for an absent key. */
  function Lookup<P, Q>(m: map<Key, Arg<P, Q>>, k: Key): Arg<P, Q> {
    if k in m then m[k] else Nil
  }

  /** `m[k0] || m[k1] || ...`: the value under the first key whose value is
      truthy, or else the (falsy) value under the last key. */
  function FirstTruthy<P, Q>(m: map<Key, Arg<P, Q>>, keys: seq<Key>): (r: Arg<P, Q>)
    requires keys != []
    ensures forall i :: 0 <= i < |keys| && Truthy(Lookup(m, keys[i])) &&
                        (forall j :: 0 <= j < i ==> !Truthy(Lookup(m, keys[j])))
                        ==> r == Lookup(m, keys[i])
    ensures (forall i :: 0 <= i < |keys| ==> !Truthy(Lookup(m, keys[i]))) ==> r == Lookup(m, keys[|keys| - 1])
  {
    if |keys| == 1 || Truthy(Lookup(m, keys[0])) then Lookup(m, keys[0])
    else
      var r := FirstTruthy(m, keys[1..]);
      assert forall i :: 1 <= i < |keys| ==> keys[1..][i - 1] == keys[i];
      r
  }

  function ResolveOrigin<P, Q>(attrs: EdgeAttrs<P, Q>): Arg<P, Q> {
    FirstTruthy(attrs.endpoints, OriginKeys)
  }

  function ResolveDestination<P, Q>(attrs: EdgeAttrs<P, Q>): Arg<P, Q> {
    FirstTruthy(attrs.endpoints, DestinationKeys)
  }

  /** `attrs[:properties] || {}` */
  function PropertiesOf<P, Q>(attrs: EdgeAttrs<P, Q>): Data<Q> {
    attrs.properties.GetOr(EmptyHash)
  }

  /** The arguments `subgraph` passes to `add_edge`: `from:`, `to:` and
      `properties:`; they resolve to exactly the vertices and data given. */
  function FromTo<P, Q>(origin: Vertex<P, Q>, destination: Vertex<P, Q>, properties: Data<Q>): (attrs: EdgeAttrs<P, Q>)
    ensures ResolveOrigin(attrs) == VertexValue(origin)
    ensures ResolveDestination(attrs) == VertexValue(destination)
    ensures PropertiesOf(attrs) == properties
  {
    var attrs := EdgeAttrs(map[From := VertexValue(origin), To := VertexValue(destination)], Some(properties));
    assert OriginKeys[2] == From && DestinationKeys[2] == To;
    attrs
  }

  /** Each edge seen as an arc from its origin to its destination. */
  function Arcs<P, Q>(E: seq<Edge<P, Q>>): seq<Arc<Vertex<P, Q>>> {
    seq(|E|, i requires 0 <= i < |E| => (E[i].origin, E[i].destination))
  }

  /** The edges of `E` that leave `v`, in insertion order. */
  function Outgoing<P, Q>(E: seq<Edge<P, Q>>, v: Vertex<P, Q>): (r: seq<Edge<P, Q>>)
    ensures |r| <= |E|
    ensures forall e :: e in r ==> e in E && e.origin == v
    ensures forall i :: 0 <= i < |E| && E[i].origin == v ==> E[i] in r
  {
    if E == [] then [] else (if E[0].origin == v then [E[0]] else []) + Outgoing(E[1..], v)
  }

  /** The edges of `E` that arrive at `v`, in insertion order. */
  function Incoming<P, Q>(E: seq<Edge<P, Q>>, v: Vertex<P, Q>): (r: seq<Edge<P, Q>>)
    ensures |r| <= |E|
    ensures forall e :: e in r ==> e in E && e.destination == v
    ensures forall i :: 0 <= i < |E| && E[i].destination == v ==> E[i] in r
  {
    if E == [] then [] else (if E[0].destination == v then [E[0]] else []) + Incoming(E[1..], v)
  }

  /** Appending an edge appends it to its origin's outgoing list, and to
      no other vertex's outgoing list. */
  lemma {:induction false} OutgoingAfterAppend<P, Q>(E: seq<Edge<P, Q>>, e: Edge<P, Q>, v: Vertex<P, Q>)
    ensures Outgoing(E + [e], v) == Outgoing(E, v) + (if e.origin == v then [e] else [])
  {
    if E != [] {
      assert (E + [e])[1..] == E[1..] + [e];
      OutgoingAfterAppend(E[1..], e, v);
    }
  }

  /** Appending an edge appends it to its destination's incoming list, and
      to no other vertex's incoming list. */
  lemma {:induction false} IncomingAfterAppend<P, Q>(E: seq<Edge<P, Q>>, e: Edge<P, Q>, v: Vertex<P, Q>)
    ensures Incoming(E + [e], v) == Incoming(E, v) + (if e.destination == v then [e] else [])
  {
    if E != [] {
      assert (E + [e])[1..] == E[1..] + [e];
      IncomingAfterAppend(E[1..], e, v);
    }
  }

  /** The vertices from which `v` is reachable over `E`. */
  ghost function AncestorsOf<P, Q>(E: seq<Edge<P, Q>>, v: Vertex<P, Q>): set<Vertex<P, Q>> {
    set x | x in Tails(Arcs(E)) && Reaches(Arcs(E), x, v)
  }

  /** The vertices reachable from `v` over `E`. */
  ghost function DescendantsOf<P, Q>(E: seq<Edge<P, Q>>, v: Vertex<P, Q>): set<Vertex<P, Q>> {
    set x | x in Heads(Arcs(E)) && Reaches(Arcs(E), v, x)
  }

  /** Each root together with its ancestors: what `subgraph` collects
      into `predecessors_set`. */
  ghost function AncestorClosure<P, Q>(E: seq<Edge<P, Q>>, roots: seq<Arg<P, Q>>): set<Vertex<P, Q>>
    decreases |roots|
  {
    if roots == [] then {}
    else
      var a := roots[|roots| - 1];
      AncestorClosure(E, roots[..|roots| - 1]) + (if a.VertexValue? then {a.v} + AncestorsOf(E, a.v) else {})
  }

  /** Each root together with its descendants: `successors_set`. */
  ghost function DescendantClosure<P, Q>(E: seq<Edge<P, Q>>, roots: seq<Arg<P, Q>>): set<Vertex<P, Q>>
    decreases |roots|
  {
    if roots == [] then {}
    else
      var a := roots[|roots| - 1];
      DescendantClosure(E, roots[..|roots| - 1]) + (if a.VertexValue? then {a.v} + DescendantsOf(E, a.v) else {})
  }

  /** Each edge copied between the images of its endpoints, properties kept. */
  function CopyEdges<P, Q>(m: map<Vertex<P, Q>, Vertex<P, Q>>, E: seq<Edge<P, Q>>): (r: seq<Edge<P, Q>>)
    requires forall i :: 0 <= i < |E| ==> E[i].origin in m && E[i].destination in m
    ensures |r| == |E|
  {
    if E == [] then []
    else
      var e := E[|E| - 1];
      CopyEdges(m, E[..|E| - 1]) + [Edge(m[e.origin], m[e.destination], e.properties)]
  }

  /** The images of a sequence of mapped vertices. */
  function MapVertices<P, Q>(m: map<Vertex<P, Q>, Vertex<P, Q>>, vs: seq<Vertex<P, Q>>): (r: seq<Vertex<P, Q>>)
    requires forall i :: 0 <= i < |vs| ==> vs[i] in m
    ensures |r| == |vs|
  {
    if vs == [] then [] else MapVertices(m, vs[..|vs| - 1]) + [m[vs[|vs| - 1]]]
  }

  /** The elements of `s` not in `t`, each once, in the order they first
      appear in `s`. */
  ghost function Without<T>(s: seq<T>, t: set<T>): (r: seq<T>)
    ensures forall i :: 0 <= i < |r| ==> r[i] in s && r[i] !in t
  {
    if s == [] then []
    else
      var x := s[|s| - 1];
      Without(s[..|s| - 1], t) + (if x in t || x in s[..|s| - 1] then [] else [x])
  }

  /** The incoming edges of each vertex of `vs` in turn, as `subgraph`'s
      first edge pass visits them; then the outgoing edges, for its second. */
  ghost function IncomingOfAll<P, Q>(E: seq<Edge<P, Q>>, vs: seq<Vertex<P, Q>>): seq<Edge<P, Q>> {
    if vs == [] then [] else IncomingOfAll(E, vs[..|vs| - 1]) + Incoming(E, vs[|vs| - 1])
  }

  ghost function OutgoingOfAll<P, Q>(E: seq<Edge<P, Q>>, vs: seq<Vertex<P, Q>>): seq<Edge<P, Q>> {
    if vs == [] then [] else OutgoingOfAll(E, vs[..|vs| - 1]) + Outgoing(E, vs[|vs| - 1])
  }

  /** The first edge pass visits exactly the edges arriving at one of
      `vs`. */
  lemma {:induction false} IncomingOfAllMeaning<P, Q>(E: seq<Edge<P, Q>>, vs: seq<Vertex<P, Q>>, e: Edge<P, Q>)
    ensures e in IncomingOfAll(E, vs) <==> e in E && e.destination in vs
  {
    if vs != [] {
      var front, v := vs[..|vs| - 1], vs[|vs| - 1];
      IncomingOfAllMeaning(E, front, e);
      assert vs == front + [v];
      if e in E && e.destination == v {
        var i :| 0 <= i < |E| && E[i] == e;
      }
    }
  }

  /** The second edge pass visits exactly the edges leaving one of `vs`. */
  lemma {:induction false} OutgoingOfAllMeaning<P, Q>(E: seq<Edge<P, Q>>, vs: seq<Vertex<P, Q>>, e: Edge<P, Q>)
    ensures e in OutgoingOfAll(E, vs) <==> e in E && e.origin in vs
  {
    if vs != [] {
      var front, v := vs[..|vs| - 1], vs[|vs| - 1];
      OutgoingOfAllMeaning(E, front, e);
      assert vs == front + [v];
      if e in E && e.origin == v {
        var i :| 0 <= i < |E| && E[i] == e;
      }
    }
  }

  /** `subgraph` copies the edges arriving in the predecessor set and the
      edges leaving the successor set, and no other edge. An edge whose
      ends are both copied, but which neither arrives in the first set nor
      leaves the second, is not copied. */
  lemma CopiedEdgesMeaning<P, Q>(E: seq<Edge<P, Q>>, preds: seq<Vertex<P, Q>>, succs: seq<Vertex<P, Q>>, e: Edge<P, Q>)
    ensures e in IncomingOfAll(E, preds) + OutgoingOfAll(E, succs) <==>
            e in E && (e.destination in preds || e.origin in succs)
  {
    IncomingOfAllMeaning(E, preds, e);
    OutgoingOfAllMeaning(E, succs, e);
  }

  /** `edge_set` stays empty, so an edge arriving in the predecessor set
      and leaving from the successor set is copied by both passes. */
  lemma SharedEdgeCopiedTwice<P, Q>(E: seq<Edge<P, Q>>, preds: seq<Vertex<P, Q>>, succs: seq<Vertex<P, Q>>, e: Edge<P, Q>)
    requires e in E && e.destination in preds && e.origin in succs
    ensures multiset(IncomingOfAll(E, preds) + OutgoingOfAll(E, succs))[e] >= 2
  {
    IncomingOfAllMeaning(E, preds, e);
    OutgoingOfAllMeaning(E, succs, e);
    assert multiset(IncomingOfAll(E, preds))[e] >= 1;
    assert multiset(OutgoingOfAll(E, succs))[e] >= 1;
  }

  /** `Without` keeps exactly the elements of `s` outside `t`. */
  lemma {:induction false} WithoutMeaning<T>(s: seq<T>, t: set<T>, x: T)
    ensures x in Without(s, t) <==> x in s && x !in t
  {
    if s != [] {
      var front := s[..|s| - 1];
      WithoutMeaning(front, t, x);
      assert s == front + [s[|s| - 1]];
    }
  }

  /** ... each once. */
  lemma {:induction false} WithoutDistinct<T>(s: seq<T>, t: set<T>)
    ensures Distinct(Without(s, t))
  {
    if s != [] {
      var front, x := s[..|s| - 1], s[|s| - 1];
      WithoutDistinct(front, t);
      if x !in t && x !in front {
        WithoutMeaning(front, t, x);
        var w := Without(front, t);
        assert Without(s, t) == w + [x];
        assert forall i :: 0 <= i < |w| ==> w[i] != x;
      }
    }
  }

  /** The vertex list `subgraph` copies names every vertex of either set,
      and none twice. */
  lemma CopiedOnce<P, Q>(preds: seq<Vertex<P, Q>>, succs: seq<Vertex<P, Q>>)
    requires Distinct(preds)
    ensures Distinct(preds + Without(succs, Elements(preds)))
    ensures forall x :: x in preds + Without(succs, Elements(preds)) <==> x in preds || x in succs
  {
    var W := Without(succs, Elements(preds));
    WithoutDistinct(succs, Elements(preds));
    forall x
      ensures x in W <==> x in succs && x !in preds
    {
      WithoutMeaning(succs, Elements(preds), x);
    }
    forall i, j | 0 <= i < j < |preds + W|
      ensures (preds + W)[i] != (preds + W)[j]
    {
      if j >= |preds| {
        assert (preds + W)[j] == W[j - |preds|];
        if i < |preds| {
          assert (preds + W)[i] == preds[i];
        } else {
          assert (preds + W)[i] == W[i - |preds|];
        }
      }
    }
  }

  /** Every edge of `es` is an edge of `E` whose ends `m` maps. */
  ghost predicate Mapped<P, Q>(m: map<Vertex<P, Q>, Vertex<P, Q>>, E: seq<Edge<P, Q>>, es: seq<Edge<P, Q>>) {
    forall i :: 0 <= i < |es| ==> es[i] in E && es[i].origin in m && es[i].destination in m
  }

  lemma MappedAppend<P, Q>(m: map<Vertex<P, Q>, Vertex<P, Q>>, E: seq<Edge<P, Q>>, a: seq<Edge<P, Q>>, b: seq<Edge<P, Q>>)
    requires Mapped(m, E, a) && Mapped(m, E, b)
    ensures Mapped(m, E, a + b)
  {
    forall i | 0 <= i < |a + b|
      ensures (a + b)[i] in E && (a + b)[i].origin in m && (a + b)[i].destination in m
    {
      if i >= |a| {
        assert (a + b)[i] == b[i - |a|];
      }
    }
  }

  /** Regrouping a three-part concatenation; kept as a separate lemma so
      that the loops using it do not reason about sequence equality in
      their own, much larger, proof contexts. */
  lemma AppendAssoc<T>(a: seq<T>, b: seq<T>, c: seq<T>)
    ensures a + (b + c) == (a + b) + c
  {
  }

  lemma IncomingOfAllNext<P, Q>(E: seq<Edge<P, Q>>, vs: seq<Vertex<P, Q>>, i: int)
    requires 0 <= i < |vs|
    ensures IncomingOfAll(E, vs[..i + 1]) == IncomingOfAll(E, vs[..i]) + Incoming(E, vs[i])
  {
    assert vs[..i + 1][..i] == vs[..i];
  }

  lemma OutgoingOfAllNext<P, Q>(E: seq<Edge<P, Q>>, vs: seq<Vertex<P, Q>>, i: int)
    requires 0 <= i < |vs|
    ensures OutgoingOfAll(E, vs[..i + 1]) == OutgoingOfAll(E, vs[..i]) + Outgoing(E, vs[i])
  {
    assert vs[..i + 1][..i] == vs[..i];
  }

  /** The incoming edges of a vertex of an ancestor closure have both ends
      in the closure. */
  lemma IncomingMapped<P, Q>(E: seq<Edge<P, Q>>, R: seq<Arg<P, Q>>, m: map<Vertex<P, Q>, Vertex<P, Q>>, d: Vertex<P, Q>)
    requires d in AncestorClosure(E, R) && AncestorClosure(E, R) <= m.Keys
    ensures Mapped(m, E, Incoming(E, d))
  {
    var es := Incoming(E, d);
    forall i | 0 <= i < |es|
      ensures es[i] in E && es[i].origin in m && es[i].destination in m
    {
      assert es[i] in es;
      AncestorClosureTakesOrigins(E, R, es[i]);
    }
  }

  /** The outgoing edges of a vertex of a descendant closure have both ends
      in the closure. */
  lemma OutgoingMapped<P, Q>(E: seq<Edge<P, Q>>, R: seq<Arg<P, Q>>, m: map<Vertex<P, Q>, Vertex<P, Q>>, o: Vertex<P, Q>)
    requires o in DescendantClosure(E, R) && DescendantClosure(E, R) <= m.Keys
    ensures Mapped(m, E, Outgoing(E, o))
  {
    var es := Outgoing(E, o);
    forall i | 0 <= i < |es|
      ensures es[i] in E && es[i].origin in m && es[i].destination in m
    {
      assert es[i] in es;
      DescendantClosureTakesDestinations(E, R, es[i]);
    }
  }

  /** A sequence without repetitions loses nothing to `Without` an empty
      set. */
  lemma {:induction false} WithoutNothing<T>(s: seq<T>)
    requires Distinct(s)
    ensures Without(s, {}) == s
  {
    if s != [] {
      var p := s[..|s| - 1];
      assert Distinct(p);
      WithoutNothing(p);
      assert s[|s| - 1] !in p;
      assert s == p + [s[|s| - 1]];
    }
  }

  /** Two maps that agree on `vs` give `vs` the same images. */
  lemma {:induction false} MapVerticesAgree<P, Q>(m1: map<Vertex<P, Q>, Vertex<P, Q>>, m2: map<Vertex<P, Q>, Vertex<P, Q>>,
                                                  vs: seq<Vertex<P, Q>>)
    requires forall i :: 0 <= i < |vs| ==> vs[i] in m1 && vs[i] in m2 && m1[vs[i]] == m2[vs[i]]
    ensures MapVertices(m1, vs) == MapVertices(m2, vs)
  {
    if vs != [] {
      MapVerticesAgree(m1, m2, vs[..|vs| - 1]);
    }
  }

  lemma {:induction false} MapVerticesAppend<P, Q>(m: map<Vertex<P, Q>, Vertex<P, Q>>, a: seq<Vertex<P, Q>>, b: seq<Vertex<P, Q>>)
    requires forall i :: 0 <= i < |a| ==> a[i] in m
    requires forall i :: 0 <= i < |b| ==> b[i] in m
    ensures forall i :: 0 <= i < |a + b| ==> (a + b)[i] in m
    ensures MapVertices(m, a + b) == MapVertices(m, a) + MapVertices(m, b)
  {
    if b == [] {
      assert a + b == a;
    } else {
      var p := b[..|b| - 1];
      MapVerticesAppend(m, a, p);
      assert (a + b)[..|a + b| - 1] == a + p;
    }
  }

  /** An edge is an arc of the edge sequence it belongs to. */
  lemma EdgeArc<P, Q>(E: seq<Edge<P, Q>>, e: Edge<P, Q>)
    requires e in E
    ensures (e.origin, e.destination) in Arcs(E)
  {
    var i :| 0 <= i < |E| && E[i] == e;
    assert Arcs(E)[i] == (e.origin, e.destination);
  }

  /** The ancestor closure holds exactly the roots that are vertices and
      the vertices that reach one of them. */
  lemma {:induction false} AncestorClosureMeaning<P, Q>(E: seq<Edge<P, Q>>, roots: seq<Arg<P, Q>>, x: Vertex<P, Q>)
    ensures x in AncestorClosure(E, roots) <==>
            exists k :: 0 <= k < |roots| && roots[k].VertexValue? && (x == roots[k].v || Reaches(Arcs(E), x, roots[k].v))
    decreases |roots|
  {
    if roots != [] {
      var n := |roots| - 1;
      var front := roots[..n];
      AncestorClosureMeaning(E, front, x);
      if x in AncestorClosure(E, front) {
        var k :| 0 <= k < |front| && front[k].VertexValue? && (x == front[k].v || Reaches(Arcs(E), x, front[k].v));
        assert roots[k] == front[k];
      } else if roots[n].VertexValue? && (x == roots[n].v || Reaches(Arcs(E), x, roots[n].v)) {
        if x != roots[n].v {
          ReachesEnds(Arcs(E), x, roots[n].v);
        }
      } else {
        forall k | 0 <= k < |roots| && roots[k].VertexValue?
          ensures !(x == roots[k].v || Reaches(Arcs(E), x, roots[k].v))
        {
          if k < n {
            assert roots[k] == front[k];
          }
        }
      }
    }
  }

  /** The descendant closure holds exactly the roots that are vertices and
      the vertices one of them reaches. */
  lemma {:induction false} DescendantClosureMeaning<P, Q>(E: seq<Edge<P, Q>>, roots: seq<Arg<P, Q>>, x: Vertex<P, Q>)
    ensures x in DescendantClosure(E, roots) <==>
            exists k :: 0 <= k < |roots| && roots[k].VertexValue? && (x == roots[k].v || Reaches(Arcs(E), roots[k].v, x))
    decreases |roots|
  {
    if roots != [] {
      var n := |roots| - 1;
      var front := roots[..n];
      DescendantClosureMeaning(E, front, x);
      if x in DescendantClosure(E, front) {
        var k :| 0 <= k < |front| && front[k].VertexValue? && (x == front[k].v || Reaches(Arcs(E), front[k].v, x));
        assert roots[k] == front[k];
      } else if roots[n].VertexValue? && (x == roots[n].v || Reaches(Arcs(E), roots[n].v, x)) {
        if x != roots[n].v {
          ReachesEnds(Arcs(E), roots[n].v, x);
        }
      } else {
        forall k | 0 <= k < |roots| && roots[k].VertexValue?
          ensures !(x == roots[k].v || Reaches(Arcs(E), roots[k].v, x))
        {
          if k < n {
            assert roots[k] == front[k];
          }
        }
      }
    }
  }

  /** The ancestor closure of a root list takes in the origin of every
      edge arriving inside it, so `subgraph` finds both ends of each
      incoming edge it copies already mapped. */
  lemma {:induction false} AncestorClosureTakesOrigins<P, Q>(E: seq<Edge<P, Q>>, roots: seq<Arg<P, Q>>, e: Edge<P, Q>)
    requires e in E && e.destination in AncestorClosure(E, roots)
    ensures e.origin in AncestorClosure(E, roots)
    decreases |roots|
  {
    EdgeArc(E, e);
    var a := roots[|roots| - 1];
    if e.destination in AncestorClosure(E, roots[..|roots| - 1]) {
      AncestorClosureTakesOrigins(E, roots[..|roots| - 1], e);
      return;
    }
    var v := a.v;
    if e.destination == v {
      ArcReaches(Arcs(E), e.origin, v);
      ReachesEnds(Arcs(E), e.origin, v);
    } else {
      ArcThenReaches(Arcs(E), e.origin, e.destination, v);
      ReachesEnds(Arcs(E), e.origin, v);
    }
  }

  /** Dually, the descendant closure takes in the destination of every
      edge leaving it. */
  lemma {:induction false} DescendantClosureTakesDestinations<P, Q>(E: seq<Edge<P, Q>>, roots: seq<Arg<P, Q>>, e: Edge<P, Q>)
    requires e in E && e.origin in DescendantClosure(E, roots)
    ensures e.destination in DescendantClosure(E, roots)
    decreases |roots|
  {
    EdgeArc(E, e);
    var a := roots[|roots| - 1];
    if e.origin in DescendantClosure(E, roots[..|roots| - 1]) {
      DescendantClosureTakesDestinations(E, roots[..|roots| - 1], e);
      return;
    }
    var v := a.v;
    if e.origin == v {
      ArcReaches(Arcs(E), v, e.destination);
      ReachesEnds(Arcs(E), v, e.destination);
    } else {
      ReachesThenArc(Arcs(E), v, e.origin, e.destination);
      ReachesEnds(Arcs(E), v, e.destination);
    }
  }

  /** One more root adds itself and what it reaches to the closure. */
  lemma AncestorClosureStep<P, Q>(E: seq<Edge<P, Q>>, roots: seq<Arg<P, Q>>, i: int, v: Vertex<P, Q>,
                       s0: seq<Vertex<P, Q>>, s1: seq<Vertex<P, Q>>)
    requires 0 <= i < |roots| && roots[i] == VertexValue(v)
    requires Elements(s0) == AncestorClosure(E, roots[..i])
    requires forall x :: x in s1 <==> x in s0 || x == v || Reaches(Arcs(E), x, v)
    ensures Elements(s1) == AncestorClosure(E, roots[..i + 1])
  {
    assert roots[..i + 1][..i] == roots[..i];
    forall x | x in s1 && x !in s0 && x != v
      ensures x in Tails(Arcs(E))
    {
      ReachesEnds(Arcs(E), x, v);
    }
  }

  /** One more root adds itself and what it reaches to the closure. */
  lemma DescendantClosureStep<P, Q>(E: seq<Edge<P, Q>>, roots: seq<Arg<P, Q>>, i: int, v: Vertex<P, Q>,
                       s0: seq<Vertex<P, Q>>, s1: seq<Vertex<P, Q>>)
    requires 0 <= i < |roots| && roots[i] == VertexValue(v)
    requires Elements(s0) == DescendantClosure(E, roots[..i])
    requires forall x :: x in s1 <==> x in s0 || x == v || Reaches(Arcs(E), v, x)
    ensures Elements(s1) == DescendantClosure(E, roots[..i + 1])
  {
    assert roots[..i + 1][..i] == roots[..i];
    forall x | x in s1 && x !in s0 && x != v
      ensures x in Heads(Arcs(E))
    {
      ReachesEnds(Arcs(E), v, x);
    }
  }

  lemma WithoutNext<T>(s: seq<T>, t: set<T>, i: int)
    requires 0 <= i < |s|
    ensures Without(s[..i + 1], t) == Without(s[..i], t) + (if s[i] in t || s[i] in s[..i] then [] else [s[i]])
  {
    assert s[..i + 1][..i] == s[..i];
  }

  /** One more element of `s` appended after `a`; see `AppendAssoc`. */
  lemma AppendNext<T>(a: seq<T>, s: seq<T>, j: int)
    requires 0 <= j < |s|
    ensures a + s[..j + 1] == (a + s[..j]) + [s[j]]
  {
    assert s[..j + 1] == s[..j] + [s[j]];
  }

  /** The arcs of a copy are the renamed arcs of the original. */
  lemma {:induction false} CopyEdgesArcs<P, Q>(m: map<Vertex<P, Q>, Vertex<P, Q>>, E: seq<Edge<P, Q>>)
    requires forall i :: 0 <= i < |E| ==> E[i].origin in m && E[i].destination in m
    ensures Arcs(CopyEdges(m, E)) == MapArcs(m, Arcs(E))
  {
    if E != [] {
      var n := |E| - 1;
      CopyEdgesArcs(m, E[..n]);
      assert Arcs(E[..n]) == Arcs(E)[..n];
      assert Arcs(CopyEdges(m, E))[..n] == Arcs(CopyEdges(m, E[..n]));
    }
  }

  /** A copy of edges of an acyclic graph through an injective vertex map
      accepts the copy of one more of those edges: its ends differ and the
      copy of its destination does not reach the copy of its origin. This
      is why every `add_edge` call that `subgraph` makes succeeds. */
  lemma CopyAcceptsEdge<P, Q>(m: map<Vertex<P, Q>, Vertex<P, Q>>, E: seq<Edge<P, Q>>, copied: seq<Edge<P, Q>>, e: Edge<P, Q>)
    requires Acyclic(Arcs(E)) && Injective(m)
    requires forall i :: 0 <= i < |copied| ==> copied[i] in E && copied[i].origin in m && copied[i].destination in m
    requires e in E && e.origin in m && e.destination in m
    ensures m[e.origin] != m[e.destination]
    ensures !Reaches(Arcs(CopyEdges(m, copied)), m[e.destination], m[e.origin])
  {
    EdgeArc(E, e);
    ArcOfAcyclic(Arcs(E), e.origin, e.destination);
    var A := Arcs(copied);
    CopyEdgesArcs(m, copied);
    if Reaches(MapArcs(m, A), m[e.destination], m[e.origin]) {
      PullBackReaches(m, A, e.destination, e.origin);
      forall a | a in A
        ensures a in Arcs(E)
      {
        var i :| 0 <= i < |A| && A[i] == a;
        EdgeArc(E, copied[i]);
      }
      SubsetReaches(A, Arcs(E), e.destination, e.origin);
      assert false;
    }
  }

  class Vertex<P, Q> {
    const dag: DAG<P, Q>
    const payload: Data<P>
    /** The module `extend`ed into this vertex, if any. */
    var extension: Option<Mixin>

    constructor (dag: DAG<P, Q>, payload: Data<P>)
      ensures this.dag == dag && this.payload == payload && extension == None
    {
      this.dag := dag;
      this.payload := payload;
      extension := None;
    }

    function OutgoingEdges(): seq<Edge<P, Q>>
      reads dag
    {
      Outgoing(dag.edges, this)
    }

    function IncomingEdges(): seq<Edge<P, Q>>
      reads dag
    {
      Incoming(dag.edges, this)
    }

    /** `has_path_to?`: a nonempty chain of committed edges leads from
        this vertex to `other`. */
    method HasPathTo(other: Vertex<P, Q>) returns (b: bool)
      ensures b <==> Reaches(Arcs(dag.edges), this, other)
    {
      var reached;
      b, reached := Search(Arcs(dag.edges), this, Some(other));
    }

    /** `descendants(set)`: adds to the accumulator every vertex this one
        reaches, leaving what it held first and in place. */
    method Descendants(acc: seq<Vertex<P, Q>>) returns (r: seq<Vertex<P, Q>>)
      ensures |acc| <= |r| && r[..|acc|] == acc
      ensures forall x :: x in r <==> x in acc || Reaches(Arcs(dag.edges), this, x)
      ensures Distinct(acc) ==> Distinct(r)
    {
      var found, below := Search(Arcs(dag.edges), this, None);
      r := AddAll(acc, below);
    }

    /** `ancestors(set)`: adds to the accumulator every vertex that reaches
        this one, found by searching the reversed edges. */
    method Ancestors(acc: seq<Vertex<P, Q>>) returns (r: seq<Vertex<P, Q>>)
      ensures |acc| <= |r| && r[..|acc|] == acc
      ensures forall x :: x in r <==> x in acc || Reaches(Arcs(dag.edges), x, this)
      ensures Distinct(acc) ==> Distinct(r)
    {
      var found, above := Search(Reversed(Arcs(dag.edges)), this, None);
      forall x
        ensures x in above <==> Reaches(Arcs(dag.edges), x, this)
      {
        ReachesReversed(Arcs(dag.edges), x, this);
      }
      r := AddAll(acc, above);
    }
  }

  class DAG<P, Q> {
    var vertices: seq<Vertex<P, Q>>
    var edges: seq<Edge<P, Q>>
    const mixin: Option<Mixin>
    const mixinEdge: Option<Mixin>

    /** Every vertex and every edge endpoint belongs to this graph, no
        vertex is listed twice, and the edges form no cycle. */
    ghost predicate Valid()
      reads this
    {
      && (forall v :: v in vertices ==> v.dag == this)
      && Distinct(vertices)
      && (forall e :: e in edges ==> e.origin.dag == this && e.destination.dag == this)
      && Acyclic(Arcs(edges))
    }

    /** `DAG.new(mixin:, mixin_edge:)`: an empty graph. */
    constructor (mixin: Option<Mixin> := None, mixinEdge: Option<Mixin> := None)
      ensures Valid()
      ensures vertices == [] && edges == []
      ensures this.mixin == mixin && this.mixinEdge == mixinEdge
    {
      vertices := [];
      edges := [];
      this.mixin := mixin;
      this.mixinEdge := mixinEdge;
    }

    /** `Vertex === a && a.dag == self`, which also rules out nil and false. */
    predicate Owns(a: Arg<P, Q>) {
      a.VertexValue? && a.v.dag == this
    }

    /** `add_vertex(payload = {})` */
    method AddVertex(payload: Data<P> := EmptyHash) returns (v: Vertex<P, Q>)
      requires Valid()
      modifies this
      ensures Valid()
      ensures fresh(v) && v.dag == this && v.payload == payload && v.extension == mixin
      ensures vertices == old(vertices) + [v] && edges == old(edges)
    {
      v := new Vertex(this, payload);
      if mixin.Some? {
        v.extension := mixin;
      }
      vertices := vertices + [v];
    }

    /** `add_edge(attrs)`: resolve the endpoints through the alias order,
        check both belong to this graph, refuse a self-loop or an edge
        whose destination already reaches its origin, and otherwise append
        the new edge. A refused call changes nothing. */
    method AddEdge(attrs: EdgeAttrs<P, Q>) returns (r: Result<Edge<P, Q>, Error>)
      requires Valid()
      modifies this
      ensures Valid()
      ensures vertices == old(vertices)
      ensures var o, d := ResolveOrigin(attrs), ResolveDestination(attrs);
        && (!Owns(o) ==> r == Err(InvalidOrigin))
        && (Owns(o) && !Owns(d) ==> r == Err(InvalidDestination))
        && (Owns(o) && Owns(d) && (o.v == d.v || Reaches(Arcs(old(edges)), d.v, o.v)) ==> r == Err(CycleRejected))
        && (Owns(o) && Owns(d) && o.v != d.v && !Reaches(Arcs(old(edges)), d.v, o.v) ==>
              r == Ok(Edge(o.v, d.v, PropertiesOf(attrs))))
      ensures edges == if r.Ok? then old(edges) + [r.value] else old(edges)
    {
      var origin := ResolveOrigin(attrs);
      var destination := ResolveDestination(attrs);
      var properties := PropertiesOf(attrs);
      if !Owns(origin) {
        return Err(InvalidOrigin);
      }
      if !Owns(destination) {
        return Err(InvalidDestination);
      }
      if origin.v == destination.v {
        return Err(CycleRejected);
      }
      var closes := destination.v.HasPathTo(origin.v);
      if closes {
        return Err(CycleRejected);
      }
      var e := Edge(origin.v, destination.v, properties);
      AppendArcAcyclic(Arcs(edges), origin.v, destination.v);
      assert Arcs(edges + [e]) == Arcs(edges) + [(origin.v, destination.v)];
      edges := edges + [e];
      r := Ok(e);
    }

    /** Every root is a vertex of this graph. */
    predicate AllOwned(roots: seq<Arg<P, Q>>) {
      forall i :: 0 <= i < |roots| ==> Owns(roots[i])
    }

    /** Both ends of every edge belong to this graph, so do both ends of
        every path. */
    lemma ReachesOwned(x: Vertex<P, Q>, y: Vertex<P, Q>)
      requires Valid() && Reaches(Arcs(edges), x, y)
      ensures x.dag == this && y.dag == this
    {
      var A := Arcs(edges);
      var ps :| IsPath(A, ps) && A[ps[0]].0 == x && A[ps[|ps| - 1]].1 == y;
      assert edges[ps[0]] in edges && edges[ps[|ps| - 1]] in edges;
    }

    /** A Ruby `Set` of vertices of this graph. */
    ghost predicate Gathered(s: seq<Vertex<P, Q>>) {
      Distinct(s) && forall x :: x in s ==> x.dag == this
    }

    /** Every vertex reaching a vertex of this graph belongs to it. */
    lemma AncestorsGathered(s0: seq<Vertex<P, Q>>, v: Vertex<P, Q>, s: seq<Vertex<P, Q>>)
      requires Valid() && v.dag == this && Gathered(s0) && Distinct(s)
      requires forall x :: x in s ==> x in s0 || x == v || Reaches(Arcs(edges), x, v)
      ensures Gathered(s)
    {
      forall x | x in s
        ensures x.dag == this
      {
        if x !in s0 && x != v {
          ReachesOwned(x, v);
        }
      }
    }

    /** `set.add(v); v.ancestors(set)`: one round of the loop below. */
    method AddWithAncestors(s0: seq<Vertex<P, Q>>, roots: seq<Arg<P, Q>>, i: int) returns (s: seq<Vertex<P, Q>>)
      requires Valid() && 0 <= i < |roots| && Owns(roots[i])
      requires Gathered(s0) && Elements(s0) == AncestorClosure(edges, roots[..i])
      ensures Gathered(s) && Elements(s) == AncestorClosure(edges, roots[..i + 1])
    {
      var v := roots[i].v;
      s := s0;
      if v !in s {
        s := s + [v];
      }
      s := v.Ancestors(s);
      AncestorClosureStep(edges, roots, i, v, s0, s);
      AncestorsGathered(s0, v, s);
    }

    /** The first loop of `subgraph`: check each root of `predecessors_of`, and add
        it and its ancestors to `predecessors_set`. */
    method PredecessorsSet(roots: seq<Arg<P, Q>>) returns (ok: bool, s: seq<Vertex<P, Q>>)
      requires Valid()
      ensures ok <==> AllOwned(roots)
      ensures ok ==> Gathered(s)
      ensures ok ==> Elements(s) == AncestorClosure(edges, roots)
    {
      s := [];
      for i := 0 to |roots|
        invariant forall j :: 0 <= j < i ==> Owns(roots[j])
        invariant Gathered(s) && Elements(s) == AncestorClosure(edges, roots[..i])
      {
        if !Owns(roots[i]) {
          return false, s;
        }
        s := AddWithAncestors(s, roots, i);
      }
      assert roots[..|roots|] == roots;
      ok := true;
    }

    /** Every vertex reached from a vertex of this graph belongs to it. */
    lemma DescendantsGathered(s0: seq<Vertex<P, Q>>, v: Vertex<P, Q>, s: seq<Vertex<P, Q>>)
      requires Valid() && v.dag == this && Gathered(s0) && Distinct(s)
      requires forall x :: x in s ==> x in s0 || x == v || Reaches(Arcs(edges), v, x)
      ensures Gathered(s)
    {
      forall x | x in s
        ensures x.dag == this
      {
        if x !in s0 && x != v {
          ReachesOwned(v, x);
        }
      }
    }

    /** `set.add(v); v.descendants(set)`: one round of the loop below. */
    method AddWithDescendants(s0: seq<Vertex<P, Q>>, roots: seq<Arg<P, Q>>, i: int) returns (s: seq<Vertex<P, Q>>)
      requires Valid() && 0 <= i < |roots| && Owns(roots[i])
      requires Gathered(s0) && Elements(s0) == DescendantClosure(edges, roots[..i])
      ensures Gathered(s) && Elements(s) == DescendantClosure(edges, roots[..i + 1])
    {
      var v := roots[i].v;
      s := s0;
      if v !in s {
        s := s + [v];
      }
      s := v.Descendants(s);
      DescendantClosureStep(edges, roots, i, v, s0, s);
      DescendantsGathered(s0, v, s);
    }

    /** The third loop of `subgraph`: check each root of `successors_of`, and add
        it and its descendants to `successors_set`. */
    method SuccessorsSet(roots: seq<Arg<P, Q>>) returns (ok: bool, s: seq<Vertex<P, Q>>)
      requires Valid()
      ensures ok <==> AllOwned(roots)
      ensures ok ==> Gathered(s)
      ensures ok ==> Elements(s) == DescendantClosure(edges, roots)
    {
      s := [];
      for i := 0 to |roots|
        invariant forall j :: 0 <= j < i ==> Owns(roots[j])
        invariant Gathered(s) && Elements(s) == DescendantClosure(edges, roots[..i])
      {
        if !Owns(roots[i]) {
          return false, s;
        }
        s := AddWithDescendants(s, roots, i);
      }
      assert roots[..|roots|] == roots;
      ok := true;
    }

    /** The first edge loop of `subgraph`: for each vertex `d` of `ds` in
        turn, copy into `g` each edge of `d.incoming_edges`. */
    method CopyIncomingEdges(g: DAG<P, Q>, m: map<Vertex<P, Q>, Vertex<P, Q>>, ds: seq<Vertex<P, Q>>,
                             ghost R: seq<Arg<P, Q>>, ghost copied: seq<Edge<P, Q>>)
      requires Valid() && g.Valid() && g != this
      requires Injective(m) && forall v :: v in m ==> m[v].dag == g
      requires forall i :: 0 <= i < |ds| ==> ds[i].dag == this
      requires Elements(ds) == AncestorClosure(edges, R) && AncestorClosure(edges, R) <= m.Keys
      requires Mapped(m, edges, copied) && g.edges == CopyEdges(m, copied)
      modifies g
      ensures g.Valid() && g.vertices == old(g.vertices)
      ensures Mapped(m, edges, IncomingOfAll(edges, ds))
      ensures g.edges == CopyEdges(m, copied + IncomingOfAll(edges, ds))
    {
      assert ds[..0] == [] && copied + [] == copied;
      for i := 0 to |ds|
        invariant g.Valid() && g.vertices == old(g.vertices)
        invariant Mapped(m, edges, IncomingOfAll(edges, ds[..i]))
        invariant g.edges == CopyEdges(m, copied + IncomingOfAll(edges, ds[..i]))
      {
        var d := ds[i];
        var es := d.IncomingEdges();
        assert d in Elements(ds);
        IncomingMapped(edges, R, m, d);
        ghost var before := IncomingOfAll(edges, ds[..i]);
        MappedAppend(m, edges, copied, before);
        CopyEdgeList(g, m, edges, es, copied + before);
        IncomingOfAllNext(edges, ds, i);
        MappedAppend(m, edges, before, es);
        AppendAssoc(copied, before, es);
      }
      assert ds[..|ds|] == ds;
    }

    /** The second edge loop of `subgraph`: for each vertex `o` of `os` in
        turn, copy into `g` each edge of `o.outgoing_edges`. */
    method CopyOutgoingEdges(g: DAG<P, Q>, m: map<Vertex<P, Q>, Vertex<P, Q>>, os: seq<Vertex<P, Q>>,
                             ghost R: seq<Arg<P, Q>>, ghost copied: seq<Edge<P, Q>>)
      requires Valid() && g.Valid() && g != this
      requires Injective(m) && forall v :: v in m ==> m[v].dag == g
      requires forall i :: 0 <= i < |os| ==> os[i].dag == this
      requires Elements(os) == DescendantClosure(edges, R) && DescendantClosure(edges, R) <= m.Keys
      requires Mapped(m, edges, copied) && g.edges == CopyEdges(m, copied)
      modifies g
      ensures g.Valid() && g.vertices == old(g.vertices)
      ensures Mapped(m, edges, OutgoingOfAll(edges, os))
      ensures g.edges == CopyEdges(m, copied + OutgoingOfAll(edges, os))
    {
      assert os[..0] == [] && copied + [] == copied;
      for i := 0 to |os|
        invariant g.Valid() && g.vertices == old(g.vertices)
        invariant Mapped(m, edges, OutgoingOfAll(edges, os[..i]))
        invariant g.edges == CopyEdges(m, copied + OutgoingOfAll(edges, os[..i]))
      {
        var o := os[i];
        var es := o.OutgoingEdges();
        assert o in Elements(os);
        OutgoingMapped(edges, R, m, o);
        ghost var before := OutgoingOfAll(edges, os[..i]);
        MappedAppend(m, edges, copied, before);
        CopyEdgeList(g, m, edges, es, copied + before);
        OutgoingOfAllNext(edges, os, i);
        MappedAppend(m, edges, before, es);
        AppendAssoc(copied, before, es);
      }
      assert os[..|os|] == os;
    }

    /** Both edge loops of `subgraph`. */
    method CopySubgraphEdges(g: DAG<P, Q>, m: map<Vertex<P, Q>, Vertex<P, Q>>,
                             ds: seq<Vertex<P, Q>>, os: seq<Vertex<P, Q>>,
                             ghost Rd: seq<Arg<P, Q>>, ghost Ro: seq<Arg<P, Q>>)
      requires Valid() && g.Valid() && g != this && g.edges == []
      requires Injective(m) && forall v :: v in m ==> m[v].dag == g
      requires forall x :: x in ds ==> x.dag == this
      requires forall x :: x in os ==> x.dag == this
      requires Elements(ds) == AncestorClosure(edges, Rd) && Elements(ds) <= m.Keys
      requires Elements(os) == DescendantClosure(edges, Ro) && Elements(os) <= m.Keys
      modifies g
      ensures g.Valid() && g.vertices == old(g.vertices)
      ensures Mapped(m, edges, IncomingOfAll(edges, ds) + OutgoingOfAll(edges, os))
      ensures g.edges == CopyEdges(m, IncomingOfAll(edges, ds) + OutgoingOfAll(edges, os))
    {
      CopyIncomingEdges(g, m, ds, Rd, []);
      ghost var incoming := IncomingOfAll(edges, ds);
      assert [] + incoming == incoming;
      CopyOutgoingEdges(g, m, os, Ro, incoming);
      MappedAppend(m, edges, incoming, OutgoingOfAll(edges, os));
    }

    /** The rest of `subgraph` once the predecessors are copied into `g`:
        copy the successors not copied yet, then both edge loops. */
    method CopyRest(g: DAG<P, Q>, m1: map<Vertex<P, Q>, Vertex<P, Q>>, preds: seq<Vertex<P, Q>>, succs: seq<Vertex<P, Q>>,
                    ghost predecessorsOf: seq<Arg<P, Q>>, ghost successorsOf: seq<Arg<P, Q>>)
      returns (m: map<Vertex<P, Q>, Vertex<P, Q>>)
      requires Valid() && g.Valid() && g != this && g.mixin == mixin && g.mixinEdge == None && g.edges == []
      requires AllOwned(predecessorsOf) && AllOwned(successorsOf)
      requires Gathered(preds) && Gathered(succs)
      requires Elements(preds) == AncestorClosure(edges, predecessorsOf)
      requires Elements(succs) == DescendantClosure(edges, successorsOf)
      requires m1.Keys == Elements(preds) && forall i :: 0 <= i < |preds| ==> preds[i] in m1
      requires Injective(m1) && forall x :: x in m1 ==> m1[x] in g.vertices && m1[x].payload == x.payload
      requires g.vertices == MapVertices(m1, preds)
      modifies g
      ensures IsSubgraph(g, predecessorsOf, successorsOf, preds, succs, m)
    {
      ghost var V1 := g.vertices;
      m := CopyVertices(g, m1, succs);
      BothCopies(preds, succs, m1, m, V1, g.vertices);
      assert forall v :: v in m ==> m[v].dag == g;
      CopySubgraphEdges(g, m, preds, succs, predecessorsOf, successorsOf);
    }

    /** What `subgraph(predecessors_of, successors_of)` returns when every
        root is a vertex of this graph: `predecessors` lists the roots of
        `predecessors_of` and their ancestors, `successors` those of
        `successors_of` and their descendants, each without repetition;
        `mapping` sends each of them to its own new vertex of `g`, with the
        same payload; `g`'s vertices are the copies of `predecessors`
        followed by the copies of the successors not already copied; its
        edges are the copies of the incoming edges of each vertex of
        `predecessors`, then of the outgoing edges of each vertex of
        `successors`, between the copies of their ends. An edge that
        belongs to both passes is copied twice. */
    ghost predicate IsSubgraph(g: DAG<P, Q>, predecessorsOf: seq<Arg<P, Q>>, successorsOf: seq<Arg<P, Q>>,
                               predecessors: seq<Vertex<P, Q>>, successors: seq<Vertex<P, Q>>,
                               mapping: map<Vertex<P, Q>, Vertex<P, Q>>)
      reads this, g
    {
      && AllOwned(predecessorsOf) && AllOwned(successorsOf)
      && Distinct(predecessors) && Distinct(successors)
      && Elements(predecessors) == AncestorClosure(edges, predecessorsOf)
      && Elements(successors) == DescendantClosure(edges, successorsOf)
      && mapping.Keys == Elements(predecessors) + Elements(successors)
      && Injective(mapping)
      && (forall x :: x in mapping ==> mapping[x].payload == x.payload)
      && g.Valid() && g.mixin == mixin && g.mixinEdge == None
      && (var copied := predecessors + Without(successors, Elements(predecessors));
          && (forall i :: 0 <= i < |copied| ==> copied[i] in mapping)
          && g.vertices == MapVertices(mapping, copied))
      && (var es := IncomingOfAll(edges, predecessors) + OutgoingOfAll(edges, successors);
          && Mapped(mapping, edges, es)
          && g.edges == CopyEdges(mapping, es))
    }

    /** `subgraph(predecessors_of = [], successors_of = [])`: a new graph
        holding copies of the given roots, their ancestors, their
        descendants and the edges between them; this graph is left as it
        was. A root that is not a vertex of this graph is refused. */
    method Subgraph(predecessorsOf: seq<Arg<P, Q>> := [], successorsOf: seq<Arg<P, Q>> := [])
      returns (r: Result<DAG<P, Q>, Error>, ghost predecessors: seq<Vertex<P, Q>>,
               ghost successors: seq<Vertex<P, Q>>, ghost mapping: map<Vertex<P, Q>, Vertex<P, Q>>)
      requires Valid()
      ensures r.Err? <==> !(AllOwned(predecessorsOf) && AllOwned(successorsOf))
      ensures r.Err? ==> r.error == InvalidRoot
      ensures r.Ok? ==> fresh(r.value) && IsSubgraph(r.value, predecessorsOf, successorsOf, predecessors, successors, mapping)
    {
      var result := new DAG(mixin);
      var ok, preds := PredecessorsSet(predecessorsOf);
      if !ok {
        return Err(InvalidRoot), [], [], map[];
      }
      var m1 := CopyVertices(result, map[], preds);
      FirstCopies(preds, m1, result.vertices);
      var succs;
      ok, succs := SuccessorsSet(successorsOf);
      if !ok {
        return Err(InvalidRoot), [], [], map[];
      }
      var m := CopyRest(result, m1, preds, succs, predecessorsOf, successorsOf);
      r, predecessors, successors, mapping := Ok(result), preds, succs, m;
    }
  }

  /** The first vertex loop of `subgraph` copies each vertex of the
      (repetition-free) predecessor set, in order. */
  lemma FirstCopies<P, Q>(preds: seq<Vertex<P, Q>>, m1: map<Vertex<P, Q>, Vertex<P, Q>>, V1: seq<Vertex<P, Q>>)
    requires Distinct(preds)
    requires m1.Keys == {} + Elements(preds)
    requires V1 == [] + MapVertices(m1, Without(preds, {}))
    ensures m1.Keys == Elements(preds)
    ensures forall i :: 0 <= i < |preds| ==> preds[i] in m1
    ensures V1 == MapVertices(m1, preds)
  {
    assert {} + Elements(preds) == Elements(preds);
    forall i | 0 <= i < |preds|
      ensures preds[i] in m1
    {
      assert preds[i] in Elements(preds);
    }
    WithoutNothing(preds);
    assert [] + MapVertices(m1, preds) == MapVertices(m1, preds);
  }

  /** The two vertex loops of `subgraph` together: the copies of
      `preds`, then those of the vertices of `succs` not among `preds`. */
  lemma BothCopies<P, Q>(preds: seq<Vertex<P, Q>>, succs: seq<Vertex<P, Q>>,
                         m1: map<Vertex<P, Q>, Vertex<P, Q>>, m: map<Vertex<P, Q>, Vertex<P, Q>>,
                         V1: seq<Vertex<P, Q>>, V: seq<Vertex<P, Q>>)
    requires m1.Keys == Elements(preds) && m.Keys == m1.Keys + Elements(succs)
    requires forall i :: 0 <= i < |preds| ==> preds[i] in m1
    requires forall x :: x in m1 ==> m[x] == m1[x]
    requires V1 == MapVertices(m1, preds)
    requires forall i :: 0 <= i < |Without(succs, m1.Keys)| ==> Without(succs, m1.Keys)[i] in m
    requires V == V1 + MapVertices(m, Without(succs, m1.Keys))
    ensures forall i :: 0 <= i < |preds + Without(succs, Elements(preds))| ==> (preds + Without(succs, Elements(preds)))[i] in m
    ensures V == MapVertices(m, preds + Without(succs, Elements(preds)))
    ensures m.Keys == Elements(preds) + Elements(succs)
  {
    var W := Without(succs, Elements(preds));
    MapVerticesAgree(m1, m, preds);
    MapVerticesAppend(m, preds, W);
  }

  /** The state of a vertex-copying loop of `subgraph` after visiting
      `seen`: `m` extends `m0` with a copy in `g`'s vertices `gv` of each
      vertex of `seen` that `m0` did not map, and `gv` is `V0` followed by
      those copies in order. */
  ghost predicate Copying<P, Q>(gv: seq<Vertex<P, Q>>, V0: seq<Vertex<P, Q>>, m0: map<Vertex<P, Q>, Vertex<P, Q>>,
                                seen: seq<Vertex<P, Q>>, m: map<Vertex<P, Q>, Vertex<P, Q>>)
  {
    KeysExtended(m0, seen, m) && CopiesIn(gv, m) && Appended(gv, V0, m0, seen, m)
  }

  /** `m` maps what `m0` maps, in the same way, and the vertices of `seen`. */
  ghost predicate KeysExtended<P, Q>(m0: map<Vertex<P, Q>, Vertex<P, Q>>, seen: seq<Vertex<P, Q>>,
                                     m: map<Vertex<P, Q>, Vertex<P, Q>>)
  {
    && m.Keys == m0.Keys + Elements(seen)
    && (forall x :: x in m0 ==> m[x] == m0[x])
  }

  /** `m` maps distinct vertices to distinct vertices of `gv` with the same
      payload. */
  ghost predicate CopiesIn<P, Q>(gv: seq<Vertex<P, Q>>, m: map<Vertex<P, Q>, Vertex<P, Q>>)
  {
    && Injective(m)
    && (forall x :: x in m ==> m[x] in gv && m[x].payload == x.payload)
  }

  /** `gv` is `V0` followed by the copies of the vertices of `seen` that
      `m0` did not map, in their order of first occurrence. */
  ghost predicate Appended<P, Q>(gv: seq<Vertex<P, Q>>, V0: seq<Vertex<P, Q>>, m0: map<Vertex<P, Q>, Vertex<P, Q>>,
                                 seen: seq<Vertex<P, Q>>, m: map<Vertex<P, Q>, Vertex<P, Q>>)
  {
    && (forall j :: 0 <= j < |Without(seen, m0.Keys)| ==> Without(seen, m0.Keys)[j] in m)
    && gv == V0 + MapVertices(m, Without(seen, m0.Keys))
  }

  /** Copying `vs[i]` to a new vertex `c` carries the loop state over to
      the next round. */
  lemma CopyingStep<P, Q>(gv: seq<Vertex<P, Q>>, V0: seq<Vertex<P, Q>>, m0: map<Vertex<P, Q>, Vertex<P, Q>>,
                          vs: seq<Vertex<P, Q>>, i: int, m: map<Vertex<P, Q>, Vertex<P, Q>>, c: Vertex<P, Q>)
    requires 0 <= i < |vs| && Copying(gv, V0, m0, vs[..i], m)
    requires vs[i] !in m && c !in gv && c.payload == vs[i].payload
    ensures Copying(gv + [c], V0, m0, vs[..i + 1], m[vs[i] := c])
  {
    KeysStep(m0, vs, i, m, c);
    CopiesStep(gv, m, vs[i], c);
    AppendedStep(gv, V0, m0, vs, i, m, c);
  }

  lemma KeysStep<P, Q>(m0: map<Vertex<P, Q>, Vertex<P, Q>>, vs: seq<Vertex<P, Q>>, i: int,
                       m: map<Vertex<P, Q>, Vertex<P, Q>>, c: Vertex<P, Q>)
    requires 0 <= i < |vs| && KeysExtended(m0, vs[..i], m) && vs[i] !in m
    ensures KeysExtended(m0, vs[..i + 1], m[vs[i] := c])
  {
    ElementsNext(vs, i);
  }

  /** Mapping a new vertex to a vertex outside the old copies keeps the map
      injective, into the copies, and payload-preserving. */
  lemma CopiesStep<P, Q>(gv: seq<Vertex<P, Q>>, m: map<Vertex<P, Q>, Vertex<P, Q>>, v: Vertex<P, Q>, c: Vertex<P, Q>)
    requires CopiesIn(gv, m) && v !in m && c !in gv && c.payload == v.payload
    ensures CopiesIn(gv + [c], m[v := c])
  {
    assert forall x :: x in m ==> m[x] != c;
  }

  lemma AppendedStep<P, Q>(gv: seq<Vertex<P, Q>>, V0: seq<Vertex<P, Q>>, m0: map<Vertex<P, Q>, Vertex<P, Q>>,
                           vs: seq<Vertex<P, Q>>, i: int, m: map<Vertex<P, Q>, Vertex<P, Q>>, c: Vertex<P, Q>)
    requires 0 <= i < |vs| && KeysExtended(m0, vs[..i], m) && Appended(gv, V0, m0, vs[..i], m)
    requires vs[i] !in m
    ensures Appended(gv + [c], V0, m0, vs[..i + 1], m[vs[i] := c])
  {
    ElementsNext(vs, i);
    WithoutNext(vs, m0.Keys, i);
    var added := Without(vs[..i], m0.Keys);
    ExtendImages(gv, V0, m, added, vs[i], c);
  }

  /** ... and appends the new copy to the images of the copied vertices. */
  lemma ExtendImages<P, Q>(gv: seq<Vertex<P, Q>>, V0: seq<Vertex<P, Q>>, m: map<Vertex<P, Q>, Vertex<P, Q>>,
                           added: seq<Vertex<P, Q>>, v: Vertex<P, Q>, c: Vertex<P, Q>)
    requires forall j :: 0 <= j < |added| ==> added[j] in m && added[j] != v
    requires gv == V0 + MapVertices(m, added)
    ensures gv + [c] == V0 + MapVertices(m[v := c], added + [v])
  {
    MapVerticesUpdate(m, added, v, c);
    MapVerticesSnoc(m[v := c], added, v);
    SnocAssoc(V0, MapVertices(m, added), c);
  }

  lemma MapVerticesSnoc<P, Q>(m: map<Vertex<P, Q>, Vertex<P, Q>>, vs: seq<Vertex<P, Q>>, v: Vertex<P, Q>)
    requires forall j :: 0 <= j < |vs| ==> vs[j] in m
    requires v in m
    ensures MapVertices(m, vs + [v]) == MapVertices(m, vs) + [m[v]]
  {
    assert (vs + [v])[..|vs|] == vs;
  }

  /** Regrouping before a single appended element; see `AppendAssoc`. */
  lemma SnocAssoc<T>(a: seq<T>, b: seq<T>, x: T)
    ensures (a + b) + [x] == a + (b + [x])
  {
  }

  /** A vertex already mapped is skipped. */
  lemma CopyingSkip<P, Q>(gv: seq<Vertex<P, Q>>, V0: seq<Vertex<P, Q>>, m0: map<Vertex<P, Q>, Vertex<P, Q>>,
                          vs: seq<Vertex<P, Q>>, i: int, m: map<Vertex<P, Q>, Vertex<P, Q>>)
    requires 0 <= i < |vs| && Copying(gv, V0, m0, vs[..i], m)
    requires vs[i] in m
    ensures Copying(gv, V0, m0, vs[..i + 1], m)
  {
    ElementsNext(vs, i);
    WithoutNext(vs, m0.Keys, i);
    assert vs[i] in m0.Keys || vs[i] in vs[..i];
    assert Without(vs[..i + 1], m0.Keys) == Without(vs[..i], m0.Keys);
  }

  /** Renaming a vertex outside `vs` leaves the images of `vs` alone. */
  lemma {:induction false} MapVerticesUpdate<P, Q>(m: map<Vertex<P, Q>, Vertex<P, Q>>, vs: seq<Vertex<P, Q>>,
                                                   v: Vertex<P, Q>, c: Vertex<P, Q>)
    requires forall i :: 0 <= i < |vs| ==> vs[i] in m && vs[i] != v
    ensures MapVertices(m[v := c], vs) == MapVertices(m, vs)
  {
    if vs != [] {
      MapVerticesUpdate(m, vs[..|vs| - 1], v, c);
    }
  }

  /** The second and fourth loops of `subgraph`: copy into `g` each vertex
      of `vs` that `m` does not map yet, and map it to its copy. (The first
      of these loops has no such test in the source; there the set is
      duplicate-free and the map empty, so the test never fails.) */
  method CopyVertices<P, Q>(g: DAG<P, Q>, m0: map<Vertex<P, Q>, Vertex<P, Q>>, vs: seq<Vertex<P, Q>>)
    returns (m: map<Vertex<P, Q>, Vertex<P, Q>>)
    requires g.Valid() && Injective(m0)
    requires forall x :: x in m0 ==> m0[x] in g.vertices
    requires forall x :: x in m0 ==> m0[x].payload == x.payload
    modifies g
    ensures g.Valid() && g.edges == old(g.edges)
    ensures m.Keys == m0.Keys + Elements(vs)
    ensures forall x :: x in m0 ==> m[x] == m0[x]
    ensures Injective(m) && forall x :: x in m ==> m[x] in g.vertices
    ensures forall x :: x in m ==> m[x].payload == x.payload
    ensures forall i :: 0 <= i < |Without(vs, m0.Keys)| ==> Without(vs, m0.Keys)[i] in m
    ensures g.vertices == old(g.vertices) + MapVertices(m, Without(vs, m0.Keys))
  {
    m := m0;
    assert MapVertices(m0, []) == [];
    for i := 0 to |vs|
      invariant g.Valid() && g.edges == old(g.edges)
      invariant Copying(g.vertices, old(g.vertices), m0, vs[..i], m)
    {
      var v := vs[i];
      if v !in m {
        ghost var before := g.vertices;
        var c := g.AddVertex(v.payload);
        CopyingStep(before, old(g.vertices), m0, vs, i, m, c);
        m := m[v := c];
      } else {
        CopyingSkip(g.vertices, old(g.vertices), m0, vs, i, m);
      }
    }
    assert vs[..|vs|] == vs;
  }

  /** `result.add_edge(from: ..., to: ..., properties: e.properties)` in
      `subgraph`: the copy of edge `e` between the copies of its ends is
      accepted and appended. */
  method CopyEdge<P, Q>(g: DAG<P, Q>, m: map<Vertex<P, Q>, Vertex<P, Q>>, E: seq<Edge<P, Q>>,
                        e: Edge<P, Q>, ghost done: seq<Edge<P, Q>>)
    requires g.Valid() && Acyclic(Arcs(E)) && Injective(m)
    requires forall v :: v in m ==> m[v].dag == g
    requires Mapped(m, E, done)
    requires e in E && e.origin in m && e.destination in m
    requires g.edges == CopyEdges(m, done)
    modifies g
    ensures g.Valid() && g.vertices == old(g.vertices)
    ensures g.edges == CopyEdges(m, done + [e])
  {
    CopyAcceptsEdge(m, E, done, e);
    var added := g.AddEdge(FromTo(m[e.origin], m[e.destination], e.properties));
    assert added.Ok?;
    assert (done + [e])[..|done|] == done;
  }

  /** The body of each edge loop of `subgraph`: `add_edge` to `g` a copy
      of each edge of `es`, between the copies of its ends. Every call
      succeeds. */
  method CopyEdgeList<P, Q>(g: DAG<P, Q>, m: map<Vertex<P, Q>, Vertex<P, Q>>, E: seq<Edge<P, Q>>,
                            es: seq<Edge<P, Q>>, ghost copied: seq<Edge<P, Q>>)
    requires g.Valid() && Acyclic(Arcs(E)) && Injective(m)
    requires forall v :: v in m ==> m[v].dag == g
    requires Mapped(m, E, copied) && Mapped(m, E, es)
    requires g.edges == CopyEdges(m, copied)
    modifies g
    ensures g.Valid() && g.vertices == old(g.vertices)
    ensures g.edges == CopyEdges(m, copied + es)
  {
    ghost var done := copied;
    for j := 0 to |es|
      invariant done == copied + es[..j]
      invariant Mapped(m, E, done)
      invariant g.Valid() && g.vertices == old(g.vertices)
      invariant g.edges == CopyEdges(m, done)
    {
      CopyEdge(g, m, E, es[j], done);
      AppendNext(copied, es, j);
      MappedAppend(m, E, done, [es[j]]);
      done := done + [es[j]];
    }
    assert es[..|es|] == es;
  }
}
