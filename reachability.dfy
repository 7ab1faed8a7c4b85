/** Directed reachability over a finite sequence of arcs: nonempty paths,
    acyclicity, what appending one arc does to both, reversal, and the
    visited-set search that answers "does u reach v" and "what does u reach". */
module Reachability {
  import opened Wrappers

  /** An arc from its first component to its second. */
  type Arc<V> = (V, V)

  /** `ps` lists indices of arcs of `A`, at least one, each arc starting
      where the one before it ends. Paths are written with arc indices so
      that quantifying over them never ranges over vertices. */
  ghost predicate IsPath<V>(A: seq<Arc<V>>, ps: seq<int>) {
    && |ps| >= 1
    && (forall k :: 0 <= k < |ps| ==> 0 <= ps[k] < |A|)
    && (forall k :: 0 <= k < |ps| - 1 ==> A[ps[k]].1 == A[ps[k + 1]].0)
  }

  /** There is a nonempty path from `u` to `v`; `u` reaches itself only round a cycle. */
  ghost predicate Reaches<V>(A: seq<Arc<V>>, u: V, v: V) {
    exists ps :: IsPath(A, ps) && A[ps[0]].0 == u && A[ps[|ps| - 1]].1 == v
  }

  /** No path ends where it starts. */
  ghost predicate Acyclic<V>(A: seq<Arc<V>>) {
    forall ps :: IsPath(A, ps) ==> A[ps[0]].0 != A[ps[|ps| - 1]].1
  }

  /** The same arcs, each pointing the other way. */
  function Reversed<V>(A: seq<Arc<V>>): seq<Arc<V>> {
    seq(|A|, i requires 0 <= i < |A| => (A[i].1, A[i].0))
  }

  /** The arcs of `A` with both ends renamed through `m`. */
  function MapArcs<V, W>(m: map<V, W>, A: seq<Arc<V>>): seq<Arc<W>>
    requires forall i :: 0 <= i < |A| ==> A[i].0 in m && A[i].1 in m
  {
    seq(|A|, i requires 0 <= i < |A| && A[i].0 in m && A[i].1 in m => (m[A[i].0], m[A[i].1]))
  }

  ghost predicate Injective<V, W>(m: map<V, W>) {
    forall a, b :: a in m && b in m && m[a] == m[b] ==> a == b
  }

  lemma ArcReaches<V>(A: seq<Arc<V>>, a: V, b: V)
    requires (a, b) in A
    ensures Reaches(A, a, b)
  {
    var i :| 0 <= i < |A| && A[i] == (a, b);
    assert IsPath(A, [i]);
  }

  lemma ArcThenReaches<V>(A: seq<Arc<V>>, a: V, b: V, c: V)
    requires (a, b) in A && Reaches(A, b, c)
    ensures Reaches(A, a, c)
  {
    var i :| 0 <= i < |A| && A[i] == (a, b);
    var qs :| IsPath(A, qs) && A[qs[0]].0 == b && A[qs[|qs| - 1]].1 == c;
    var ps := [i] + qs;
    forall k | 0 <= k < |ps| - 1
      ensures A[ps[k]].1 == A[ps[k + 1]].0
    {
      if k > 0 {
        assert ps[k] == qs[k - 1] && ps[k + 1] == qs[k];
      }
    }
    assert IsPath(A, ps) && ps[|ps| - 1] == qs[|qs| - 1];
  }

  lemma ReachesThenArc<V>(A: seq<Arc<V>>, a: V, b: V, c: V)
    requires Reaches(A, a, b) && (b, c) in A
    ensures Reaches(A, a, c)
  {
    var i :| 0 <= i < |A| && A[i] == (b, c);
    var qs :| IsPath(A, qs) && A[qs[0]].0 == a && A[qs[|qs| - 1]].1 == b;
    var ps := qs + [i];
    forall k | 0 <= k < |ps| - 1
      ensures A[ps[k]].1 == A[ps[k + 1]].0
    {
      if k < |qs| - 1 {
        assert ps[k] == qs[k] && ps[k + 1] == qs[k + 1];
      }
    }
    assert IsPath(A, ps) && ps[0] == qs[0];
  }

  lemma ReachesTrans<V>(A: seq<Arc<V>>, u: V, v: V, w: V)
    requires Reaches(A, u, v) && Reaches(A, v, w)
    ensures Reaches(A, u, w)
  {
    var ps :| IsPath(A, ps) && A[ps[0]].0 == u && A[ps[|ps| - 1]].1 == v;
    var qs :| IsPath(A, qs) && A[qs[0]].0 == v && A[qs[|qs| - 1]].1 == w;
    var rs := ps + qs;
    forall k | 0 <= k < |rs| - 1
      ensures A[rs[k]].1 == A[rs[k + 1]].0
    {
      if k < |ps| - 1 {
        assert rs[k] == ps[k] && rs[k + 1] == ps[k + 1];
      } else if k >= |ps| {
        assert rs[k] == qs[k - |ps|] && rs[k + 1] == qs[k - |ps| + 1];
      }
    }
    assert IsPath(A, rs) && rs[0] == ps[0] && rs[|rs| - 1] == qs[|qs| - 1];
  }

  /** A path over arcs that all occur in `B` is a path over `B`. */
  lemma SubsetReaches<V>(A: seq<Arc<V>>, B: seq<Arc<V>>, x: V, y: V)
    requires forall a :: a in A ==> a in B
    requires Reaches(A, x, y)
    ensures Reaches(B, x, y)
  {
    var ps :| IsPath(A, ps) && A[ps[0]].0 == x && A[ps[|ps| - 1]].1 == y;
    var qs := seq(|ps|, k requires 0 <= k < |ps| =>
      assert A[ps[k]] in B; var j :| 0 <= j < |B| && B[j] == A[ps[k]]; j);
    assert IsPath(B, qs);
  }

  /** Arcs added at the end leave every old path in place. */
  lemma AppendKeepsReaches<V>(A: seq<Arc<V>>, B: seq<Arc<V>>, x: V, y: V)
    requires Reaches(A, x, y)
    ensures Reaches(A + B, x, y)
  {
    var ps :| IsPath(A, ps) && A[ps[0]].0 == x && A[ps[|ps| - 1]].1 == y;
    assert IsPath(A + B, ps);
  }

  /** A path that may use the new arc (o, d) either avoids it, or runs
      from its start to `o`, crosses to `d` and goes on from there. */
  lemma {:induction false} PathAfterAppend<V>(A: seq<Arc<V>>, o: V, d: V, ps: seq<int>)
    requires IsPath(A + [(o, d)], ps)
    ensures var A' := A + [(o, d)]; var x, y := A'[ps[0]].0, A'[ps[|ps| - 1]].1;
            || Reaches(A, x, y)
            || ((x == o || Reaches(A, x, o)) && (y == d || Reaches(A, d, y)))
    decreases |ps|
  {
    var A' := A + [(o, d)];
    var x, w, y := A'[ps[0]].0, A'[ps[0]].1, A'[ps[|ps| - 1]].1;
    var rest := ps[1..];
    if |ps| > 1 {
      assert IsPath(A', rest) && A'[rest[0]].0 == w && A'[rest[|rest| - 1]].1 == y;
      PathAfterAppend(A, o, d, rest);
    }
    if ps[0] < |A| {
      assert (x, w) == A[ps[0]] && (x, w) in A;
      if |ps| == 1 {
        ArcReaches(A, x, y);
      } else if Reaches(A, w, y) {
        ArcThenReaches(A, x, w, y);
      } else if w == o {
        ArcReaches(A, x, o);
      } else {
        ArcThenReaches(A, x, w, o);
      }
    }
  }

  lemma ReachesAfterAppend<V>(A: seq<Arc<V>>, o: V, d: V, x: V, y: V)
    requires Reaches(A + [(o, d)], x, y)
    ensures || Reaches(A, x, y)
            || ((x == o || Reaches(A, x, o)) && (y == d || Reaches(A, d, y)))
  {
    var A' := A + [(o, d)];
    var ps :| IsPath(A', ps) && A'[ps[0]].0 == x && A'[ps[|ps| - 1]].1 == y;
    PathAfterAppend(A, o, d, ps);
  }

  /** Going from `d` through `v` to `o` means `d` reaches `o` (or is it). */
  lemma ReachesThrough<V>(A: seq<Arc<V>>, d: V, v: V, o: V)
    requires d == v || Reaches(A, d, v)
    requires v == o || Reaches(A, v, o)
    ensures d == o || Reaches(A, d, o)
  {
    if d != v && v != o {
      ReachesTrans(A, d, v, o);
    }
  }

  /** The cycle rule of `add_edge`, in both directions: on an acyclic arc
      sequence, appending (o, d) keeps it acyclic exactly when `o` and `d`
      differ and `d` does not already reach `o`. */
  lemma AppendArcAcyclic<V>(A: seq<Arc<V>>, o: V, d: V)
    requires Acyclic(A)
    ensures Acyclic(A + [(o, d)]) <==> o != d && !Reaches(A, d, o)
  {
    var A' := A + [(o, d)];
    assert (o, d) in A';
    if o != d && !Reaches(A, d, o) {
      forall ps | IsPath(A', ps)
        ensures A'[ps[0]].0 != A'[ps[|ps| - 1]].1
      {
        var v := A'[ps[0]].0;
        if A'[ps[|ps| - 1]].1 == v {
          assert Reaches(A', v, v);
          ReachesAfterAppend(A, o, d, v, v);
          ReachesThrough(A, d, v, o);
          assert false;
        }
      }
    } else if o == d {
      ArcReaches(A', o, o);
    } else {
      AppendKeepsReaches(A, [(o, d)], d, o);
      ArcThenReaches(A', o, d, o);
    }
  }

  /** An arc of an acyclic sequence joins two different vertices, and
      its head does not reach back to its tail. */
  lemma ArcOfAcyclic<V>(A: seq<Arc<V>>, a: V, b: V)
    requires Acyclic(A) && (a, b) in A
    ensures a != b && !Reaches(A, b, a)
  {
    ArcReaches(A, a, b);
    if Reaches(A, b, a) {
      ReachesTrans(A, a, b, a);
      assert false;
    }
  }

  lemma ReachesReversedOneWay<V>(A: seq<Arc<V>>, u: V, v: V)
    requires Reaches(A, u, v)
    ensures Reaches(Reversed(A), v, u)
  {
    var ps :| IsPath(A, ps) && A[ps[0]].0 == u && A[ps[|ps| - 1]].1 == v;
    var n := |ps|;
    var R := Reversed(A);
    var qs := seq(n, k requires 0 <= k < n => ps[n - 1 - k]);
    forall k | 0 <= k < n - 1
      ensures R[qs[k]].1 == R[qs[k + 1]].0
    {
      assert A[ps[n - 2 - k]].1 == A[ps[n - 1 - k]].0;
    }
    assert IsPath(R, qs) && qs[0] == ps[n - 1] && qs[n - 1] == ps[0];
  }

  /** `v` reaches `u` against the arcs exactly when `u` reaches `v` along
      them: ancestors are descendants over the reversed arcs. */
  lemma ReachesReversed<V>(A: seq<Arc<V>>, u: V, v: V)
    ensures Reaches(Reversed(A), v, u) <==> Reaches(A, u, v)
  {
    if Reaches(A, u, v) {
      ReachesReversedOneWay(A, u, v);
    }
    if Reaches(Reversed(A), v, u) {
      ReachesReversedOneWay(Reversed(A), v, u);
      assert Reversed(Reversed(A)) == A;
    }
  }

  lemma {:induction false} PathStaysInside<V>(A: seq<Arc<V>>, u: V, S: set<V>, ps: seq<int>, k: nat)
    requires forall i :: 0 <= i < |A| && (A[i].0 == u || A[i].0 in S) ==> A[i].1 in S
    requires IsPath(A, ps) && A[ps[0]].0 == u && k < |ps|
    ensures A[ps[k]].1 in S
    decreases k
  {
    if k > 0 {
      PathStaysInside(A, u, S, ps, k - 1);
      assert A[ps[k - 1]].1 == A[ps[k]].0;
    }
  }

  /** A set holding every successor of `u` and of each of its own members
      holds everything `u` reaches. */
  lemma ClosedUnderArcs<V>(A: seq<Arc<V>>, u: V, S: set<V>)
    requires forall i :: 0 <= i < |A| && (A[i].0 == u || A[i].0 in S) ==> A[i].1 in S
    ensures forall x :: Reaches(A, u, x) ==> x in S
  {
    forall x | Reaches(A, u, x)
      ensures x in S
    {
      var ps :| IsPath(A, ps) && A[ps[0]].0 == u && A[ps[|ps| - 1]].1 == x;
      PathStaysInside(A, u, S, ps, |ps| - 1);
    }
  }

  /** Renaming the ends of arcs through an injective map creates no new
      paths: a path between two images comes from a path between the
      originals. */
  lemma PullBackReaches<V, W>(m: map<V, W>, A: seq<Arc<V>>, x: V, y: V)
    requires Injective(m)
    requires forall i :: 0 <= i < |A| ==> A[i].0 in m && A[i].1 in m
    requires x in m && y in m
    requires Reaches(MapArcs(m, A), m[x], m[y])
    ensures Reaches(A, x, y)
  {
    var B := MapArcs(m, A);
    var ps :| IsPath(B, ps) && B[ps[0]].0 == m[x] && B[ps[|ps| - 1]].1 == m[y];
    forall k | 0 <= k < |ps| - 1
      ensures A[ps[k]].1 == A[ps[k + 1]].0
    {
      assert B[ps[k]].1 == B[ps[k + 1]].0;
    }
    assert IsPath(A, ps);
  }

  /** The vertices some arc points to. */
  ghost function Heads<V>(A: seq<Arc<V>>): set<V> {
    set i | 0 <= i < |A| :: A[i].1
  }

  /** The vertices some arc leaves. */
  ghost function Tails<V>(A: seq<Arc<V>>): set<V> {
    set i | 0 <= i < |A| :: A[i].0
  }

  /** A path starts at the tail of an arc and ends at the head of one. */
  lemma ReachesEnds<V>(A: seq<Arc<V>>, u: V, v: V)
    requires Reaches(A, u, v)
    ensures u in Tails(A) && v in Heads(A)
  {
    var ps :| IsPath(A, ps) && A[ps[0]].0 == u && A[ps[|ps| - 1]].1 == v;
    assert A[ps[0]].0 in Tails(A);
    assert A[ps[|ps| - 1]].1 in Heads(A);
  }

  /** A nonempty queue is its front followed by its last element; a
      separate lemma keeps this sequence equality out of `Search`'s own
      proof. */
  lemma PopLast<T>(q: seq<T>)
    requires q != []
    ensures q == q[..|q| - 1] + [q[|q| - 1]]
  {
  }

  /** One round of `Search`: scan the arcs leaving `x`, marking and queueing
      each head not seen yet, and stop as soon as the target is marked. */
  method Expand<V(==)>(A: seq<Arc<V>>, start: V, x: V, target: Option<V>, seen0: set<V>, work0: seq<V>)
    returns (hit: bool, seen: set<V>, work: seq<V>)
    requires x == start || Reaches(A, start, x)
    requires forall y :: y in seen0 ==> Reaches(A, start, y)
    requires target.Some? ==> target.value !in seen0
    ensures hit ==> target.Some? && Reaches(A, start, target.value)
    ensures !hit ==> target.Some? ==> target.value !in seen
    ensures seen0 <= seen && seen - seen0 <= Heads(A)
    ensures forall y :: y in seen ==> Reaches(A, start, y)
    ensures forall y :: y in seen - seen0 ==> y in work
    ensures forall y :: y in work ==> y in work0 || y in seen - seen0
    ensures forall y :: y in work0 ==> y in work
    ensures seen == seen0 ==> work == work0
    ensures !hit ==> forall j :: 0 <= j < |A| && A[j].0 == x ==> A[j].1 in seen
  {
    seen, work := seen0, work0;
    for i := 0 to |A|
      invariant seen0 <= seen && seen - seen0 <= Heads(A)
      invariant forall y :: y in seen ==> Reaches(A, start, y)
      invariant forall y :: y in seen - seen0 ==> y in work
      invariant forall y :: y in work ==> y in work0 || y in seen - seen0
      invariant forall y :: y in work0 ==> y in work
      invariant seen == seen0 ==> work == work0
      invariant forall j :: 0 <= j < i && A[j].0 == x ==> A[j].1 in seen
      invariant target.Some? ==> target.value !in seen
    {
      if A[i].0 == x && A[i].1 !in seen {
        var y := A[i].1;
        assert (x, y) in A;
        if x == start {
          ArcReaches(A, start, y);
        } else {
          ReachesThenArc(A, start, x, y);
        }
        seen := seen + {y};
        work := work + [y];
        if target == Some(y) {
          return true, seen, work;
        }
      }
    }
    hit := false;
  }

  /** Visited-set search from `start` along the arcs. With a target it
      answers whether `start` reaches it, stopping as soon as the target is
      discovered; when it does not stop early, `seen` is exactly the set of
      vertices `start` reaches. A vertex is queued only when first marked,
      so the search ends on any arc sequence, cyclic or not. */
  method Search<V(==)>(A: seq<Arc<V>>, start: V, target: Option<V>) returns (found: bool, seen: set<V>)
    ensures found <==> target.Some? && Reaches(A, start, target.value)
    ensures !found ==> forall x :: x in seen <==> Reaches(A, start, x)
  {
    ghost var done: set<V> := {};
    seen := {};
    var work := [start];
    while work != []
      invariant Frontier(A, start, target, done, seen, work)
      decreases Heads(A) - seen, |work|
    {
      var x := work[|work| - 1];
      ghost var queued := work;
      work := work[..|work| - 1];
      PopLast(queued);
      ghost var seen0, work0 := seen, work;
      var hit;
      hit, seen, work := Expand(A, start, x, target, seen, work);
      if hit {
        return true, seen;
      }
      FrontierStep(A, start, target, done, x, seen0, work0, seen, work);
      done := done + {x};
    }
    ClosedUnderArcs(A, start, seen);
    found := false;
  }

  /** The loop state of `Search`: `done` holds the vertices whose arcs were
      scanned, `seen` the marked vertices, `work` the queue. Every marked
      vertex is reachable and is scanned or queued; every head of an arc
      leaving a scanned vertex is marked; the target is not marked. */
  ghost predicate Frontier<V>(A: seq<Arc<V>>, start: V, target: Option<V>, done: set<V>, seen: set<V>, work: seq<V>)
  {
    && seen <= Heads(A)
    && (forall x :: x in seen ==> Reaches(A, start, x))
    && (forall x :: x in work ==> x == start || x in seen)
    && (start in done || start in work)
    && (forall x :: x in seen ==> x in done || x in work)
    && (forall i :: 0 <= i < |A| && A[i].0 in done ==> A[i].1 in seen)
    && (target.Some? ==> target.value !in seen)
  }

  /** A round of `Search` that does not hit the target keeps the loop state
      and either marks a new vertex or shortens the queue. */
  lemma FrontierStep<V>(A: seq<Arc<V>>, start: V, target: Option<V>, done: set<V>, x: V,
                        seen0: set<V>, work0: seq<V>, seen: set<V>, work: seq<V>)
    requires Frontier(A, start, target, done, seen0, work0 + [x])
    requires target.Some? ==> target.value !in seen
    requires seen0 <= seen && seen - seen0 <= Heads(A)
    requires forall y :: y in seen ==> Reaches(A, start, y)
    requires forall y :: y in seen - seen0 ==> y in work
    requires forall y :: y in work ==> y in work0 || y in seen - seen0
    requires forall y :: y in work0 ==> y in work
    requires seen == seen0 ==> work == work0
    requires forall j :: 0 <= j < |A| && A[j].0 == x ==> A[j].1 in seen
    ensures Frontier(A, start, target, done + {x}, seen, work)
    ensures Heads(A) - seen < Heads(A) - seen0 || (seen == seen0 && |work| < |work0 + [x]|)
  {
    forall y | y in work
      ensures y == start || y in seen
    {
      if y in work0 {
        assert y in work0 + [x];
      }
    }
    if start !in done {
      assert start in work0 + [x];
    }
    forall y | y in seen
      ensures y in done + {x} || y in work
    {
      if y in seen0 && y !in done && y != x {
        assert y in work0 + [x];
      }
    }
    if seen != seen0 {
      var y :| y in seen - seen0;
      assert y in Heads(A) - seen0;
    }
  }
}
