/** Ruby's `Set` remembers insertion order and never holds an element
    twice; here it is a sequence without repetitions. */
module OrderedSets {

  ghost predicate Distinct<T>(s: seq<T>) {
    forall i, j :: 0 <= i < j < |s| ==> s[i] != s[j]
  }

  /** The elements of a sequence, forgetting order and repetition. */
  ghost function Elements<T>(s: seq<T>): set<T> {
    set x | x in s
  }

  lemma ElementsNext<T>(s: seq<T>, i: int)
    requires 0 <= i < |s|
    ensures s[..i + 1][..i] == s[..i]
    ensures Elements(s[..i + 1]) == Elements(s[..i]) + {s[i]}
  {
    assert s[..i + 1] == s[..i] + [s[i]];
  }

  /** `Set#add` for every element of `s`: those not yet in `acc` follow it,
      in an order left open. */
  method AddAll<T(==)>(acc: seq<T>, s: set<T>) returns (r: seq<T>)
    ensures |acc| <= |r| && r[..|acc|] == acc
    ensures forall x :: x in r <==> x in acc || x in s
    ensures Distinct(acc) ==> Distinct(r)
  {
    r := acc;
    var rest := s;
    while rest != {}
      invariant |acc| <= |r| && r[..|acc|] == acc
      invariant forall x :: x in r <==> x in acc || x in s - rest
      invariant rest <= s
      invariant Distinct(acc) ==> Distinct(r)
      decreases rest
    {
      var x :| x in rest;
      if x !in r {
        r := r + [x];
      }
      rest := rest - {x};
    }
  }
}
