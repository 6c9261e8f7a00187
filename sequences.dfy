/** Facts about sequences that the text, counting and record-file proofs
    share: the set of a sequence's elements, counting the indices that
    satisfy a predicate, and the concatenation identities the solver does
    not find on its own in a crowded context. */
module Sequences {

  /** The distinct elements of a sequence. */
  function Elements<T>(s: seq<T>): set<T> {
    set x | x in s
  }

  /** The indices below `n` that satisfy `p`, counted from the last one. */
  lemma IndicesStep(n: nat, p: int -> bool)
    requires 0 < n
    ensures |set i | 0 <= i < n && p(i)| == |set i | 0 <= i < n - 1 && p(i)| + (if p(n - 1) then 1 else 0)
  {
    var s, s0 := set i | 0 <= i < n && p(i), set i | 0 <= i < n - 1 && p(i);
    if p(n - 1) {
      assert s == s0 + {n - 1};
    } else {
      assert s == s0;
    }
  }

  lemma AppendEmpty<T>(x: seq<T>, y: seq<T>)
    ensures (x + []) + y == x + y
  {
  }

  lemma AppendAssoc<T>(x: seq<T>, y: seq<T>, z: seq<T>)
    ensures x + (y + z) == (x + y) + z
  {
  }

  lemma EmptyRest<T>(a: seq<T>, b: seq<T>, n: nat)
    requires n == |a|
    ensures a[n..] == [] && a[n..] + b == b
  {
  }

  lemma SliceOfConcat<T>(a: seq<T>, b: seq<T>, n: nat)
    requires n <= |a|
    ensures (a + b)[..n] == a[..n] && (a + b)[n..] == a[n..] + b
  {
  }

  lemma LastSplit<T>(s: seq<T>)
    requires s != []
    ensures [] + s[..|s| - 1] + [s[|s| - 1]] == s
  {
  }
}
