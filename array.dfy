/**
 * `Distinct::distinct` for vectors: keep the first occurrence of every
 * element, in order. The source folds over the vector, pushing an element
 * onto the accumulator unless the accumulator already holds it, and then
 * replaces the vector with the accumulator; `Distinct` is that loop, and
 * `Dedup` the function it is proved against.
 */
module Arrays {

  /** No element occurs twice. */
  predicate NoDuplicates<T(==)>(v: seq<T>)
  {
    forall i, j :: 0 <= i < j < |v| ==> v[i] != v[j]
  }

  /** The first occurrences of `v`'s elements, in order: the fold's accumulator after all of `v`. */
  function Dedup<T(==)>(v: seq<T>): seq<T>
    decreases |v|
  {
    if v == [] then []
    else
      var acc := Dedup(v[..|v| - 1]);
      if v[|v| - 1] in acc then acc else acc + [v[|v| - 1]]
  }

  /** `distinct`: the fold, one element at a time. */
  method Distinct<T(==)>(v: seq<T>) returns (r: seq<T>)
    ensures r == Dedup(v)
    ensures NoDuplicates(r) && (forall x :: x in r <==> x in v) && |r| <= |v|
  {
    r := [];
    var i := 0;
    while i < |v|
      invariant 0 <= i <= |v|
      invariant r == Dedup(v[..i])
    {
      assert v[..i + 1][..i] == v[..i];
      if v[i] !in r {
        r := r + [v[i]];
      }
      i := i + 1;
    }
    assert v[..i] == v;
    DedupNoDuplicates(v);
    DedupShorter(v);
    forall x | true
      ensures x in r <==> x in v
    {
      DedupMember(v, x);
    }
  }

  /** The result never holds an element twice. */
  lemma {:induction false} DedupNoDuplicates<T>(v: seq<T>)
    ensures NoDuplicates(Dedup(v))
    decreases |v|
  {
    if v != [] {
      DedupNoDuplicates(v[..|v| - 1]);
    }
  }

  /** An element is in the result exactly when it is in the input. */
  lemma {:induction false} DedupMember<T>(v: seq<T>, x: T)
    ensures x in Dedup(v) <==> x in v
    decreases |v|
  {
    if v != [] {
      var init := v[..|v| - 1];
      DedupMember(init, x);
      assert v == init + [v[|v| - 1]];
    }
  }

  /** The result is never longer than the input. */
  lemma {:induction false} DedupShorter<T>(v: seq<T>)
    ensures |Dedup(v)| <= |v|
    decreases |v|
  {
    if v != [] {
      DedupShorter(v[..|v| - 1]);
    }
  }

  /** Index of the first occurrence of `x` in `v`. */
  function FirstIndex<T(==)>(v: seq<T>, x: T): (k: nat)
    requires x in v
    ensures k < |v| && v[k] == x && x !in v[..k]
  {
    if v[0] == x then 0
    else
      var k := 1 + FirstIndex(v[1..], x);
      assert v[..k] == [v[0]] + v[1..][..k - 1];
      k
  }

  /** Later in the result means first seen later in the input. */
  lemma {:induction false} DedupKeepsFirstOccurrenceOrder<T>(v: seq<T>, i: int, j: int)
    requires 0 <= i < j < |Dedup(v)|
    ensures Dedup(v)[i] in v && Dedup(v)[j] in v
    ensures FirstIndex(v, Dedup(v)[i]) < FirstIndex(v, Dedup(v)[j])
    decreases |v|
  {
    DedupMember(v, Dedup(v)[i]);
    DedupMember(v, Dedup(v)[j]);
    var init := v[..|v| - 1];
    var acc := Dedup(init);
    DedupMember(init, acc[i]);
    FirstIndexOfPrefix(v, init, Dedup(v)[i]);
    if j < |acc| {
      DedupMember(init, acc[j]);
      FirstIndexOfPrefix(v, init, Dedup(v)[j]);
      DedupKeepsFirstOccurrenceOrder(init, i, j);
    } else {
      // The element added last is the input's last element, seen nowhere before.
      var x := v[|v| - 1];
      DedupMember(init, x);
      assert Dedup(v)[j] == x && x !in init;
    }
  }

  /** The first occurrence of an element of a prefix lies in that prefix. */
  lemma FirstIndexOfPrefix<T>(v: seq<T>, init: seq<T>, x: T)
    requires |init| <= |v| && init == v[..|init|] && x in init
    ensures x in v && FirstIndex(v, x) == FirstIndex(init, x)
  {
    var k := FirstIndex(init, x);
    assert v[k] == x;
    var m := FirstIndex(v, x);
  }

  /** A vector without duplicates is left as it is. */
  lemma {:induction false} DedupOfDistinct<T>(v: seq<T>)
    requires NoDuplicates(v)
    ensures Dedup(v) == v
    decreases |v|
  {
    if v != [] {
      var init := v[..|v| - 1];
      DedupOfDistinct(init);
      assert v[|v| - 1] !in init by {
        forall k | 0 <= k < |init|
          ensures init[k] != v[|v| - 1]
        {
          assert init[k] == v[k];
        }
      }
      assert v == init + [v[|v| - 1]];
    }
  }

  /** Deduplicating twice is deduplicating once. */
  lemma DedupIdempotent<T>(v: seq<T>)
    ensures Dedup(Dedup(v)) == Dedup(v)
  {
    DedupNoDuplicates(v);
    DedupOfDistinct(Dedup(v));
  }

  /** Appending an element already present changes nothing; a new one goes to the end. */
  lemma DedupAppend<T>(v: seq<T>, x: T)
    ensures x in v ==> Dedup(v + [x]) == Dedup(v)
    ensures x !in v ==> Dedup(v + [x]) == Dedup(v) + [x]
  {
    assert (v + [x])[..|v|] == v;
    DedupMember(v, x);
  }

  lemma DistinctExample()
    ensures Dedup([1, 2, 3, 1, 2, 3]) == [1, 2, 3]
  {
    DedupOfDistinct([1, 2, 3]);
    DedupAppend([1, 2, 3], 1);
    assert [1, 2, 3] + [1] == [1, 2, 3, 1];
    DedupAppend([1, 2, 3, 1], 2);
    assert [1, 2, 3, 1] + [2] == [1, 2, 3, 1, 2];
    DedupAppend([1, 2, 3, 1, 2], 3);
    assert [1, 2, 3, 1, 2] + [3] == [1, 2, 3, 1, 2, 3];
  }
}
