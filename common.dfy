/** Small shared vocabulary: optional values, results, and pandas' `unique()`. */
module Common {

  datatype Option<T> = None | Some(value: T)

  datatype Result<T, E> = Ok(value: T) | Err(error: E)

  /** True when some element of `xs` has key `k`. */
  predicate Occurs<T, K(==)>(xs: seq<T>, key: T -> K, k: K)
  {
    exists j :: 0 <= j < |xs| && key(xs[j]) == k
  }

  /**
   * One element of `xs` per key, the first of its key: pandas' `unique()`,
   * the key being the equality the values are hashed under.
   */
  function Unique<T, K(==)>(xs: seq<T>, key: T -> K): (r: seq<T>)
    ensures forall i :: 0 <= i < |r| ==> r[i] in xs
    ensures forall i, j :: 0 <= i < j < |r| ==> key(r[i]) != key(r[j])
  {
    if xs == [] then []
    else
      var u := Unique(xs[..|xs| - 1], key);
      var x := xs[|xs| - 1];
      assert forall i :: 0 <= i < |u| ==> u[i] in xs by {
        assert xs == xs[..|xs| - 1] + [x];
      }
      if Occurs(u, key, key(x)) then u else u + [x]
  }

  /** Every key of `xs` is kept by `Unique`. */
  lemma {:induction false} UniqueCovers<T, K>(xs: seq<T>, key: T -> K, i: nat)
    requires i < |xs|
    ensures Occurs(Unique(xs, key), key, key(xs[i]))
  {
    var n := |xs| - 1;
    var u := Unique(xs[..n], key);
    var x := xs[n];
    if i < n {
      UniqueCovers(xs[..n], key, i);
      var j :| 0 <= j < |u| && key(u[j]) == key(xs[..n][i]);
      if !Occurs(u, key, key(x)) {
        assert key((u + [x])[j]) == key(xs[i]);
      }
    } else if !Occurs(u, key, key(x)) {
      assert key((u + [x])[|u|]) == key(x);
    }
  }

  /** Plain first-seen deduplication, `pd.unique` on a column of strings. */
  function Distinct<T(==)>(xs: seq<T>): (r: seq<T>)
    ensures forall i :: 0 <= i < |r| ==> r[i] in xs
    ensures forall i, j :: 0 <= i < j < |r| ==> r[i] != r[j]
  {
    if xs == [] then []
    else
      var u := Distinct(xs[..|xs| - 1]);
      var x := xs[|xs| - 1];
      assert xs == xs[..|xs| - 1] + [x];
      if x in u then u else u + [x]
  }

  /** Every element of `xs` is kept by `Distinct`. */
  lemma {:induction false} DistinctCovers<T>(xs: seq<T>, i: nat)
    requires i < |xs|
    ensures xs[i] in Distinct(xs)
  {
    var n := |xs| - 1;
    if i < n {
      DistinctCovers(xs[..n], i);
    }
  }

  /** One more element: `Distinct` appends it exactly when it is new. */
  lemma DistinctSnoc<T>(xs: seq<T>, x: T)
    ensures Distinct(xs + [x]) == if x in Distinct(xs) then Distinct(xs) else Distinct(xs) + [x]
  {
    assert (xs + [x])[..|xs|] == xs;
  }

  /**
   * First-seen order: deduplicating a prefix of `xs` gives a prefix of
   * deduplicating `xs`, so an element seen earlier is listed earlier.
   */
  lemma {:induction false} DistinctPrefix<T>(xs: seq<T>, m: nat)
    requires m <= |xs|
    ensures Distinct(xs[..m]) <= Distinct(xs)
    decreases |xs|
  {
    if m < |xs| {
      var n := |xs| - 1;
      assert xs[..n][..m] == xs[..m];
      DistinctPrefix(xs[..n], m);
      DistinctGrows(xs);
      PrefixTransitive(Distinct(xs[..m]), Distinct(xs[..n]), Distinct(xs));
    } else {
      assert xs[..m] == xs;
    }
  }

  /** Dropping the last element can only drop the last element of the deduplication. */
  lemma DistinctGrows<T>(xs: seq<T>)
    requires xs != []
    ensures Distinct(xs[..|xs| - 1]) <= Distinct(xs)
  {
  }

  lemma PrefixTransitive<T>(a: seq<T>, b: seq<T>, c: seq<T>)
    requires a <= b && b <= c
    ensures a <= c
  {
    assert b == c[..|b|];
    assert a == b[..|a|];
    assert c[..|b|][..|a|] == c[..|a|];
  }
}
