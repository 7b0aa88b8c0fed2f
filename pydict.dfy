/**
 * Python dictionaries as association lists: insertion-ordered, where
 * assigning to a present key overwrites its value in place and assigning
 * to a new key appends it.
 */
module PyDict {
  import opened Common

  datatype Item<V> = Item(key: string, val: V)

  type Dict<V> = seq<Item<V>>

  function Keys<V>(d: Dict<V>): (ks: seq<string>)
    ensures |ks| == |d|
  {
    if d == [] then [] else [d[0].key] + Keys(d[1..])
  }

  lemma {:induction false} KeysAt<V>(d: Dict<V>, i: nat)
    requires i < |d|
    ensures Keys(d)[i] == d[i].key
  {
    if i > 0 { KeysAt(d[1..], i - 1); }
  }

  predicate HasKey<V>(d: Dict<V>, k: string)
  {
    exists i :: 0 <= i < |d| && d[i].key == k
  }

  lemma HasKeyTail<V>(d: Dict<V>, k: string)
    requires d != []
    ensures HasKey(d, k) <==> d[0].key == k || HasKey(d[1..], k)
  {
    if HasKey(d, k) {
      var i :| 0 <= i < |d| && d[i].key == k;
      if i > 0 { assert d[1..][i - 1] == d[i]; }
    }
    if HasKey(d[1..], k) {
      var i :| 0 <= i < |d| - 1 && d[1..][i].key == k;
      assert d[i + 1] == d[1..][i];
    }
  }

  /** Every key occurs once. */
  predicate KeysDistinct<V>(d: Dict<V>)
  {
    forall i, j :: 0 <= i < j < |d| ==> d[i].key != d[j].key
  }

  /** `d.get(k)`. */
  function Get<V>(d: Dict<V>, k: string): (r: Option<V>)
    ensures r.None? <==> !HasKey(d, k)
    ensures r.Some? ==> Item(k, r.value) in d
  {
    if d == [] then None
    else if d[0].key == k then Some(d[0].val)
    else
      HasKeyTail(d, k);
      Get(d[1..], k)
  }

  /** `d[k] = v`. */
  function Put<V>(d: Dict<V>, k: string, v: V): (r: Dict<V>)
    ensures Get(r, k) == Some(v)
    ensures forall k' :: k' != k ==> Get(r, k') == Get(d, k')
    ensures forall x :: x in r ==> x in d || x == Item(k, v)
  {
    if d == [] then [Item(k, v)]
    else if d[0].key == k then [Item(k, v)] + d[1..]
    else [d[0]] + Put(d[1..], k, v)
  }

  /** Assigning keeps the order of present keys and appends a new key. */
  lemma {:induction false} PutKeys<V>(d: Dict<V>, k: string, v: V)
    ensures Keys(Put(d, k, v)) == if HasKey(d, k) then Keys(d) else Keys(d) + [k]
  {
    if d == [] {
    } else if d[0].key == k {
      assert HasKey(d, k) by { assert d[0].key == k; }
      assert Put(d, k, v)[1..] == d[1..];
    } else {
      PutKeys(d[1..], k, v);
      HasKeyTail(d, k);
      assert Put(d, k, v)[1..] == Put(d[1..], k, v);
    }
  }

  lemma PutDistinct<V>(d: Dict<V>, k: string, v: V)
    requires KeysDistinct(d)
    ensures KeysDistinct(Put(d, k, v))
  {
    PutKeys(d, k, v);
    var r := Put(d, k, v);
    assert Keys(Put(d, k, v)) == Keys(r);
    forall i, j | 0 <= i < j < |r| ensures r[i].key != r[j].key {
      KeysAt(r, i);
      KeysAt(r, j);
      KeysAt(d, i);
      if !HasKey(d, k) && j == |d| {
        assert r[j].key == k;
      } else {
        KeysAt(d, j);
      }
    }
  }

  lemma {:induction false} PutNew<V>(d: Dict<V>, k: string, v: V)
    requires !HasKey(d, k)
    ensures Put(d, k, v) == d + [Item(k, v)]
  {
    if d != [] {
      HasKeyTail(d, k);
      PutNew(d[1..], k, v);
      assert d == [d[0]] + d[1..];
    }
  }

  /** Assigning every item of `xs` in turn: `for k, v in xs: d[k] = v`. */
  function PutAll<V>(d: Dict<V>, xs: Dict<V>): (r: Dict<V>)
    ensures forall x :: x in r ==> x in d || x in xs
    decreases |xs|
  {
    if xs == [] then d
    else PutAll(Put(d, xs[0].key, xs[0].val), xs[1..])
  }

  lemma {:induction false} PutAllDistinct<V>(d: Dict<V>, xs: Dict<V>)
    requires KeysDistinct(d)
    ensures KeysDistinct(PutAll(d, xs))
    decreases |xs|
  {
    if xs != [] {
      PutDistinct(d, xs[0].key, xs[0].val);
      PutAllDistinct(Put(d, xs[0].key, xs[0].val), xs[1..]);
    }
  }

  /** Assigning never loses a key, and every key of `xs` ends up present. */
  lemma {:induction false} PutAllHasKey<V>(d: Dict<V>, xs: Dict<V>, k: string)
    ensures HasKey(PutAll(d, xs), k) <==> HasKey(d, k) || HasKey(xs, k)
    decreases |xs|
  {
    if xs != [] {
      var d' := Put(d, xs[0].key, xs[0].val);
      PutAllHasKey(d', xs[1..], k);
      if k != xs[0].key { assert Get(d', k) == Get(d, k); }
      HasKeyTail(xs, k);
    }
  }

  /** When `xs` brings only new, distinct keys, assigning them appends them. */
  lemma {:induction false} PutAllNew<V>(d: Dict<V>, xs: Dict<V>)
    requires KeysDistinct(d + xs)
    ensures PutAll(d, xs) == d + xs
    decreases |xs|
  {
    if xs != [] {
      var x := xs[0];
      assert d + xs == (d + [x]) + xs[1..];
      assert !HasKey(d, x.key) by {
        forall i | 0 <= i < |d| ensures d[i].key != x.key {
          assert (d + xs)[i] == d[i] && (d + xs)[|d|] == x;
        }
      }
      PutNew(d, x.key, x.val);
      PutAllNew(d + [x], xs[1..]);
    }
  }

  /** The items of a dict with distinct keys are the dict's bindings. */
  lemma GetOfItem<V>(d: Dict<V>, k: string, v: V)
    requires KeysDistinct(d) && Item(k, v) in d
    ensures Get(d, k) == Some(v)
  {
    var i :| 0 <= i < |d| && d[i] == Item(k, v);
    assert HasKey(d, k);
    var w := Get(d, k).value;
    var j :| 0 <= j < |d| && d[j] == Item(k, w);
    assert i == j;
  }

  lemma KeysDistinctSplit<V>(a: Dict<V>, b: Dict<V>)
    ensures KeysDistinct(a + b) <==>
      KeysDistinct(a) && KeysDistinct(b) && forall i, j :: 0 <= i < |a| && 0 <= j < |b| ==> a[i].key != b[j].key
  {
    var ab := a + b;
    if KeysDistinct(ab) {
      forall i, j | 0 <= i < j < |a| ensures a[i].key != a[j].key { assert ab[i] == a[i] && ab[j] == a[j]; }
      forall i, j | 0 <= i < j < |b| ensures b[i].key != b[j].key {
        assert ab[|a| + i] == b[i] && ab[|a| + j] == b[j];
      }
      forall i, j | 0 <= i < |a| && 0 <= j < |b| ensures a[i].key != b[j].key {
        assert ab[i] == a[i] && ab[|a| + j] == b[j];
      }
    }
    if KeysDistinct(a) && KeysDistinct(b) && forall i, j :: 0 <= i < |a| && 0 <= j < |b| ==> a[i].key != b[j].key {
      forall i, j | 0 <= i < j < |ab| ensures ab[i].key != ab[j].key {
        if j < |a| {
          assert ab[i] == a[i] && ab[j] == a[j];
        } else if i >= |a| {
          assert ab[i] == b[i - |a|] && ab[j] == b[j - |a|];
        } else {
          assert ab[i] == a[i] && ab[j] == b[j - |a|];
        }
      }
    }
  }
}
