/**
 * The attribute tree of one state snapshot: `_parse_attributes` turns the
 * `<attribute>` elements into nested dicts of typed scalars, and
 * `_flatten_dict` turns those into one dict keyed by dotted paths.
 */
module Attributes {
  import opened Common
  import opened PyDict
  import opened Values

  /** An `<attribute category="...">` element: its name, type tag, category and `<value>` child. */
  datatype Attr = Attr(name: string, typ: string, category: string, value: ValueNode)

  /** A `<value>` element: its text and its `<attribute>` children. */
  datatype ValueNode = ValueNode(text: string, attributes: seq<Attr>)

  /** What `_parse_attributes` stores under a name: a typed scalar or a nested dict. */
  datatype Node = Leaf(v: Value) | Sub(d: Dict<Node>)

  /** The `ValueError`s of `int(...)` and `float(...)` on a leaf's text. */
  datatype ParseError = NotAnInteger(text: string) | NotAFloat(text: string)

  /** The typed scalar of a leaf: coerced by its type tag only in category "P". */
  function LeafValue(typ: string, category: string, text: string): Result<Value, ParseError>
  {
    if category == "P" then
      if typ == "Integer" then
        match ParseInt(text)
        case Some(n) => Ok(IntV(n))
        case None => Err(NotAnInteger(text))
      else if typ == "Float" then
        match ParseFloat(text)
        case Some(r) => Ok(FloatV(r))
        case None => Err(NotAFloat(text))
      else if typ == "Boolean" then Ok(BoolV(text == "True"))
      else Ok(StrV(text))
    else Ok(StrV(text))
  }

  /** What one attribute contributes: a nested dict when its value has attribute children. */
  function Coerce(a: Attr): Result<Node, ParseError>
    decreases a, 2
  {
    if |a.value.attributes| > 0 then AsSub(ParseAttributes(a.value.attributes))
    else AsLeaf(LeafValue(a.typ, a.category, a.value.text))
  }

  function AsSub(r: Result<Dict<Node>, ParseError>): Result<Node, ParseError>
  {
    if r.Ok? then Ok(Sub(r.value)) else Err(r.error)
  }

  function AsLeaf(r: Result<Value, ParseError>): Result<Node, ParseError>
  {
    if r.Ok? then Ok(Leaf(r.value)) else Err(r.error)
  }

  /** `_parse_attributes`: `res[name] = ...` for each attribute in turn; the first error aborts. */
  function ParseAttributes(attrs: seq<Attr>): Result<Dict<Node>, ParseError>
    decreases attrs, 1
  {
    if attrs == [] then Ok([])
    else Store(ParseAttributes(attrs[..|attrs| - 1]), attrs[|attrs| - 1].name, Coerce(attrs[|attrs| - 1]))
  }

  /** `res[name] = node` after the earlier attributes, unless something already failed. */
  function Store(res: Result<Dict<Node>, ParseError>, name: string, node: Result<Node, ParseError>): Result<Dict<Node>, ParseError>
  {
    if res.Err? then res
    else if node.Err? then Err(node.error)
    else Ok(Put(res.value, name, node.value))
  }

  function Names(attrs: seq<Attr>): seq<string>
  {
    if attrs == [] then [] else Names(attrs[..|attrs| - 1]) + [attrs[|attrs| - 1].name]
  }

  /** No later attribute of `attrs` carries the name of the one at `i`. */
  predicate LastOfName(attrs: seq<Attr>, i: nat)
    requires i < |attrs|
  {
    forall j :: i < j < |attrs| ==> attrs[j].name != attrs[i].name
  }

  lemma KeysHasKey<V>(d: Dict<V>, k: string)
    ensures HasKey(d, k) <==> k in Keys(d)
  {
    if HasKey(d, k) {
      var i :| 0 <= i < |d| && d[i].key == k;
      KeysAt(d, i);
    }
    if k in Keys(d) {
      var i :| 0 <= i < |d| && Keys(d)[i] == k;
      KeysAt(d, i);
    }
  }

  /** One step of the parse loop: the dict after the last attribute. */
  lemma ParseStep(attrs: seq<Attr>)
    requires attrs != [] && ParseAttributes(attrs).Ok?
    ensures ParseAttributes(attrs[..|attrs| - 1]).Ok? && Coerce(attrs[|attrs| - 1]).Ok?
    ensures ParseAttributes(attrs).value ==
      Put(ParseAttributes(attrs[..|attrs| - 1]).value, attrs[|attrs| - 1].name, Coerce(attrs[|attrs| - 1]).value)
  {
  }

  /** A successful parse never stores a name twice. */
  lemma {:induction false} ParseAttributesDistinct(attrs: seq<Attr>)
    requires ParseAttributes(attrs).Ok?
    ensures KeysDistinct(ParseAttributes(attrs).value)
    decreases |attrs|
  {
    if attrs != [] {
      var n := |attrs| - 1;
      ParseStep(attrs);
      ParseAttributesDistinct(attrs[..n]);
      PutDistinct(ParseAttributes(attrs[..n]).value, attrs[n].name, Coerce(attrs[n]).value);
    }
  }

  /** A successful parse has one key per distinct name, in the order the names first appear. */
  lemma {:induction false} ParseAttributesKeys(attrs: seq<Attr>)
    requires ParseAttributes(attrs).Ok?
    ensures Keys(ParseAttributes(attrs).value) == Distinct(Names(attrs))
    decreases |attrs|
  {
    if attrs != [] {
      var n := |attrs| - 1;
      var p := attrs[..n];
      var last := attrs[n];
      ParseStep(attrs);
      ParseAttributesKeys(p);
      KeysOfPut(ParseAttributes(p).value, Names(p), last.name, Coerce(last).value);
      assert Names(attrs) == Names(p) + [last.name];
    }
  }

  lemma KeysOfPut<V>(d: Dict<V>, names: seq<string>, k: string, v: V)
    requires Keys(d) == Distinct(names)
    ensures Keys(Put(d, k, v)) == Distinct(names + [k])
  {
    PutKeys(d, k, v);
    KeysHasKey(d, k);
    DistinctSnoc(names, k);
  }

  /** Under each name a successful parse keeps the value of the LAST attribute carrying it. */
  lemma ParseAttributesLastWins(attrs: seq<Attr>)
    requires ParseAttributes(attrs).Ok?
    ensures forall i :: 0 <= i < |attrs| && LastOfName(attrs, i) ==>
      Coerce(attrs[i]).Ok? && Get(ParseAttributes(attrs).value, attrs[i].name) == Some(Coerce(attrs[i]).value)
  {
    forall i | 0 <= i < |attrs| && LastOfName(attrs, i)
      ensures Coerce(attrs[i]).Ok? && Get(ParseAttributes(attrs).value, attrs[i].name) == Some(Coerce(attrs[i]).value)
    {
      LastWinsAt(attrs, i);
    }
  }

  /** The attribute at `i`, when no later one shares its name, is what the parse stores under that name. */
  lemma {:induction false} LastWinsAt(attrs: seq<Attr>, i: nat)
    requires i < |attrs| && LastOfName(attrs, i) && ParseAttributes(attrs).Ok?
    ensures Coerce(attrs[i]).Ok? && Get(ParseAttributes(attrs).value, attrs[i].name) == Some(Coerce(attrs[i]).value)
    decreases |attrs|, 1
  {
    if i < |attrs| - 1 {
      LastWinsBefore(attrs, i);
    } else {
      ParseStep(attrs);
    }
  }

  /** The inductive step of `LastWinsAt`: the last attribute carries another name, so it leaves this entry alone. */
  lemma {:induction false} LastWinsBefore(attrs: seq<Attr>, i: nat)
    requires i < |attrs| - 1 && LastOfName(attrs, i) && ParseAttributes(attrs).Ok?
    ensures Coerce(attrs[i]).Ok? && Get(ParseAttributes(attrs).value, attrs[i].name) == Some(Coerce(attrs[i]).value)
    decreases |attrs|, 0
  {
    var n := |attrs| - 1;
    var p := attrs[..n];
    ParseStep(attrs);
    assert p[i] == attrs[i];
    assert LastOfName(p, i);
    LastWinsAt(p, i);
    assert attrs[n].name != attrs[i].name;
  }

  /** A successful parse coerced every attribute successfully. */
  lemma ParseOkAllOk(attrs: seq<Attr>)
    requires ParseAttributes(attrs).Ok?
    ensures forall i :: 0 <= i < |attrs| ==> Coerce(attrs[i]).Ok?
  {
    forall i | 0 <= i < |attrs| ensures Coerce(attrs[i]).Ok? {
      ParseOkAt(attrs, i);
    }
  }

  /** A successful parse coerced the attribute at `i` successfully. */
  lemma {:induction false} ParseOkAt(attrs: seq<Attr>, i: nat)
    requires i < |attrs| && ParseAttributes(attrs).Ok?
    ensures Coerce(attrs[i]).Ok?
    decreases |attrs|, 1
  {
    if i < |attrs| - 1 {
      ParseOkBefore(attrs, i);
    } else {
      ParseStep(attrs);
    }
  }

  /** The inductive step of `ParseOkAt`: an attribute before the last one. */
  lemma {:induction false} ParseOkBefore(attrs: seq<Attr>, i: nat)
    requires i < |attrs| - 1 && ParseAttributes(attrs).Ok?
    ensures Coerce(attrs[i]).Ok?
    decreases |attrs|, 0
  {
    var n := |attrs| - 1;
    ParseStep(attrs);
    ParseOkAt(attrs[..n], i);
    assert attrs[..n][i] == attrs[i];
  }

  /** A failed parse reports the error of the first attribute that fails. */
  lemma {:induction false} ParseErrFirstFailure(attrs: seq<Attr>)
    requires ParseAttributes(attrs).Err?
    ensures exists i :: (0 <= i < |attrs| && Coerce(attrs[i]) == Err(ParseAttributes(attrs).error) &&
                         forall j :: 0 <= j < i ==> Coerce(attrs[j]).Ok?)
    decreases |attrs|
  {
    var n := |attrs| - 1;
    var p := attrs[..n];
    assert forall j :: 0 <= j < n ==> attrs[j] == p[j];
    if ParseAttributes(p).Err? {
      ParseErrFirstFailure(p);
      var i :| 0 <= i < |p| && Coerce(p[i]) == Err(ParseAttributes(p).error) &&
        (forall j :: 0 <= j < i ==> Coerce(p[j]).Ok?);
      assert attrs[i] == p[i];
    } else {
      ParseOkAllOk(p);
      assert Coerce(attrs[n]) == Err(ParseAttributes(attrs).error);
    }
  }

  /**
   * The coercion table: a leaf becomes an int, a float or a bool exactly
   * when its category is "P" and its type tag says so, and a string
   * otherwise; a bool is true exactly for the text "True".
   */
  lemma LeafTyping(a: Attr)
    requires a.value.attributes == [] && Coerce(a).Ok?
    ensures Coerce(a).value.Leaf?
    ensures var v := Coerce(a).value.v;
      (v.IntV? <==> a.category == "P" && a.typ == "Integer") &&
      (v.FloatV? <==> a.category == "P" && a.typ == "Float") &&
      (v.BoolV? <==> a.category == "P" && a.typ == "Boolean") &&
      (v.StrV? <==> a.category != "P" || a.typ !in {"Integer", "Float", "Boolean"}) &&
      (v.BoolV? ==> (v.b <==> a.value.text == "True")) &&
      (v.StrV? ==> v.s == a.value.text)
  {
  }

  /** An attribute whose value has children is a nested dict whatever its category or type. */
  lemma NestedWhateverCategory(a: Attr)
    requires |a.value.attributes| > 0
    ensures Coerce(a).Ok? <==> ParseAttributes(a.value.attributes).Ok?
    ensures Coerce(a).Ok? ==> Coerce(a).value == Sub(ParseAttributes(a.value.attributes).value)
  {
  }

  /** An Integer leaf of category "P" written as a numeral reads back as that integer. */
  lemma IntegerLeafRoundTrip(name: string, n: int)
    ensures Coerce(Attr(name, "Integer", "P", ValueNode(ShowInt(n), []))) == Ok(Leaf(IntV(n)))
    ensures Coerce(Attr(name, "Float", "P", ValueNode(ShowInt(n), []))) == Ok(Leaf(FloatV(n as real)))
  {
    ParseShowInt(n);
    ParseFloatShowInt(n);
  }

  // ---------------------------------------------------------------- flattening

  /** The items of `xs` with their keys written under `k`: `k + "." + kk`. */
  function Prefixed<V>(k: string, xs: Dict<V>): (r: Dict<V>)
    ensures |r| == |xs|
  {
    seq(|xs|, i requires 0 <= i < |xs| => Item(k + "." + xs[i].key, xs[i].val))
  }

  /** `_flatten_dict`: nested dicts become dotted keys, assigned in iteration order. */
  function Flatten(d: Dict<Node>): Dict<Value>
  {
    if d == [] then []
    else
      var last := d[|d| - 1];
      var r := Flatten(d[..|d| - 1]);
      match last.val
      case Leaf(v) => Put(r, last.key, v)
      case Sub(s) => PutAll(r, Prefixed(last.key, Flatten(s)))
  }

  /**
   * Reference definition: every leaf of the tree, depth first, keyed by
   * the "."-join of the names on its path.
   */
  function Leaves(d: Dict<Node>): Dict<Value>
  {
    if d == [] then [] else Leaves(d[..|d| - 1]) + EntryLeaves(d[|d| - 1])
  }

  function EntryLeaves(e: Item<Node>): Dict<Value>
  {
    match e.val
    case Leaf(v) => [Item(e.key, v)]
    case Sub(s) => Prefixed(e.key, Leaves(s))
  }

  function NumLeaves(d: Dict<Node>): nat
  {
    if d == [] then 0
    else NumLeaves(d[..|d| - 1]) + match d[|d| - 1].val { case Leaf(_) => 1 case Sub(s) => NumLeaves(s) }
  }

  /** The reference lists every leaf once. */
  lemma {:induction false} LeavesCount(d: Dict<Node>)
    ensures |Leaves(d)| == NumLeaves(d)
  {
    if d != [] {
      LeavesCount(d[..|d| - 1]);
      match d[|d| - 1].val {
        case Leaf(_) =>
        case Sub(s) => LeavesCount(s);
      }
    }
  }

  lemma PrefixedDistinct<V>(k: string, xs: Dict<V>)
    requires KeysDistinct(xs)
    ensures KeysDistinct(Prefixed(k, xs))
  {
    var p := Prefixed(k, xs);
    forall i, j | 0 <= i < j < |p| ensures p[i].key != p[j].key {
      assert p[i].key[|k| + 1..] == xs[i].key;
      assert p[j].key[|k| + 1..] == xs[j].key;
    }
  }

  lemma PrefixedDistinctInverse<V>(k: string, xs: Dict<V>)
    requires KeysDistinct(Prefixed(k, xs))
    ensures KeysDistinct(xs)
  {
    var p := Prefixed(k, xs);
    forall i, j | 0 <= i < j < |xs| ensures xs[i].key != xs[j].key {
      assert p[i].key == k + "." + xs[i].key && p[j].key == k + "." + xs[j].key;
    }
  }

  /** `_flatten_dict` never produces a key twice. */
  lemma {:induction false} FlattenDistinct(d: Dict<Node>)
    ensures KeysDistinct(Flatten(d))
  {
    if d != [] {
      var last := d[|d| - 1];
      var r := Flatten(d[..|d| - 1]);
      FlattenDistinct(d[..|d| - 1]);
      match last.val {
        case Leaf(v) => PutDistinct(r, last.key, v);
        case Sub(s) => PutAllDistinct(r, Prefixed(last.key, Flatten(s)));
      }
    }
  }

  /**
   * When no two leaves share a dotted path, flattening gives exactly the
   * reference: one key per leaf, in depth-first order, each the "."-join
   * of its chain of names, with its value unchanged.
   */
  lemma {:induction false} FlattenExact(d: Dict<Node>)
    requires KeysDistinct(Leaves(d))
    ensures Flatten(d) == Leaves(d)
  {
    if d != [] {
      var p := d[..|d| - 1];
      var last := d[|d| - 1];
      KeysDistinctSplit(Leaves(p), EntryLeaves(last));
      FlattenExact(p);
      match last.val {
        case Leaf(v) =>
          assert EntryLeaves(last)[0].key == last.key;
          assert !HasKey(Leaves(p), last.key);
          PutNew(Leaves(p), last.key, v);
        case Sub(s) =>
          PrefixedDistinctInverse(last.key, Leaves(s));
          FlattenExact(s);
          PutAllNew(Leaves(p), Prefixed(last.key, Leaves(s)));
      }
    }
  }

  /**
   * Without any condition, every flattened item is a leaf of the tree
   * under its dotted path, and the flattened keys are exactly the leaves'
   * dotted paths.
   */
  lemma {:induction false} FlattenSound(d: Dict<Node>)
    ensures forall x :: x in Flatten(d) ==> x in Leaves(d)
    ensures forall k :: HasKey(Flatten(d), k) <==> HasKey(Leaves(d), k)
  {
    if d != [] {
      var p := d[..|d| - 1];
      var last := d[|d| - 1];
      var r := Flatten(p);
      FlattenSound(p);
      forall k ensures HasKey(Leaves(d), k) <==> HasKey(Leaves(p), k) || HasKey(EntryLeaves(last), k) {
        HasKeyConcat(Leaves(p), EntryLeaves(last), k);
      }
      match last.val {
        case Leaf(v) =>
          forall k ensures HasKey(Flatten(d), k) <==> HasKey(r, k) || k == last.key {
            if k != last.key { assert Get(Flatten(d), k) == Get(r, k); }
          }
          assert HasKey(EntryLeaves(last), last.key) by { assert EntryLeaves(last)[0].key == last.key; }
        case Sub(s) =>
          var fs := Flatten(s);
          FlattenSound(s);
          forall x | x in Prefixed(last.key, fs) ensures x in Prefixed(last.key, Leaves(s)) {
            var i :| 0 <= i < |fs| && Prefixed(last.key, fs)[i] == x;
            assert fs[i] in fs;
            var j :| 0 <= j < |Leaves(s)| && Leaves(s)[j] == fs[i];
            assert Prefixed(last.key, Leaves(s))[j] == x;
          }
          forall k ensures HasKey(Flatten(d), k) <==> HasKey(r, k) || HasKey(EntryLeaves(last), k) {
            PutAllHasKey(r, Prefixed(last.key, fs), k);
            PrefixedHasKey(last.key, fs, Leaves(s), k);
          }
      }
    }
  }

  lemma HasKeyConcat<V>(a: Dict<V>, b: Dict<V>, k: string)
    ensures HasKey(a + b, k) <==> HasKey(a, k) || HasKey(b, k)
  {
    if HasKey(a + b, k) {
      var i :| 0 <= i < |a + b| && (a + b)[i].key == k;
      if i >= |a| { assert b[i - |a|] == (a + b)[i]; }
    }
    if HasKey(b, k) {
      var i :| 0 <= i < |b| && b[i].key == k;
      assert (a + b)[|a| + i] == b[i];
    }
    if HasKey(a, k) {
      var i :| 0 <= i < |a| && a[i].key == k;
      assert (a + b)[i] == a[i];
    }
  }

  lemma PrefixedHasKeyOneWay<V>(key: string, xs: Dict<V>, ys: Dict<V>, k: string)
    requires forall kk :: HasKey(xs, kk) ==> HasKey(ys, kk)
    requires HasKey(Prefixed(key, xs), k)
    ensures HasKey(Prefixed(key, ys), k)
  {
    var i :| 0 <= i < |xs| && Prefixed(key, xs)[i].key == k;
    assert HasKey(xs, xs[i].key);
    var j :| 0 <= j < |ys| && ys[j].key == xs[i].key;
    assert Prefixed(key, ys)[j].key == k;
  }

  lemma PrefixedHasKey<V>(key: string, xs: Dict<V>, ys: Dict<V>, k: string)
    requires forall kk :: HasKey(xs, kk) <==> HasKey(ys, kk)
    ensures HasKey(Prefixed(key, xs), k) <==> HasKey(Prefixed(key, ys), k)
  {
    if HasKey(Prefixed(key, xs), k) { PrefixedHasKeyOneWay(key, xs, ys, k); }
    if HasKey(Prefixed(key, ys), k) { PrefixedHasKeyOneWay(key, ys, xs, k); }
  }

  /** A flat dict seen as a tree of leaves. */
  function Lift(f: Dict<Value>): (d: Dict<Node>)
    ensures |d| == |f|
  {
    seq(|f|, i requires 0 <= i < |f| => Item(f[i].key, Leaf(f[i].val)))
  }

  lemma {:induction false} LeavesOfLift(f: Dict<Value>)
    ensures Leaves(Lift(f)) == f
  {
    if f != [] {
      var n := |f| - 1;
      assert Lift(f)[..n] == Lift(f[..n]);
      LeavesOfLift(f[..n]);
      assert f == f[..n] + [f[n]];
    }
  }

  /** Flattening an already flat dict returns it unchanged. */
  lemma FlattenFlat(f: Dict<Value>)
    requires KeysDistinct(f)
    ensures Flatten(Lift(f)) == f
  {
    LeavesOfLift(f);
    FlattenExact(Lift(f));
  }

  /** `_flatten_dict` is idempotent. */
  lemma FlattenIdempotent(d: Dict<Node>)
    ensures Flatten(Lift(Flatten(d))) == Flatten(d)
  {
    FlattenDistinct(d);
    FlattenFlat(Flatten(d));
  }

  // ---------------------------------------------------------------- when no collisions happen

  /** Every attribute name, at every depth, is free of '.'. */
  predicate DotFree(attrs: seq<Attr>)
  {
    forall i :: 0 <= i < |attrs| ==> '.' !in attrs[i].name && DotFree(attrs[i].value.attributes)
  }

  /** Keys distinct and free of '.' at every level of the nested dicts. */
  predicate WellNamed(d: Dict<Node>)
  {
    KeysDistinct(d) &&
    forall i :: 0 <= i < |d| ==> '.' !in d[i].key && (d[i].val.Sub? ==> WellNamed(d[i].val.d))
  }

  /** The text of a dotted path up to its first '.'. */
  function Head(s: string): string
  {
    match DotIndex(s)
    case None => s
    case Some(i) => s[..i]
  }

  lemma HeadOfPrefixed(k: string, x: string)
    requires '.' !in k
    ensures Head(k + "." + x) == k
  {
    var s := k + "." + x;
    assert s[|k|] == '.';
    var i := DotIndex(s).value;
    assert s[..|k|] == k;
  }

  /** In a well-named tree, every leaf path starts with the name of its top-level entry. */
  lemma {:induction false} LeavesHeads(d: Dict<Node>)
    requires WellNamed(d)
    ensures forall j :: 0 <= j < |Leaves(d)| ==> Head(Leaves(d)[j].key) in Keys(d)
  {
    if d != [] {
      var p := d[..|d| - 1];
      var last := d[|d| - 1];
      assert WellNamed(p) by {
        assert forall i :: 0 <= i < |p| ==> p[i] == d[i];
      }
      LeavesHeads(p);
      assert Keys(d) == Keys(p) + [last.key] by {
        forall i | 0 <= i < |d| ensures Keys(d)[i] == (Keys(p) + [last.key])[i] {
          KeysAt(d, i);
          if i < |p| { KeysAt(p, i); }
        }
      }
      var e := EntryLeaves(last);
      forall j | 0 <= j < |e| ensures Head(e[j].key) == last.key {
        match last.val {
          case Leaf(_) =>
            assert DotIndex(last.key).None?;
          case Sub(s) =>
            HeadOfPrefixed(last.key, Leaves(s)[j].key);
        }
      }
      forall j | 0 <= j < |Leaves(d)| ensures Head(Leaves(d)[j].key) in Keys(d) {
        if j >= |Leaves(p)| {
          assert Leaves(d)[j] == e[j - |Leaves(p)|];
        } else {
          assert Leaves(d)[j] == Leaves(p)[j];
        }
      }
    }
  }

  /** In a well-named tree no two leaves share a dotted path. */
  lemma {:induction false} WellNamedLeavesDistinct(d: Dict<Node>)
    requires WellNamed(d)
    ensures KeysDistinct(Leaves(d))
  {
    if d != [] {
      var p := d[..|d| - 1];
      var last := d[|d| - 1];
      assert WellNamed(p) by {
        assert forall i :: 0 <= i < |p| ==> p[i] == d[i];
      }
      WellNamedLeavesDistinct(p);
      LeavesHeads(p);
      var e := EntryLeaves(last);
      match last.val {
        case Leaf(_) =>
        case Sub(s) =>
          WellNamedLeavesDistinct(s);
          PrefixedDistinct(last.key, Leaves(s));
      }
      forall j | 0 <= j < |e| ensures Head(e[j].key) == last.key {
        match last.val {
          case Leaf(_) =>
            assert DotIndex(last.key).None?;
          case Sub(s) =>
            HeadOfPrefixed(last.key, Leaves(s)[j].key);
        }
      }
      assert last.key !in Keys(p) by {
        forall i | 0 <= i < |p| ensures Keys(p)[i] != last.key {
          KeysAt(p, i);
          assert d[i] == p[i];
        }
      }
      KeysDistinctSplit(Leaves(p), e);
    }
  }

  /** `_parse_attributes` on dot-free names gives well-named dicts (duplicates having been overwritten). */
  lemma {:induction false} ParseWellNamed(attrs: seq<Attr>)
    requires DotFree(attrs) && ParseAttributes(attrs).Ok?
    ensures WellNamed(ParseAttributes(attrs).value)
    decreases attrs, 1
  {
    if attrs != [] {
      var n := |attrs| - 1;
      var p := attrs[..n];
      var last := attrs[n];
      ParseStep(attrs);
      assert DotFree(p) by { assert forall i :: 0 <= i < n ==> p[i] == attrs[i]; }
      assert '.' !in last.name && DotFree(last.value.attributes);
      ParseWellNamed(p);
      var d' := ParseAttributes(p).value;
      var node := Coerce(last).value;
      CoerceWellNamed(last);
      PutDistinct(d', last.name, node);
      var d := Put(d', last.name, node);
      forall i | 0 <= i < |d| ensures '.' !in d[i].key && (d[i].val.Sub? ==> WellNamed(d[i].val.d)) {
        assert d[i] in d;
        if d[i] != Item(last.name, node) {
          var j :| 0 <= j < |d'| && d'[j] == d[i];
        }
      }
    }
  }

  lemma {:induction false} CoerceWellNamed(a: Attr)
    requires DotFree(a.value.attributes) && Coerce(a).Ok?
    ensures Coerce(a).value.Sub? ==> WellNamed(Coerce(a).value.d)
    decreases a, 2
  {
    if |a.value.attributes| > 0 {
      ParseWellNamed(a.value.attributes);
    }
  }

  /**
   * Parse then flatten, for dot-free names: the flat dict holds exactly
   * one entry per leaf of the parsed tree, keyed by its dotted path.
   */
  lemma ParseThenFlatten(attrs: seq<Attr>)
    requires DotFree(attrs) && ParseAttributes(attrs).Ok?
    ensures var d := ParseAttributes(attrs).value;
      Flatten(d) == Leaves(d) && |Flatten(d)| == NumLeaves(d)
  {
    var d := ParseAttributes(attrs).value;
    ParseWellNamed(attrs);
    WellNamedLeavesDistinct(d);
    FlattenExact(d);
    LeavesCount(d);
  }
}
