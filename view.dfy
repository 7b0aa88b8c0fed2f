/**
 * What `create_plot_for_active_model_state` computes for one series: the
 * time window around the cursor, the stairstep line with its gaps, the
 * transition arrows, the event dots and the tick policy. Drawing is not
 * modelled; only the arrays and choices handed to matplotlib are.
 */
module View {
  import opened Common
  import opened Values
  import opened Trace
  import opened Timeline

  function Max(a: real, b: real): real { if b > a then b else a }
  function Min(a: real, b: real): real { if b < a then b else a }

  // ---------------------------------------------------------------- the window

  /** `lower = max(mid - ws / 2, 0.0)`. */
  function Lower(mid: real, ws: int): real
  {
    Max(mid - ws as real / 2.0, 0.0)
  }

  /** `upper = lower + ws`. */
  function Upper(mid: real, ws: int): real
  {
    Lower(mid, ws) + ws as real
  }

  /** The latest time before `lower`, or `lower` itself when there is none. */
  function Lowest(s: seq<Row>, lower: real): real
  {
    var p := PrevTime(s, lower);
    if p.Some? then p.value else lower
  }

  /** The earliest time after `upper`, or `upper` itself when there is none. */
  function Highest(s: seq<Row>, upper: real): real
  {
    var n := NextTime(s, upper);
    if n.Some? then n.value else upper
  }

  /** The events plotted: the nominal window widened to its nearest neighbours outside. */
  function WindowEvents(s: seq<Row>, mid: real, ws: int): seq<Row>
  {
    Between(s, Lowest(s, Lower(mid, ws)), Highest(s, Upper(mid, ws)))
  }

  /**
   * On a sorted series, with a window size that is not negative, the
   * window is exactly the events in `[lower, upper]` plus those at the
   * nearest time on either side of it, each as often as the series holds it.
   */
  lemma WindowExact(s: seq<Row>, mid: real, ws: int)
    requires SortedByTime(s) && ws >= 0
    ensures var lower, upper := Lower(mid, ws), Upper(mid, ws);
      forall x :: x in WindowEvents(s, mid, ws) <==>
        x in s && ((lower <= x.time <= upper) ||
                   (PrevTime(s, lower).Some? && x.time == PrevTime(s, lower).value) ||
                   (NextTime(s, upper).Some? && x.time == NextTime(s, upper).value))
    ensures forall x :: x in WindowEvents(s, mid, ws) ==> multiset(WindowEvents(s, mid, ws))[x] == multiset(s)[x]
  {
    var lower, upper := Lower(mid, ws), Upper(mid, ws);
    PrevTimeGreatestBelow(s, lower);
    NextTimeLeastAbove(s, upper);
    var lo, hi := Lowest(s, lower), Highest(s, upper);
    assert lo <= lower <= upper <= hi;
    forall x | x in s && lo <= x.time <= hi
      ensures (lower <= x.time <= upper) ||
              (PrevTime(s, lower).Some? && x.time == PrevTime(s, lower).value) ||
              (NextTime(s, upper).Some? && x.time == NextTime(s, upper).value)
    {
    }
  }

  /** A non-empty series gives a non-empty window when the window size is not negative. */
  lemma WindowNonEmpty(s: seq<Row>, mid: real, ws: int)
    requires SortedByTime(s) && s != [] && ws >= 0
    ensures WindowEvents(s, mid, ws) != []
  {
    var lower, upper := Lower(mid, ws), Upper(mid, ws);
    PrevTimeGreatestBelow(s, lower);
    NextTimeLeastAbove(s, upper);
    assert s[0] in s;
    if PrevTime(s, lower).Some? {
      var x :| x in s && x.time == PrevTime(s, lower).value;
      assert x in WindowEvents(s, mid, ws);
    } else if NextTime(s, upper).Some? {
      var x :| x in s && x.time == NextTime(s, upper).value;
      assert x in WindowEvents(s, mid, ws);
    } else {
      assert s[0] in WindowEvents(s, mid, ws);
    }
  }

  // ---------------------------------------------------------------- sequences of reals

  function MinOf(xs: seq<real>): (m: real)
    requires |xs| > 0
    ensures m in xs && forall i :: 0 <= i < |xs| ==> m <= xs[i]
  {
    if |xs| == 1 then xs[0]
    else
      var m := MinOf(xs[..|xs| - 1]);
      assert forall i :: 0 <= i < |xs| - 1 ==> xs[..|xs| - 1][i] == xs[i];
      Min(m, xs[|xs| - 1])
  }

  function MaxOf(xs: seq<real>): (m: real)
    requires |xs| > 0
    ensures m in xs && forall i :: 0 <= i < |xs| ==> xs[i] <= m
  {
    if |xs| == 1 then xs[0]
    else
      var m := MaxOf(xs[..|xs| - 1]);
      assert forall i :: 0 <= i < |xs| - 1 ==> xs[..|xs| - 1][i] == xs[i];
      Max(m, xs[|xs| - 1])
  }

  function Times(w: seq<Row>): (ts: seq<real>)
    ensures |ts| == |w| && forall i :: 0 <= i < |w| ==> ts[i] == w[i].time
  {
    seq(|w|, i requires 0 <= i < |w| => w[i].time)
  }

  predicate AllNumeric(w: seq<Row>)
  {
    forall i :: 0 <= i < |w| ==> IsNumeric(w[i].value)
  }

  function Nums(w: seq<Row>): (vs: seq<real>)
    requires AllNumeric(w)
    ensures |vs| == |w| && forall i :: 0 <= i < |w| ==> Some(vs[i]) == NumVal(w[i].value)
  {
    seq(|w|, i requires 0 <= i < |w| => NumVal(w[i].value).value)
  }

  // ---------------------------------------------------------------- the stairstep line

  /** `numpy.repeat(xs, k)`: every element `k` times in a row. */
  function Repeat<T>(xs: seq<T>, k: nat): (r: seq<T>)
    ensures |r| == |xs| * k
  {
    if xs == [] then [] else seq(k, _ => xs[0]) + Repeat(xs[1..], k)
  }

  lemma {:induction false} RepeatAt<T>(xs: seq<T>, k: nat, i: nat, j: nat)
    requires i < |xs| && j < k
    ensures i * k + j < |xs| * k && Repeat(xs, k)[i * k + j] == xs[i]
  {
    var r := Repeat(xs[1..], k);
    assert Repeat(xs, k) == seq(k, _ => xs[0]) + r;
    if i > 0 {
      RepeatAt(xs[1..], k, i - 1, j);
      var p := (i - 1) * k + j;
      assert i * k + j == p + k;
    }
  }

  /** `numpy.insert(xs, range(2, len(xs), 2), nan)`: a gap before every second element after the first two. */
  function Gaps(xs: seq<real>): (r: seq<Option<real>>)
  {
    if |xs| <= 2 then seq(|xs|, i requires 0 <= i < |xs| => Some(xs[i]))
    else [Some(xs[0]), Some(xs[1]), None] + Gaps(xs[2..])
  }

  lemma {:induction false} GapsAt(xs: seq<real>, m: nat)
    requires m >= 1 && |xs| == 2 * m
    ensures |Gaps(xs)| == 3 * m - 1
    ensures forall i :: 0 <= i < m ==> Gaps(xs)[3 * i] == Some(xs[2 * i]) && Gaps(xs)[3 * i + 1] == Some(xs[2 * i + 1])
    ensures forall i :: 0 <= i < m - 1 ==> Gaps(xs)[3 * i + 2] == None
  {
    if m > 1 {
      var rest := xs[2..];
      GapsAt(rest, m - 1);
      var g := Gaps(xs);
      assert g == [Some(xs[0]), Some(xs[1]), None] + Gaps(rest);
      forall i | 0 < i < m ensures g[3 * i] == Some(xs[2 * i]) && g[3 * i + 1] == Some(xs[2 * i + 1]) {
        assert g[3 * i] == Gaps(rest)[3 * (i - 1)];
        assert g[3 * i + 1] == Gaps(rest)[3 * (i - 1) + 1];
        assert rest[2 * (i - 1)] == xs[2 * i] && rest[2 * (i - 1) + 1] == xs[2 * i + 1];
      }
      forall i | 0 < i < m - 1 ensures g[3 * i + 2] == None {
        assert g[3 * i + 2] == Gaps(rest)[3 * (i - 1) + 2];
      }
    }
  }

  /** `ts = times.repeat(3).iloc[2:-2]`. */
  function StairTimes(times: seq<real>): seq<real>
  {
    if |times| < 2 then [] else Repeat(times, 3)[2..3 * |times| - 2]
  }

  /** `vs = np.insert(values.iloc[:-1].repeat(2), …, nan)`: the last value is not drawn. */
  function StairValues(nums: seq<real>): seq<Option<real>>
  {
    if nums == [] then [] else Gaps(Repeat(nums[..|nums| - 1], 2))
  }

  /**
   * For `n >= 2` events both arrays have `3n - 4` entries and follow the
   * pattern `(t_i, v_i), (t_{i+1}, v_i), gap, (t_{i+1}, v_{i+1}), …`.
   */
  lemma Stairstep(times: seq<real>, nums: seq<real>)
    requires |times| == |nums| >= 2
    ensures var n, ts, vs := |times|, StairTimes(times), StairValues(nums);
      |ts| == 3 * n - 4 && |vs| == 3 * n - 4 &&
      (forall i :: 0 <= i < n - 1 ==>
         ts[3 * i] == times[i] && ts[3 * i + 1] == times[i + 1] &&
         vs[3 * i] == Some(nums[i]) && vs[3 * i + 1] == Some(nums[i])) &&
      (forall i :: 0 <= i < n - 2 ==> ts[3 * i + 2] == times[i + 1] && vs[3 * i + 2] == None)
  {
    var n := |times|;
    StairValuesLength(nums);
    forall i | 0 <= i < n - 1
      ensures StairTimes(times)[3 * i] == times[i] && StairTimes(times)[3 * i + 1] == times[i + 1]
      ensures i < n - 2 ==> StairTimes(times)[3 * i + 2] == times[i + 1]
      ensures StairValues(nums)[3 * i] == Some(nums[i]) && StairValues(nums)[3 * i + 1] == Some(nums[i])
      ensures i < n - 2 ==> StairValues(nums)[3 * i + 2] == None
    {
      StairTimesAt(times, i);
      StairValuesAt(nums, i);
    }
  }

  lemma StairTimesAt(times: seq<real>, i: nat)
    requires |times| >= 2 && i < |times| - 1
    ensures var ts := StairTimes(times);
      |ts| == 3 * |times| - 4 && ts[3 * i] == times[i] && ts[3 * i + 1] == times[i + 1] &&
      (i < |times| - 2 ==> ts[3 * i + 2] == times[i + 1])
  {
    var r := Repeat(times, 3);
    assert StairTimes(times) == r[2..3 * |times| - 2];
    RepeatAt(times, 3, i, 2);
    assert r[3 * i + 2] == times[i];
    RepeatAt(times, 3, i + 1, 0);
    assert r[3 * i + 3] == times[i + 1];
    if i < |times| - 2 {
      RepeatAt(times, 3, i + 1, 1);
      assert r[3 * i + 4] == times[i + 1];
    }
  }

  lemma StairValuesLength(nums: seq<real>)
    requires |nums| >= 2
    ensures |StairValues(nums)| == 3 * |nums| - 4
  {
    GapsAt(Repeat(nums[..|nums| - 1], 2), |nums| - 1);
  }

  lemma StairValuesAt(nums: seq<real>, i: nat)
    requires |nums| >= 2 && i < |nums| - 1
    ensures var vs := StairValues(nums);
      |vs| == 3 * |nums| - 4 && vs[3 * i] == Some(nums[i]) && vs[3 * i + 1] == Some(nums[i]) &&
      (i < |nums| - 2 ==> vs[3 * i + 2] == None)
  {
    var n := |nums|;
    var d := Repeat(nums[..n - 1], 2);
    assert StairValues(nums) == Gaps(d);
    GapsAt(d, n - 1);
    RepeatAt(nums[..n - 1], 2, i, 0);
    assert d[2 * i] == nums[i];
    RepeatAt(nums[..n - 1], 2, i, 1);
    assert d[2 * i + 1] == nums[i];
  }

  // ---------------------------------------------------------------- transition arrows

  /** The connection style `create_arrow` picks from the sign of the jump. */
  datatype Style = Falling | Rising | Level

  function StyleOf(dy: real): (st: Style)
    ensures st == Falling <==> dy < 0.0
    ensures st == Rising <==> dy > 0.0
    ensures st == Level <==> dy == 0.0
  {
    if dy < 0.0 then Falling else if dy > 0.0 then Rising else Level
  }

  /** A transition arrow: its style and its two end points. */
  datatype Arrow = Arrow(style: Style, x0: real, y0: real, x1: real, y1: real)

  /** `create_arrow(x, y, dx, dy)`: an arrow from `(x, y)` to `(x + dx, y + dy)`, styled by the sign of `dy`. */
  function CreateArrow(x: real, y: real, dx: real, dy: real): (a: Arrow)
    ensures a.x0 == x && a.y0 == y && a.x1 == x + dx && a.y1 == y + dy
    ensures a.style == Falling <==> dy < 0.0
    ensures a.style == Rising <==> dy > 0.0
    ensures a.style == Level <==> dy == 0.0
  {
    Arrow(StyleOf(dy), x, y, x + dx, y + dy)
  }

  /** The arrays carry a value at every point an arrow is drawn between. */
  predicate ArrowPoints(ts: seq<real>, vs: seq<Option<real>>)
  {
    |ts| == |vs| && forall i :: 0 <= i < |ts| / 3 ==> 3 * i + 3 < |vs| && vs[3 * i + 1].Some? && vs[3 * i + 3].Some?
  }

  /**
   * Arrow `i` after the loop: a reused arrow keeps its style and moves to
   * `(ts[3i+1], vs[3i+1])`–`(ts[3i+3], vs[3i+3])`; a new one is created at
   * `(ts[3i+1], vs[3i+1])` with a vertical jump of `vs[3i+3] - vs[3i+1]`.
   */
  function ArrowAt(prev: seq<Arrow>, ts: seq<real>, vs: seq<Option<real>>, i: nat): Arrow
    requires ArrowPoints(ts, vs) && i < |ts| / 3
  {
    var x, y, y1 := ts[3 * i + 1], vs[3 * i + 1].value, vs[3 * i + 3].value;
    if i < |prev| then Arrow(prev[i].style, x, y, ts[3 * i + 3], y1)
    else CreateArrow(x, y, 0.0, y1 - y)
  }

  /** The arrow list after the loop: one arrow per `len(ts) // 3`, surplus ones popped. */
  function ArrowsAfter(prev: seq<Arrow>, ts: seq<real>, vs: seq<Option<real>>): (r: seq<Arrow>)
    requires ArrowPoints(ts, vs)
    ensures |r| == |ts| / 3
  {
    seq(|ts| / 3, i requires 0 <= i < |ts| / 3 => ArrowAt(prev, ts, vs, i))
  }

  /**
   * With `n >= 2` events there are `n - 2` arrows; arrow `i` goes from
   * `(t_{i+1}, v_i)` up or down to `(t_{i+1}, v_{i+1})`, keeping the style
   * of the arrow it reuses or taking the sign of `v_{i+1} - v_i`.
   */
  lemma ArrowsShape(prev: seq<Arrow>, times: seq<real>, nums: seq<real>)
    requires |times| == |nums| >= 2
    ensures ArrowPoints(StairTimes(times), StairValues(nums))
    ensures var a := ArrowsAfter(prev, StairTimes(times), StairValues(nums));
      |a| == |times| - 2 &&
      forall i :: 0 <= i < |a| ==>
        a[i].x0 == times[i + 1] && a[i].y0 == nums[i] && a[i].x1 == times[i + 1] && a[i].y1 == nums[i + 1] &&
        a[i].style == (if i < |prev| then prev[i].style else StyleOf(nums[i + 1] - nums[i]))
  {
    var n := |times|;
    var ts, vs := StairTimes(times), StairValues(nums);
    StairTimesAt(times, 0);
    StairValuesLength(nums);
    assert |ts| == |vs| && |ts| / 3 == n - 2;
    forall i | 0 <= i < |ts| / 3
      ensures 3 * i + 3 < |vs| && vs[3 * i + 1].Some? && vs[3 * i + 3].Some?
      ensures vs[3 * i + 1] == Some(nums[i]) && vs[3 * i + 3] == Some(nums[i + 1])
      ensures ts[3 * i + 1] == times[i + 1] && ts[3 * i + 3] == times[i + 1]
    {
      StairTimesAt(times, i);
      StairTimesAt(times, i + 1);
      StairValuesAt(nums, i);
      StairValuesAt(nums, i + 1);
      assert 3 * (i + 1) == 3 * i + 3;
    }
    assert ArrowPoints(ts, vs);
    var a := ArrowsAfter(prev, ts, vs);
    forall i | 0 <= i < |a|
      ensures a[i].x0 == times[i + 1] && a[i].y0 == nums[i] && a[i].x1 == times[i + 1] && a[i].y1 == nums[i + 1]
      ensures a[i].style == (if i < |prev| then prev[i].style else StyleOf(nums[i + 1] - nums[i]))
    {
      assert a[i] == ArrowAt(prev, ts, vs, i);
    }
  }

  // ---------------------------------------------------------------- ticks

  /** x-ticks: every window time (repeats included) below 20 events, else the two extremes. */
  function XTicks(times: seq<real>): (r: seq<real>)
    ensures |times| < 20 ==> r == times
    ensures |times| >= 20 ==> r == [MinOf(times), MaxOf(times)]
  {
    if |times| < 20 then times else [MinOf(times), MaxOf(times)]
  }

  predicate SortedValues(vs: seq<Value>)
  {
    forall i, j :: 0 <= i < j < |vs| ==> Less(vs[i], vs[j])
  }

  predicate CanonDistinct(vs: seq<Value>)
  {
    forall i, j :: 0 <= i < j < |vs| ==> Canon(vs[i]) != Canon(vs[j])
  }

  /** Insertion into a sorted list of values. */
  function InsertValue(s: seq<Value>, x: Value): (r: seq<Value>)
    ensures multiset(r) == multiset(s) + multiset{x}
  {
    if s == [] then [x]
    else if Less(x, s[0]) then [x] + s
    else
      assert s == [s[0]] + s[1..];
      [s[0]] + InsertValue(s[1..], x)
  }

  /** `np.sort(…, kind='mergesort')` of values that pairwise differ. */
  function SortValues(vs: seq<Value>): (r: seq<Value>)
    ensures multiset(r) == multiset(vs)
  {
    if vs == [] then []
    else
      assert vs == vs[..|vs| - 1] + [vs[|vs| - 1]];
      InsertValue(SortValues(vs[..|vs| - 1]), vs[|vs| - 1])
  }

  /** Values of one kind: all strings, or all numbers. */
  predicate SameKind(s: seq<Value>, x: Value)
  {
    forall i :: 0 <= i < |s| ==> s[i].StrV? == x.StrV?
  }

  lemma ConsSorted(a: Value, r: seq<Value>)
    requires SortedValues(r) && forall j :: 0 <= j < |r| ==> Less(a, r[j])
    ensures SortedValues([a] + r)
  {
    var q := [a] + r;
    forall i, j | 0 <= i < j < |q| ensures Less(q[i], q[j]) {
      assert q[j] == r[j - 1];
      if i > 0 { assert q[i] == r[i - 1]; }
    }
  }

  lemma {:induction false} InsertAbove(a: Value, t: seq<Value>, x: Value)
    requires Less(a, x) && forall j :: 0 <= j < |t| ==> Less(a, t[j])
    ensures forall j :: 0 <= j < |InsertValue(t, x)| ==> Less(a, InsertValue(t, x)[j])
  {
    if t != [] && !Less(x, t[0]) {
      InsertAbove(a, t[1..], x);
    }
  }

  lemma {:induction false} InsertValueSorted(s: seq<Value>, x: Value)
    requires SortedValues(s) && SameKind(s, x)
    requires forall i :: 0 <= i < |s| ==> Canon(s[i]) != Canon(x)
    ensures SortedValues(InsertValue(s, x))
  {
    if s != [] {
      LessTotal(x, s[0]);
      if !Less(x, s[0]) {
        var t := s[1..];
        InsertValueSorted(t, x);
        var r := InsertValue(t, x);
        assert forall j :: 0 <= j < |t| ==> t[j] == s[j + 1];
        InsertAbove(s[0], t, x);
        ConsSorted(s[0], r);
      } else {
        forall j | 0 <= j < |s| ensures Less(x, s[j]) {
          if j > 0 { LessTransitive(x, s[0], s[j]); }
        }
        ConsSorted(x, s);
      }
    }
  }

  /** Sorting values that pairwise differ gives them in strictly increasing order. */
  lemma {:induction false} SortValuesSorted(vs: seq<Value>)
    requires Comparable(vs) && CanonDistinct(vs)
    ensures SortedValues(SortValues(vs))
  {
    if vs != [] {
      var n := |vs| - 1;
      var p, x := vs[..n], vs[n];
      assert forall i :: 0 <= i < n ==> p[i] == vs[i];
      SortValuesSorted(p);
      var s := SortValues(p);
      forall i | 0 <= i < |s| ensures Canon(s[i]) != Canon(x) && s[i].StrV? == x.StrV? {
        assert s[i] in multiset(p);
        var k :| 0 <= k < n && p[k] == s[i];
      }
      InsertValueSorted(s, x);
    }
  }

  /** Tick choice for the y-axis. */
  datatype YTicks =
    | ValueTicks(values: seq<Value>)                 // the values themselves, where they lie
    | CategoryTicks(count: nat, labels: seq<Value>)  // positions 0 … count-1, labelled by the values
    | RangeTicks(lo: real, hi: real)                 // just the two extremes of the drawn range

  /** `state_sets`: the window's distinct values (by `==`), sorted. */
  function StateSets(values: seq<Value>): seq<Value>
  {
    SortValues(Unique(values, Canon))
  }

  /**
   * Fewer than 20 distinct values are ticked one by one — where they lie if
   * all read as floats, else at positions labelled by them; otherwise only
   * the extremes `lo`, `hi` of the drawn range are.
   */
  function YTicksOf(values: seq<Value>, lo: real, hi: real): YTicks
  {
    var sets := StateSets(values);
    if |sets| < 20 then
      if forall i :: 0 <= i < |sets| ==> IsFloat(sets[i]) then ValueTicks(sets) else CategoryTicks(|sets|, sets)
    else RangeTicks(lo, hi)
  }

  /** The state sets hold one value per class of equal values, sorted, nothing else. */
  lemma StateSetsExact(values: seq<Value>)
    requires Comparable(values)
    ensures var sets := StateSets(values);
      SortedValues(sets) && CanonDistinct(sets) &&
      (forall i :: 0 <= i < |sets| ==> sets[i] in values) &&
      (forall i :: 0 <= i < |values| ==> Occurs(sets, Canon, Canon(values[i])))
  {
    StateSetsMembers(values);
    forall i | 0 <= i < |values| ensures Occurs(StateSets(values), Canon, Canon(values[i])) {
      StateSetsCover(values, i);
    }
  }

  lemma StateSetsMembers(values: seq<Value>)
    requires Comparable(values)
    ensures var sets := StateSets(values);
      SortedValues(sets) && CanonDistinct(sets) && forall i :: 0 <= i < |sets| ==> sets[i] in values
  {
    var u := Unique(values, Canon);
    assert Comparable(u) by {
      forall i | 0 <= i < |u| ensures u[i] in values { }
    }
    SortValuesSorted(u);
    var sets := StateSets(values);
    forall i | 0 <= i < |sets| ensures sets[i] in values {
      assert sets[i] in multiset(u);
    }
    forall i, j | 0 <= i < j < |sets| ensures Canon(sets[i]) != Canon(sets[j]) {
      if Canon(sets[i]) == Canon(sets[j]) { LessIrreflexive(sets[i], sets[j]); }
    }
  }

  lemma StateSetsCover(values: seq<Value>, i: nat)
    requires i < |values|
    ensures Occurs(StateSets(values), Canon, Canon(values[i]))
  {
    var u := Unique(values, Canon);
    var sets := StateSets(values);
    UniqueCovers(values, Canon, i);
    var k :| 0 <= k < |u| && Canon(u[k]) == Canon(values[i]);
    assert u[k] in multiset(sets);
    var m :| 0 <= m < |sets| && sets[m] == u[k];
  }

  /** Numbers always read as floats, so a numeric window never gets categorical ticks. */
  lemma NumericTicks(values: seq<Value>, lo: real, hi: real)
    requires forall i :: 0 <= i < |values| ==> IsNumeric(values[i])
    ensures !YTicksOf(values, lo, hi).CategoryTicks?
    ensures |StateSets(values)| < 20 ==> YTicksOf(values, lo, hi) == ValueTicks(StateSets(values))
  {
    StateSetsExact(values);
    var sets := StateSets(values);
    forall i | 0 <= i < |sets| ensures IsFloat(sets[i]) {
      assert sets[i] in values;
    }
  }

  // ---------------------------------------------------------------- the whole view

  datatype Dot = Dot(t: real, v: real)

  /** Why the plot is not drawn: `np.nanmin` of an empty array, or values that are not numbers. */
  datatype PlotError = TooFewEvents | NonNumeric

  /** What is handed to the axes for one series. */
  datatype Plot = Plot(
    lower: real, upper: real,        // x-limits after clamping to the window's times
    ts: seq<real>, vs: seq<Option<real>>,
    inDots: seq<Dot>, exDots: seq<Dot>,
    xticks: seq<real>, yticks: YTicks,
    ylo: real, yhi: real)            // y-limits, also the extent of the cursor line

  function ValueColumn(w: seq<Row>): (vs: seq<Value>)
    ensures |vs| == |w| && forall i :: 0 <= i < |w| ==> vs[i] == w[i].value
  {
    seq(|w|, i requires 0 <= i < |w| => w[i].value)
  }

  /** `event_list[event_list["kind"] == k]`. */
  function OfKind(w: seq<Row>, k: string): (r: seq<Row>)
    ensures AllNumeric(w) ==> AllNumeric(r)
  {
    var r := Where(w, (x: Row) => x.kind == k);
    assert AllNumeric(w) ==> AllNumeric(r) by {
      forall i | 0 <= i < |r| ensures AllNumeric(w) ==> IsNumeric(r[i].value) {
        assert r[i] in r;
      }
    }
    r
  }

  /** The (time, value) points of some events. */
  function Dots(w: seq<Row>): (ds: seq<Dot>)
    requires AllNumeric(w)
    ensures |ds| == |w|
  {
    seq(|w|, i requires 0 <= i < |w| => Dot(w[i].time, NumVal(w[i].value).value))
  }

  /** The plot of a window of at least two events, all numbers, in the nominal range `[lower, upper]`. */
  function Draw(w: seq<Row>, lower: real, upper: real): Plot
    requires |w| >= 2 && AllNumeric(w)
  {
    var n, times, nums := |w|, Times(w), Nums(w);
    var lo, hi := MinOf(nums[..n - 1]), MaxOf(nums[..n - 1]);
    Plot(Max(MinOf(times), lower), Min(MaxOf(times), upper),
         StairTimes(times), StairValues(nums),
         Dots(OfKind(w, "IN")), Dots(OfKind(w, "EX")),
         XTicks(times), YTicksOf(ValueColumn(w), lo, hi),
         lo - 0.5, hi + 0.5)
  }

  /** The view of a series at cursor `mid` with window size `ws`. */
  function PlotOf(s: seq<Row>, mid: real, ws: int): Result<Plot, PlotError>
  {
    var w := WindowEvents(s, mid, ws);
    if |w| < 2 then Err(TooFewEvents)
    else if !AllNumeric(w) then Err(NonNumeric)
    else Ok(Draw(w, Lower(mid, ws), Upper(mid, ws)))
  }

  /**
   * The plot fails exactly on a window of fewer than two events, or with a
   * value that is not a number; otherwise it draws that window.
   */
  lemma PlotErrors(s: seq<Row>, mid: real, ws: int)
    ensures var w := WindowEvents(s, mid, ws);
      (PlotOf(s, mid, ws) == Err(TooFewEvents) <==> |w| < 2) &&
      (PlotOf(s, mid, ws) == Err(NonNumeric) <==> |w| >= 2 && exists i :: 0 <= i < |w| && w[i].value.StrV?) &&
      (PlotOf(s, mid, ws).Ok? <==> |w| >= 2 && forall i :: 0 <= i < |w| ==> IsNumeric(w[i].value))
  {
  }

  /** The arrays of a drawn plot carry a value at both ends of every arrow. */
  lemma PlotArrowPoints(s: seq<Row>, mid: real, ws: int)
    requires PlotOf(s, mid, ws).Ok?
    ensures ArrowPoints(PlotOf(s, mid, ws).value.ts, PlotOf(s, mid, ws).value.vs)
  {
    var w := WindowEvents(s, mid, ws);
    var p := Draw(w, Lower(mid, ws), Upper(mid, ws));
    assert p.ts == StairTimes(Times(w)) && p.vs == StairValues(Nums(w));
    ArrowsShape([], Times(w), Nums(w));
  }

  /** The line: each value held until the next event, then a gap; the last value starts no step. */
  lemma DrawLine(w: seq<Row>, lower: real, upper: real)
    requires |w| >= 2 && AllNumeric(w)
    ensures var n, p := |w|, Draw(w, lower, upper);
      |p.ts| == 3 * n - 4 && |p.vs| == 3 * n - 4 &&
      (forall i :: 0 <= i < n - 1 ==>
         p.ts[3 * i] == w[i].time && p.ts[3 * i + 1] == w[i + 1].time &&
         p.vs[3 * i] == NumVal(w[i].value) && p.vs[3 * i + 1] == NumVal(w[i].value)) &&
      (forall i :: 0 <= i < n - 2 ==> p.ts[3 * i + 2] == w[i + 1].time && p.vs[3 * i + 2] == None)
  {
    var times, nums, p := Times(w), Nums(w), Draw(w, lower, upper);
    assert p.ts == StairTimes(times) && p.vs == StairValues(nums);
    Stairstep(times, nums);
  }

  /** The y-range is the values other than the last, widened by half a unit on both sides. */
  lemma DrawYLimits(w: seq<Row>, lower: real, upper: real)
    requires |w| >= 2 && AllNumeric(w)
    ensures var n, p := |w|, Draw(w, lower, upper);
      (forall i :: 0 <= i < n - 1 ==> p.ylo + 0.5 <= NumVal(w[i].value).value <= p.yhi - 0.5) &&
      (exists i :: 0 <= i < n - 1 && NumVal(w[i].value).value == p.ylo + 0.5) &&
      (exists i :: 0 <= i < n - 1 && NumVal(w[i].value).value == p.yhi - 0.5)
  {
    var n, nums := |w|, Nums(w);
    var below := nums[..n - 1];
    assert Draw(w, lower, upper).ylo == MinOf(below) - 0.5 && Draw(w, lower, upper).yhi == MaxOf(below) + 0.5;
    ValueBounds(w, below);
  }

  /** The least and greatest of the values before the last event bound them all and occur among them. */
  lemma ValueBounds(w: seq<Row>, below: seq<real>)
    requires |w| >= 2 && |below| == |w| - 1
    requires forall i :: 0 <= i < |below| ==> NumVal(w[i].value) == Some(below[i])
    ensures var lo, hi := MinOf(below), MaxOf(below);
      (forall i :: 0 <= i < |w| - 1 ==> lo <= NumVal(w[i].value).value <= hi) &&
      (exists i :: 0 <= i < |w| - 1 && NumVal(w[i].value).value == lo) &&
      (exists i :: 0 <= i < |w| - 1 && NumVal(w[i].value).value == hi)
  {
    var lo, hi := MinOf(below), MaxOf(below);
    var a :| 0 <= a < |below| && below[a] == lo;
    var b :| 0 <= b < |below| && below[b] == hi;
    assert NumVal(w[a].value).value == lo;
    assert NumVal(w[b].value).value == hi;
  }

  /**
   * The x-range is the nominal range narrowed to the window's times: it
   * starts at `lower` or at the first time, whichever is later, and ends
   * at `upper` or at the last time, whichever is earlier.
   */
  lemma DrawXLimits(w: seq<Row>, lower: real, upper: real)
    requires |w| >= 2 && AllNumeric(w)
    ensures var p := Draw(w, lower, upper);
      ((exists i :: 0 <= i < |w| && w[i].time <= lower) ==> p.lower == lower) &&
      ((forall i :: 0 <= i < |w| ==> w[i].time > lower) ==>
         (exists i :: 0 <= i < |w| && w[i].time == p.lower) && forall i :: 0 <= i < |w| ==> p.lower <= w[i].time)
    ensures var p := Draw(w, lower, upper);
      ((exists i :: 0 <= i < |w| && w[i].time >= upper) ==> p.upper == upper) &&
      ((forall i :: 0 <= i < |w| ==> w[i].time < upper) ==>
         (exists i :: 0 <= i < |w| && w[i].time == p.upper) && forall i :: 0 <= i < |w| ==> w[i].time <= p.upper)
  {
    var times := Times(w);
    assert forall i :: 0 <= i < |w| ==> times[i] == w[i].time;
  }

  /** The dots are exactly the IN events and the EX events, at their times and values. */
  lemma DrawDots(w: seq<Row>, lower: real, upper: real)
    requires |w| >= 2 && AllNumeric(w)
    ensures var p := Draw(w, lower, upper);
      (forall d :: d in p.inDots <==> exists x :: x in w && x.kind == "IN" && d == Dot(x.time, NumVal(x.value).value)) &&
      (forall d :: d in p.exDots <==> exists x :: x in w && x.kind == "EX" && d == Dot(x.time, NumVal(x.value).value))
  {
    DotsOfKind(w, "IN");
    DotsOfKind(w, "EX");
  }

  lemma DotsOfKind(w: seq<Row>, k: string)
    requires AllNumeric(w)
    ensures forall d :: d in Dots(OfKind(w, k)) <==> exists x :: x in w && x.kind == k && d == Dot(x.time, NumVal(x.value).value)
  {
    var r := OfKind(w, k);
    var ds := Dots(r);
    forall d ensures d in ds <==> exists x :: x in w && x.kind == k && d == Dot(x.time, NumVal(x.value).value) {
      if d in ds {
        var j :| 0 <= j < |ds| && ds[j] == d;
        assert r[j] in r;
      }
      if x :| x in w && x.kind == k && d == Dot(x.time, NumVal(x.value).value) {
        assert x in r;
        var j :| 0 <= j < |r| && r[j] == x;
        assert ds[j] == d;
      }
    }
  }

  /** x-ticks: every time below 20 events, else the first and the last. */
  lemma DrawXTicks(w: seq<Row>, lower: real, upper: real)
    requires |w| >= 2 && AllNumeric(w)
    ensures var p := Draw(w, lower, upper);
      (|w| < 20 ==> p.xticks == Times(w)) &&
      (|w| >= 20 ==>
         (|p.xticks| == 2 && (forall i :: 0 <= i < |w| ==> p.xticks[0] <= w[i].time <= p.xticks[1]) &&
          (exists i :: 0 <= i < |w| && w[i].time == p.xticks[0]) && (exists i :: 0 <= i < |w| && w[i].time == p.xticks[1])))
  {
    var times := Times(w);
    assert Draw(w, lower, upper).xticks == XTicks(times);
  }

  /**
   * y-ticks: the values themselves below 20 distinct values, else the two
   * extremes of the y-range; a drawn plot never gets categorical ticks.
   */
  lemma DrawYTicks(w: seq<Row>, lower: real, upper: real)
    requires |w| >= 2 && AllNumeric(w)
    ensures var p, sets := Draw(w, lower, upper), StateSets(ValueColumn(w));
      !p.yticks.CategoryTicks? &&
      (|sets| < 20 ==> p.yticks == ValueTicks(sets)) &&
      (|sets| >= 20 ==> p.yticks == RangeTicks(p.ylo + 0.5, p.yhi - 0.5))
  {
    var n, nums, p := |w|, Nums(w), Draw(w, lower, upper);
    var lo, hi := MinOf(nums[..n - 1]), MaxOf(nums[..n - 1]);
    assert p.yticks == YTicksOf(ValueColumn(w), lo, hi) && p.ylo == lo - 0.5 && p.yhi == hi + 0.5;
    NumericTicks(ValueColumn(w), lo, hi);
  }

  /** When the series has an event before the nominal window, the displayed range starts at `lower`. */
  lemma PlotRangeStart(s: seq<Row>, mid: real, ws: int)
    requires SortedByTime(s) && ws >= 0 && PlotOf(s, mid, ws).Ok?
    requires exists x :: x in s && x.time < Lower(mid, ws)
    ensures PlotOf(s, mid, ws).value.lower == Lower(mid, ws)
  {
    var w := WindowEvents(s, mid, ws);
    assert PlotOf(s, mid, ws).value.lower == Max(MinOf(Times(w)), Lower(mid, ws));
    var k := WindowReachesBelow(s, mid, ws);
    assert Times(w)[k] < Lower(mid, ws);
  }

  /** When the series has an event after the nominal window, the displayed range ends at `upper`. */
  lemma PlotRangeEnd(s: seq<Row>, mid: real, ws: int)
    requires SortedByTime(s) && ws >= 0 && PlotOf(s, mid, ws).Ok?
    requires exists x :: x in s && x.time > Upper(mid, ws)
    ensures PlotOf(s, mid, ws).value.upper == Upper(mid, ws)
  {
    var w := WindowEvents(s, mid, ws);
    assert PlotOf(s, mid, ws).value.upper == Min(MaxOf(Times(w)), Upper(mid, ws));
    var k := WindowReachesAbove(s, mid, ws);
    assert Times(w)[k] > Upper(mid, ws);
  }

  /** The window keeps the last event before `lower`, when there is one. */
  lemma WindowReachesBelow(s: seq<Row>, mid: real, ws: int) returns (k: nat)
    requires SortedByTime(s) && ws >= 0
    requires exists x :: x in s && x.time < Lower(mid, ws)
    ensures k < |WindowEvents(s, mid, ws)| && WindowEvents(s, mid, ws)[k].time < Lower(mid, ws)
  {
    var lower, w := Lower(mid, ws), WindowEvents(s, mid, ws);
    PrevTimeGreatestBelow(s, lower);
    WindowExact(s, mid, ws);
    var x :| x in s && x.time == PrevTime(s, lower).value;
    assert x in w;
    k :| 0 <= k < |w| && w[k] == x;
  }

  /** The window keeps the first event after `upper`, when there is one. */
  lemma WindowReachesAbove(s: seq<Row>, mid: real, ws: int) returns (k: nat)
    requires SortedByTime(s) && ws >= 0
    requires exists x :: x in s && x.time > Upper(mid, ws)
    ensures k < |WindowEvents(s, mid, ws)| && WindowEvents(s, mid, ws)[k].time > Upper(mid, ws)
  {
    var upper, w := Upper(mid, ws), WindowEvents(s, mid, ws);
    NextTimeLeastAbove(s, upper);
    WindowExact(s, mid, ws);
    var x :| x in s && x.time == NextTime(s, upper).value;
    assert x in w;
    k :| 0 <= k < |w| && w[k] == x;
  }
}
