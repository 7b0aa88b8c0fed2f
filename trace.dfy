/**
 * The trace table: `parse_trace_file` expands every `<event>` into one row
 * per flattened state attribute and sorts the rows by time; the plotter
 * then queries it by (model, path).
 */
module Trace {
  import opened Common
  import opened PyDict
  import opened Values
  import opened Attributes

  /** An `<event>` element: the texts of `<model>`, `<kind>` and `<time>`, and the `<state>` attributes. */
  datatype EventRecord = EventRecord(model: string, kind: string, time: string, state: seq<Attr>)

  /** One row `(time, model, kind, path, value)` of the table. */
  datatype Row = Row(time: real, model: string, kind: string, path: string, value: Value)

  /** Why loading stops: an attribute that does not convert, or a time that is not a float. */
  datatype LoadError = BadAttribute(e: ParseError) | BadTime(text: string)

  /** The rows one event contributes, one per flattened attribute, in the flat dict's order. */
  function EventRows(time: real, model: string, kind: string, attrs: Dict<Value>): (rows: seq<Row>)
    ensures |rows| == |attrs|
  {
    seq(|attrs|, j requires 0 <= j < |attrs| => Row(time, model, kind, attrs[j].key, attrs[j].val))
  }

  /** Reading one event: its attributes are parsed first, then its time. */
  function Expand(e: EventRecord): Result<seq<Row>, LoadError>
  {
    var parsed := ParseAttributes(e.state);
    if parsed.Err? then Err(BadAttribute(parsed.error))
    else
      var time := ParseFloat(e.time);
      if time.None? then Err(BadTime(e.time))
      else Ok(EventRows(time.value, e.model, e.kind, Flatten(parsed.value)))
  }

  /** The per-event results, in document order. */
  function Expanded(events: seq<EventRecord>): (rs: seq<Result<seq<Row>, LoadError>>)
    ensures |rs| == |events| && forall i :: 0 <= i < |events| ==> rs[i] == Expand(events[i])
  {
    seq(|events|, i requires 0 <= i < |events| => Expand(events[i]))
  }

  /** Concatenation of results in order; the first failure aborts. */
  function Gather<T, E>(rs: seq<Result<seq<T>, E>>): Result<seq<T>, E>
  {
    if rs == [] then Ok([])
    else
      var acc := Gather(rs[..|rs| - 1]);
      var last := rs[|rs| - 1];
      if acc.Err? then acc else if last.Err? then last else Ok(acc.value + last.value)
  }

  /** The table before sorting: every event's rows in document order. */
  function Unsorted(events: seq<EventRecord>): Result<seq<Row>, LoadError>
  {
    Gather(Expanded(events))
  }

  predicate SortedByTime(rows: seq<Row>)
  {
    forall i, j :: 0 <= i < j < |rows| ==> rows[i].time <= rows[j].time
  }

  /**
   * `parse_trace_file`: concatenate the rows of every event, then
   * `sort_values(by="time")`. The sort is only promised to order by time.
   */
  method LoadTrace(events: seq<EventRecord>) returns (r: Result<seq<Row>, LoadError>)
    ensures r.Err? ==> r == Unsorted(events)
    ensures r.Ok? <==> Unsorted(events).Ok?
    ensures r.Ok? ==> SortedByTime(r.value) && multiset(r.value) == multiset(Unsorted(events).value)
  {
    var table: seq<Row> := [];
    var i := 0;
    ghost var rs := Expanded(events);
    while i < |events|
      invariant 0 <= i <= |events|
      invariant Gather(rs[..i]) == Ok(table)
    {
      var item := events[i];
      GatherSnoc(rs, i);
      assert rs[i] == Expand(item);
      var parsed := ParseAttributes(item.state);
      if parsed.Err? {
        GatherErrPrefix(rs, i + 1);
        return Err(BadAttribute(parsed.error));
      }
      var attrs := Flatten(parsed.value);
      var time := ParseFloat(item.time);
      if time.None? {
        GatherErrPrefix(rs, i + 1);
        return Err(BadTime(item.time));
      }
      var rows: seq<Row> := [];
      var j := 0;
      while j < |attrs|
        invariant 0 <= j <= |attrs|
        invariant rows == EventRows(time.value, item.model, item.kind, attrs[..j])
      {
        rows := rows + [Row(time.value, item.model, item.kind, attrs[j].key, attrs[j].val)];
        j := j + 1;
      }
      assert attrs[..j] == attrs;
      table := table + rows;
      i := i + 1;
    }
    assert rs[..i] == rs;
    var sorted := SortByTime(table);
    r := Ok(sorted);
  }

  /** One more result: `Gather` of a prefix extended by one element. */
  lemma GatherSnoc<T, E>(rs: seq<Result<seq<T>, E>>, i: nat)
    requires i < |rs|
    ensures var acc := Gather(rs[..i]);
      Gather(rs[..i + 1]) == if acc.Err? then acc else if rs[i].Err? then rs[i] else Ok(acc.value + rs[i].value)
  {
    assert rs[..i + 1][..i] == rs[..i];
  }

  lemma {:induction false} GatherErrPrefix<T, E>(rs: seq<Result<seq<T>, E>>, k: nat)
    requires k <= |rs| && Gather(rs[..k]).Err?
    ensures Gather(rs) == Gather(rs[..k])
    decreases |rs|
  {
    if k < |rs| {
      var n := |rs| - 1;
      assert rs[..n][..k] == rs[..k];
      GatherErrPrefix(rs[..n], k);
    } else {
      assert rs[..k] == rs;
    }
  }

  /** Some sort by time: the result is ordered by time and a permutation of the input. */
  method SortByTime(rows: seq<Row>) returns (s: seq<Row>)
    ensures SortedByTime(s) && multiset(s) == multiset(rows)
  {
    s := [];
    var i := 0;
    while i < |rows|
      invariant 0 <= i <= |rows|
      invariant SortedByTime(s) && multiset(s) == multiset(rows[..i])
    {
      s := InsertByTime(s, rows[i]);
      assert rows[..i + 1] == rows[..i] + [rows[i]];
      i := i + 1;
    }
    assert rows[..i] == rows;
  }

  /** Places `x` after every row no later than it. */
  method InsertByTime(s: seq<Row>, x: Row) returns (t: seq<Row>)
    requires SortedByTime(s)
    ensures SortedByTime(t) && multiset(t) == multiset(s) + multiset{x}
  {
    var k := 0;
    while k < |s| && s[k].time <= x.time
      invariant 0 <= k <= |s|
      invariant forall m :: 0 <= m < k ==> s[m].time <= x.time
    {
      k := k + 1;
    }
    assert forall m :: k <= m < |s| ==> x.time < s[m].time by {
      if k < |s| {
        forall m | k <= m < |s| ensures x.time < s[m].time { assert s[k].time <= s[m].time; }
      }
    }
    t := s[..k] + [x] + s[k..];
    InsertAtSorted(s, k, x);
    assert s == s[..k] + s[k..];
  }

  /** A row placed after the rows no later than it and before the later ones keeps the order. */
  lemma InsertAtSorted(s: seq<Row>, k: nat, x: Row)
    requires SortedByTime(s) && k <= |s|
    requires forall m :: 0 <= m < k ==> s[m].time <= x.time
    requires forall m :: k <= m < |s| ==> x.time < s[m].time
    ensures SortedByTime(s[..k] + [x] + s[k..])
  {
    var t := s[..k] + [x] + s[k..];
    assert forall m :: 0 <= m < k ==> t[m] == s[m];
    assert t[k] == x;
    assert forall m :: k < m < |t| ==> t[m] == s[m - 1];
  }

  // ---------------------------------------------------------------- what the loader produces

  /** The flat attribute dict of an event that reads successfully. */
  function EventAttrs(e: EventRecord): Dict<Value>
    requires Expand(e).Ok?
  {
    Flatten(ParseAttributes(e.state).value)
  }

  /**
   * An event that reads successfully gives one row per flattened
   * attribute, each with the event's time, model and kind, no two rows
   * with the same path, and nothing else.
   */
  lemma ExpandRows(e: EventRecord)
    requires Expand(e).Ok?
    ensures var rows := Expand(e).value;
      |rows| == |EventAttrs(e)| &&
      (forall j :: 0 <= j < |rows| ==>
         rows[j].time == ParseFloat(e.time).value && rows[j].model == e.model && rows[j].kind == e.kind &&
         Item(rows[j].path, rows[j].value) in EventAttrs(e)) &&
      (forall x :: x in EventAttrs(e) ==> exists j :: 0 <= j < |rows| && rows[j].path == x.key && rows[j].value == x.val) &&
      (forall j, j' :: 0 <= j < j' < |rows| ==> rows[j].path != rows[j'].path)
  {
    var rows := Expand(e).value;
    var attrs := EventAttrs(e);
    FlattenDistinct(ParseAttributes(e.state).value);
    forall j | 0 <= j < |rows| ensures Item(rows[j].path, rows[j].value) in attrs {
      assert attrs[j] == Item(rows[j].path, rows[j].value);
    }
    forall x | x in attrs ensures exists j :: 0 <= j < |rows| && rows[j].path == x.key && rows[j].value == x.val {
      var j :| 0 <= j < |attrs| && attrs[j] == x;
      assert rows[j].path == x.key;
    }
  }

  /** Gathering succeeds exactly when every result is a success. */
  lemma {:induction false} GatherOk<T, E>(rs: seq<Result<seq<T>, E>>)
    ensures Gather(rs).Ok? <==> forall i :: 0 <= i < |rs| ==> rs[i].Ok?
  {
    if rs != [] {
      var n := |rs| - 1;
      GatherOk(rs[..n]);
      assert forall i :: 0 <= i < n ==> rs[..n][i] == rs[i];
    }
  }

  /** A failed gather is the failure of its first failing part. */
  lemma {:induction false} GatherErrFirst<T, E>(rs: seq<Result<seq<T>, E>>)
    requires Gather(rs).Err?
    ensures exists i :: 0 <= i < |rs| && rs[i] == Gather(rs) && forall j :: 0 <= j < i ==> rs[j].Ok?
  {
    var n := |rs| - 1;
    var p := rs[..n];
    assert forall j :: 0 <= j < n ==> p[j] == rs[j];
    if Gather(p).Err? {
      GatherErrFirst(p);
      var i :| 0 <= i < |p| && p[i] == Gather(p) && forall j :: 0 <= j < i ==> p[j].Ok?;
      assert rs[i] == Gather(rs);
    } else {
      GatherOk(p);
      assert rs[n] == Gather(rs);
    }
  }

  /**
   * A failed load reports the error of the first event that fails to
   * convert; every event before it converts.
   */
  lemma UnsortedErrFirst(events: seq<EventRecord>)
    requires Unsorted(events).Err?
    ensures exists i :: (0 <= i < |events| && Expand(events[i]) == Err(Unsorted(events).error) &&
                         forall j :: 0 <= j < i ==> Expand(events[j]).Ok?)
  {
    var rs := Expanded(events);
    GatherErrFirst(rs);
    var i :| 0 <= i < |rs| && rs[i] == Gather(rs) && forall j :: 0 <= j < i ==> rs[j].Ok?;
    assert Expand(events[i]) == Err(Unsorted(events).error);
  }

  /** The total length of a sequence of successes. */
  function TotalLen<T, E>(rs: seq<Result<seq<T>, E>>): nat
    requires forall i :: 0 <= i < |rs| ==> rs[i].Ok?
  {
    if rs == [] then 0 else TotalLen(rs[..|rs| - 1]) + |rs[|rs| - 1].value|
  }

  /** A gathered success is as long as its parts together and holds exactly their elements. */
  lemma {:induction false} GatherRows<T, E>(rs: seq<Result<seq<T>, E>>)
    requires Gather(rs).Ok?
    ensures forall i :: 0 <= i < |rs| ==> rs[i].Ok?
    ensures |Gather(rs).value| == TotalLen(rs)
    ensures forall x :: x in Gather(rs).value <==> exists i :: 0 <= i < |rs| && x in rs[i].value
  {
    GatherOk(rs);
    if rs != [] {
      var n := |rs| - 1;
      var p := rs[..n];
      GatherRows(p);
      assert forall i :: 0 <= i < n ==> p[i] == rs[i];
      var all := Gather(rs).value;
      assert all == Gather(p).value + rs[n].value;
      forall x ensures x in all <==> exists i :: 0 <= i < |rs| && x in rs[i].value {
        if x in all && x !in Gather(p).value {
          assert x in rs[n].value;
        }
        if exists i :: 0 <= i < |rs| && x in rs[i].value {
          var i :| 0 <= i < |rs| && x in rs[i].value;
          if i < n { assert p[i] == rs[i]; }
        }
      }
    }
  }

  /** Loading succeeds exactly when every event reads successfully. */
  lemma UnsortedOk(events: seq<EventRecord>)
    ensures Unsorted(events).Ok? <==> forall i :: 0 <= i < |events| ==> Expand(events[i]).Ok?
  {
    GatherOk(Expanded(events));
  }

  /**
   * A loaded table has one row per flattened attribute of each event
   * (`TotalLen` sums the events' row counts, each of which `ExpandRows`
   * ties to its attributes), and every row is a row of one of the events.
   */
  lemma UnsortedRows(events: seq<EventRecord>)
    requires Unsorted(events).Ok?
    ensures forall i :: 0 <= i < |events| ==> Expand(events[i]).Ok? && |Expand(events[i]).value| == |EventAttrs(events[i])|
    ensures |Unsorted(events).value| == TotalLen(Expanded(events))
    ensures forall x :: x in Unsorted(events).value <==>
      exists i :: 0 <= i < |events| && x in Expand(events[i]).value
  {
    var rs := Expanded(events);
    GatherRows(rs);
    forall x ensures x in Unsorted(events).value <==> exists i :: 0 <= i < |events| && x in Expand(events[i]).value {
      if x in Unsorted(events).value {
        var i :| 0 <= i < |rs| && x in rs[i].value;
      }
    }
  }

  // ---------------------------------------------------------------- the trace store

  /** Boolean-mask selection `df[mask]`: the rows that pass, in table order. */
  function Where(table: seq<Row>, keep: Row -> bool): (s: seq<Row>)
    ensures forall x :: x in s <==> x in table && keep(x)
    ensures SortedByTime(table) ==> SortedByTime(s)
  {
    if table == [] then []
    else
      var n := |table| - 1;
      var rest := Where(table[..n], keep);
      assert forall x :: x in table <==> x in table[..n] || x == table[n] by {
        assert table == table[..n] + [table[n]];
      }
      if keep(table[n]) then
        assert SortedByTime(table) ==> forall x :: x in table[..n] ==> x.time <= table[n].time;
        rest + [table[n]]
      else rest
  }

  /** A mask keeps every passing row as often as the table holds it, and no other row. */
  lemma {:induction false} WhereCount(table: seq<Row>, keep: Row -> bool)
    ensures forall x :: multiset(Where(table, keep))[x] == if keep(x) then multiset(table)[x] else 0
  {
    if table != [] {
      var n := |table| - 1;
      WhereCount(table[..n], keep);
      assert table == table[..n] + [table[n]];
      var m := multiset(table[..n]);
      assert multiset(table) == m + multiset{table[n]};
      if keep(table[n]) {
        assert Where(table, keep) == Where(table[..n], keep) + [table[n]];
      } else {
        assert Where(table, keep) == Where(table[..n], keep);
      }
    }
  }

  /** The positions of the rows a mask keeps, in strictly increasing order. */
  function WherePositions(table: seq<Row>, keep: Row -> bool): (idx: seq<nat>)
    ensures forall k :: 0 <= k < |idx| ==> idx[k] < |table| && keep(table[idx[k]])
    ensures forall k, l :: 0 <= k < l < |idx| ==> idx[k] < idx[l]
  {
    if table == [] then []
    else
      var n := |table| - 1;
      var rest := WherePositions(table[..n], keep);
      assert forall k :: 0 <= k < |rest| ==> table[..n][rest[k]] == table[rest[k]];
      if keep(table[n]) then rest + [n] else rest
  }

  /** The kept rows are the table's rows at those positions, so table order is kept. */
  lemma {:induction false} WhereAtPositions(table: seq<Row>, keep: Row -> bool)
    ensures |Where(table, keep)| == |WherePositions(table, keep)|
    ensures forall k :: 0 <= k < |Where(table, keep)| ==> Where(table, keep)[k] == table[WherePositions(table, keep)[k]]
  {
    if table != [] {
      var n := |table| - 1;
      WhereAtPositions(table[..n], keep);
      var w, idx := Where(table[..n], keep), WherePositions(table[..n], keep);
      var w', idx' := if keep(table[n]) then w + [table[n]] else w, if keep(table[n]) then idx + [n] else idx;
      assert Where(table, keep) == w' && WherePositions(table, keep) == idx';
      forall k | 0 <= k < |w'| ensures w'[k] == table[idx'[k]] {
        if k < |w| {
          assert w'[k] == w[k] && idx'[k] == idx[k];
          assert table[..n][idx[k]] == table[idx[k]];
        }
      }
    }
  }

  /** No passing row is dropped: every position whose row passes is kept. */
  lemma WhereOrder(table: seq<Row>, keep: Row -> bool)
    ensures forall i :: 0 <= i < |table| && keep(table[i]) ==> i in WherePositions(table, keep)
  {
    forall i | 0 <= i < |table| && keep(table[i]) ensures i in WherePositions(table, keep) {
      KeptAt(table, keep, i);
    }
  }

  /** A passing row's position is kept. */
  lemma {:induction false} KeptAt(table: seq<Row>, keep: Row -> bool, i: nat)
    requires i < |table| && keep(table[i])
    ensures i in WherePositions(table, keep)
  {
    var n := |table| - 1;
    var rest := WherePositions(table[..n], keep);
    if i < n {
      assert table[..n][i] == table[i];
      KeptAt(table[..n], keep, i);
      assert WherePositions(table, keep) == rest + [n] || WherePositions(table, keep) == rest;
    } else {
      assert WherePositions(table, keep) == rest + [n];
      assert (rest + [n])[|rest|] == n;
    }
  }

  /** `trace_state[(model == m) & (path == p)]`: the rows of one series. */
  function Series(table: seq<Row>, m: string, p: string): seq<Row>
  {
    Where(table, (x: Row) => x.model == m && x.path == p)
  }

  function ModelColumn(table: seq<Row>): (ms: seq<string>)
    ensures |ms| == |table| && forall i :: 0 <= i < |table| ==> ms[i] == table[i].model
  {
    seq(|table|, i requires 0 <= i < |table| => table[i].model)
  }

  function PathColumn(table: seq<Row>): (ps: seq<string>)
    ensures |ps| == |table| && forall i :: 0 <= i < |table| ==> ps[i] == table[i].path
  {
    seq(|table|, i requires 0 <= i < |table| => table[i].path)
  }

  /** `pd.unique(trace_state["model"])`. */
  function Models(table: seq<Row>): seq<string>
  {
    Distinct(ModelColumn(table))
  }

  /** `pd.unique(trace_state[trace_state["model"] == m]["path"])`. */
  function PathsOf(table: seq<Row>, m: string): seq<string>
  {
    Distinct(PathColumn(RowsOf(table, m)))
  }

  function RowsOf(table: seq<Row>, m: string): seq<Row>
  {
    Where(table, (x: Row) => x.model == m)
  }

  /** The listed models are exactly the models of the table, each once. */
  lemma ModelsExact(table: seq<Row>)
    ensures forall m :: m in Models(table) <==> exists i :: 0 <= i < |table| && table[i].model == m
    ensures forall i, j :: 0 <= i < j < |Models(table)| ==> Models(table)[i] != Models(table)[j]
  {
    var ms := ModelColumn(table);
    forall m ensures m in Models(table) <==> exists i :: 0 <= i < |table| && table[i].model == m {
      if m in Models(table) {
        assert m in ms;
      }
      if exists i :: 0 <= i < |table| && table[i].model == m {
        var i :| 0 <= i < |table| && table[i].model == m;
        assert ms[i] == m;
        DistinctCovers(ms, i);
        var k :| 0 <= k < |Models(table)| && Models(table)[k] == m;
      }
    }
  }

  /** The listed paths of a model are exactly the paths its rows carry, each once. */
  lemma PathsOfExact(table: seq<Row>, m: string)
    ensures forall p :: p in PathsOf(table, m) <==> exists x :: x in table && x.model == m && x.path == p
    ensures forall i, j :: 0 <= i < j < |PathsOf(table, m)| ==> PathsOf(table, m)[i] != PathsOf(table, m)[j]
  {
    var rows := RowsOf(table, m);
    var ps := PathColumn(rows);
    forall p ensures p in PathsOf(table, m) <==> exists x :: x in table && x.model == m && x.path == p {
      if p in PathsOf(table, m) {
        assert p in ps;
        var i :| 0 <= i < |ps| && ps[i] == p;
        assert rows[i] in rows;
      }
      if exists x :: x in table && x.model == m && x.path == p {
        var x :| x in table && x.model == m && x.path == p;
        var i :| 0 <= i < |rows| && rows[i] == x;
        assert ps[i] == p;
        DistinctCovers(ps, i);
        var k :| 0 <= k < |PathsOf(table, m)| && PathsOf(table, m)[k] == p;
      }
    }
  }
}
