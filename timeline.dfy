/**
 * Time-based selections on one series (rows of one model and path, in
 * time order): what the navigation buttons, the text panel and the plot
 * window look up.
 */
module Timeline {
  import opened Common
  import opened Trace

  /** `event_list[event_list["time"] < t]`. */
  function Earlier(s: seq<Row>, t: real): seq<Row>
  {
    Where(s, (x: Row) => x.time < t)
  }

  /** `event_list[event_list["time"] > t]`. */
  function Later(s: seq<Row>, t: real): seq<Row>
  {
    Where(s, (x: Row) => x.time > t)
  }

  /** `event_list[event_list["time"] == t]`: every row at `t`, as often as the series holds it. */
  function AtTime(s: seq<Row>, t: real): (r: seq<Row>)
    ensures forall x :: multiset(r)[x] == if x.time == t then multiset(s)[x] else 0
  {
    var keep := (x: Row) => x.time == t;
    WhereCount(s, keep);
    Where(s, keep)
  }

  /** `event_list[event_list["time"].between(lo, hi)]`, both ends included, duplicates kept. */
  function Between(s: seq<Row>, lo: real, hi: real): (r: seq<Row>)
    ensures forall x :: multiset(r)[x] == if lo <= x.time <= hi then multiset(s)[x] else 0
  {
    var keep := (x: Row) => lo <= x.time <= hi;
    WhereCount(s, keep);
    Where(s, keep)
  }

  /** `earlier.iloc[-1]["time"]` when there is an earlier row. */
  function PrevTime(s: seq<Row>, t: real): Option<real>
  {
    var e := Earlier(s, t);
    if e == [] then None else Some(e[|e| - 1].time)
  }

  /** `later.iloc[0]["time"]` when there is a later row. */
  function NextTime(s: seq<Row>, t: real): Option<real>
  {
    var l := Later(s, t);
    if l == [] then None else Some(l[0].time)
  }

  /** `event_list.iloc[-1]["time"]` when the series is not empty. */
  function LastTime(s: seq<Row>): Option<real>
  {
    if s == [] then None else Some(s[|s| - 1].time)
  }

  /** On a sorted series the previous time is the greatest time strictly below `t`, if any. */
  lemma PrevTimeGreatestBelow(s: seq<Row>, t: real)
    requires SortedByTime(s)
    ensures PrevTime(s, t).None? <==> forall x :: x in s ==> x.time >= t
    ensures PrevTime(s, t).Some? ==>
      var p := PrevTime(s, t).value;
      p < t && (exists x :: x in s && x.time == p) && forall x :: x in s && x.time < t ==> x.time <= p
  {
    var e := Earlier(s, t);
    if e != [] {
      var last := e[|e| - 1];
      assert last in e;
      forall x | x in s && x.time < t ensures x.time <= last.time {
        assert x in e;
        var j :| 0 <= j < |e| && e[j] == x;
      }
    }
  }

  /** On a sorted series the next time is the least time strictly above `t`, if any. */
  lemma NextTimeLeastAbove(s: seq<Row>, t: real)
    requires SortedByTime(s)
    ensures NextTime(s, t).None? <==> forall x :: x in s ==> x.time <= t
    ensures NextTime(s, t).Some? ==>
      var n := NextTime(s, t).value;
      n > t && (exists x :: x in s && x.time == n) && forall x :: x in s && x.time > t ==> n <= x.time
  {
    var l := Later(s, t);
    if l != [] {
      assert l[0] in l;
      forall x | x in s && x.time > t ensures l[0].time <= x.time {
        assert x in l;
        var j :| 0 <= j < |l| && l[j] == x;
      }
    }
  }

  /** On a sorted series the last time is the greatest time. */
  lemma LastTimeGreatest(s: seq<Row>)
    requires SortedByTime(s)
    ensures LastTime(s).None? <==> s == []
    ensures LastTime(s).Some? ==>
      (exists x :: x in s && x.time == LastTime(s).value) && forall x :: x in s ==> x.time <= LastTime(s).value
  {
    if s != [] {
      assert s[|s| - 1] in s;
      forall x | x in s ensures x.time <= s[|s| - 1].time {
        var j :| 0 <= j < |s| && s[j] == x;
      }
    }
  }

  /** From a time the series has, a step back then forward (or forward then back) returns to it. */
  lemma PrevNextRoundTrip(s: seq<Row>, t: real)
    requires SortedByTime(s) && exists x :: x in s && x.time == t
    ensures PrevTime(s, t).Some? ==> NextTime(s, PrevTime(s, t).value) == Some(t)
    ensures NextTime(s, t).Some? ==> PrevTime(s, NextTime(s, t).value) == Some(t)
  {
    PrevTimeGreatestBelow(s, t);
    NextTimeLeastAbove(s, t);
    if PrevTime(s, t).Some? {
      NextTimeLeastAbove(s, PrevTime(s, t).value);
    }
    if NextTime(s, t).Some? {
      PrevTimeGreatestBelow(s, NextTime(s, t).value);
    }
  }
}
