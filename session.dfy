/**
 * The `Window` object: the loaded trace, the two selection trees, the
 * active model and state path, the cursor time, the transition arrows on
 * the axes and the text panel, and the methods the buttons, the tree
 * selections and the animation timer call.
 */
module Session {
  import opened Common
  import opened Values
  import opened Trace
  import opened Timeline
  import opened SelectionTree
  import opened View

  /** What the text panel says about one event at the cursor. */
  datatype Transition = Internal(next: Option<real>) | External | Undefined

  /** One `TIME: … STATE: …` block of the text panel. */
  datatype Entry = Entry(time: real, state: Value, transition: Transition)

  /** The transition line for an event of kind `kind`; `next` is `None` for "N/A". */
  function TransitionOf(kind: string, next: Option<real>): (tr: Transition)
    ensures tr.Internal? <==> kind == "IN"
    ensures tr.External? <==> kind == "EX"
    ensures tr.Internal? ==> tr.next == next
  {
    if kind == "IN" then Internal(next) else if kind == "EX" then External else Undefined
  }

  /**
   * The text panel for the events `rows` at cursor time `t`: one block per
   * event, in order, with its state and its transition, an internal one
   * naming `next`.
   */
  function Panel(rows: seq<Row>, t: real, next: Option<real>): (p: seq<Entry>)
    ensures |p| == |rows|
    ensures forall i :: 0 <= i < |rows| ==>
      p[i].time == t && p[i].state == rows[i].value && p[i].transition == TransitionOf(rows[i].kind, next)
  {
    seq(|rows|, i requires 0 <= i < |rows| => Entry(t, rows[i].value, TransitionOf(rows[i].kind, next)))
  }

  class Window {
    /** `trace_state`, sorted by time. */
    const table: seq<Row>
    /** The model tree, built once from the models of the trace. */
    const mtree: seq<TreeItem>
    var stree: seq<TreeItem>
    var streeShown: bool
    var time: real
    var activeModel: string
    var activeState: string
    var arrows: seq<Arrow>
    /** What the axes show; `None` once cleared. */
    var plot: Option<Plot>
    var output: seq<Entry>
    var outputShown: bool

    /**
     * The object invariant: the trees are those `_build_tree` makes from
     * the trace, a selected model and state path come from the trace,
     * and there is one arrow per step of the drawn line. The first part
     * does not read the cursor, the arrows, the plot or the text panel, and
     * the second only the arrows and the plot, so a method that changes
     * only some of those keeps the other part.
     */
    ghost predicate Valid()
      reads this`activeModel, this`activeState, this`stree, this`arrows, this`plot
    {
      TreesValid() && ArrowsValid()
    }

    ghost predicate TreesValid()
      reads this`activeModel, this`activeState, this`stree
    {
      SortedByTime(table) &&
      mtree == Build(Stream(Models(table))).items &&
      (activeModel != "" ==> activeModel in Models(table) && stree == Build(Stream(PathsOf(table, activeModel))).items) &&
      (Active() ==> activeState in PathsOf(table, activeModel))
    }

    ghost predicate ArrowsValid()
      reads this`arrows, this`plot
    {
      (plot.None? ==> arrows == []) &&
      (plot.Some? ==> |arrows| == |plot.value.ts| / 3)
    }

    /** `self.active_model != "" and self.active_state != ""`. */
    predicate Active()
      reads this`activeModel, this`activeState
    {
      activeModel != "" && activeState != ""
    }

    /** The rows of the active model and state path. */
    function Current(): seq<Row>
      reads this`activeModel, this`activeState
    {
      Series(table, activeModel, activeState)
    }

    /** `__init__` after `parse_trace_file`: nothing selected, the model tree built. */
    constructor(rows: seq<Row>)
      requires SortedByTime(rows)
      ensures Valid()
      ensures table == rows && mtree == Build(Stream(Models(rows))).items
      ensures time == 0.0 && activeModel == "" && activeState == ""
      ensures stree == [] && !streeShown && arrows == [] && plot.None? && output == [] && !outputShown
    {
      var items := BuildTree(Models(rows));
      table := rows;
      mtree := items;
      stree := [];
      streeShown := false;
      time := 0.0;
      activeModel := "";
      activeState := "";
      arrows := [];
      plot := None;
      output := [];
      outputShown := false;
    }

    /** Reading the trace and opening the window, or the error that stops it. */
    static method Open(events: seq<EventRecord>) returns (r: Result<Window, LoadError>)
      ensures r.Err? <==> Unsorted(events).Err?
      ensures r.Err? ==> r.error == Unsorted(events).error
      ensures r.Ok? ==>
        (fresh(r.value) && r.value.Valid() && r.value.activeModel == "" && r.value.time == 0.0 &&
         multiset(r.value.table) == multiset(Unsorted(events).value))
    {
      var loaded := LoadTrace(events);
      if loaded.Err? {
        r := Err(loaded.error);
      } else {
        var w := new Window(loaded.value);
        r := Ok(w);
      }
    }

    /** A selected series is never empty. */
    lemma ActiveSeriesNonEmpty()
      requires TreesValid() && Active()
      ensures Current() != []
    {
      PathsOfExact(table, activeModel);
      var x :| x in table && x.model == activeModel && x.path == activeState;
      assert x in Current();
    }

    // ------------------------------------------------------------ navigation

    /** `to_first`: back to time 0. */
    method ToFirst()
      modifies this`time
      ensures Active() ==> time == 0.0
      ensures !Active() ==> time == old(time)
    {
      if Active() {
        time := 0.0;
      }
    }

    /** `to_prev`: to the latest event time of the series before the cursor, if any. */
    method ToPrev()
      requires SortedByTime(table)
      modifies this`time
      ensures Active() && PrevTime(Current(), old(time)).Some? ==> time == PrevTime(Current(), old(time)).value
      ensures !(Active() && PrevTime(Current(), old(time)).Some?) ==> time == old(time)
      ensures Active() && time != old(time) ==>
        time < old(time) && (exists x :: x in Current() && x.time == time) &&
        forall x :: x in Current() && x.time < old(time) ==> x.time <= time
    {
      if Active() {
        var earlier := Earlier(Current(), time);
        PrevTimeGreatestBelow(Current(), time);
        if |earlier| > 0 {
          time := earlier[|earlier| - 1].time;
        }
      }
    }

    /** `to_next`: to the earliest event time of the series after the cursor, if any. */
    method ToNext()
      requires SortedByTime(table)
      modifies this`time
      ensures Active() && NextTime(Current(), old(time)).Some? ==> time == NextTime(Current(), old(time)).value
      ensures !(Active() && NextTime(Current(), old(time)).Some?) ==> time == old(time)
      ensures Active() && time != old(time) ==>
        time > old(time) && (exists x :: x in Current() && x.time == time) &&
        forall x :: x in Current() && x.time > old(time) ==> time <= x.time
    {
      if Active() {
        var later := Later(Current(), time);
        NextTimeLeastAbove(Current(), time);
        if |later| > 0 {
          time := later[0].time;
        }
      }
    }

    /** `to_last`: to the last event time of the series, when it has one. */
    method ToLast()
      requires SortedByTime(table)
      modifies this`time
      ensures Active() && Current() != [] ==>
        LastTime(Current()) == Some(time) &&
        (exists x :: x in Current() && x.time == time) && forall x :: x in Current() ==> x.time <= time
      ensures !(Active() && Current() != []) ==> time == old(time)
    {
      if Active() {
        var rows := Current();
        if |rows| > 0 {
          LastTimeGreatest(rows);
          time := rows[|rows| - 1].time;
        }
      }
    }

    // ------------------------------------------------------------ drawing

    /** `clear_plot`: empty line and dots, every arrow removed. */
    method ClearPlot()
      modifies this`arrows, this`plot
      ensures ArrowsValid() && arrows == [] && plot.None?
    {
      arrows := [];
      plot := None;
    }

    /**
     * The arrow loop of `create_plot_for_active_model_state`: arrows that
     * exist are moved, missing ones created, surplus ones popped.
     */
    method UpdateArrows(ts: seq<real>, vs: seq<Option<real>>)
      requires ArrowPoints(ts, vs)
      modifies this`arrows
      ensures arrows == ArrowsAfter(old(arrows), ts, vs)
    {
      var m := |ts| / 3;
      var i := 0;
      while i < m
        invariant 0 <= i <= m
        invariant |arrows| == if i <= |old(arrows)| then |old(arrows)| else i
        invariant forall j :: 0 <= j < i ==> arrows[j] == ArrowAt(old(arrows), ts, vs, j)
        invariant forall j :: i <= j < |arrows| ==> arrows[j] == old(arrows)[j]
      {
        var ix, iy := 3 * i + 1, 3 * i + 3;
        assert 3 * i + 3 < |vs| && vs[3 * i + 1].Some? && vs[3 * i + 3].Some?;
        if i >= |arrows| {
          var a := CreateArrow(ts[ix], vs[ix].value, 0.0, vs[iy].value - vs[ix].value);
          arrows := arrows + [a];
        } else {
          arrows := arrows[i := Arrow(arrows[i].style, ts[ix], vs[ix].value, ts[iy], vs[iy].value)];
        }
        i := i + 1;
      }
      while |arrows| > m
        invariant |arrows| >= m
        invariant forall j :: 0 <= j < m ==> arrows[j] == ArrowAt(old(arrows), ts, vs, j)
      {
        arrows := arrows[..|arrows| - 1];
      }
    }

    /**
     * `create_plot_for_active_model_state` for window size `ws`: the view of
     * the active series, or the error that interrupts it. On an error the
     * axes are left as they were; the title, and for a two-event all-text
     * window the ticks and x limits, that the source sets before raising
     * are not modelled.
     */
    method CreatePlot(ws: int) returns (e: Option<PlotError>)
      requires ArrowsValid()
      modifies this`arrows, this`plot
      ensures ArrowsValid()
      ensures var r := old(PlotOf(Current(), time, ws));
        (e.Some? <==> r.Err?) && (r.Err? ==> e.value == r.error) &&
        (r.Err? ==> arrows == old(arrows) && plot == old(plot)) &&
        (r.Ok? ==> plot == Some(r.value) &&
                   ArrowPoints(r.value.ts, r.value.vs) && arrows == ArrowsAfter(old(arrows), r.value.ts, r.value.vs))
    {
      var r := PlotOf(Current(), time, ws);
      if r.Ok? {
        PlotArrowPoints(Current(), time, ws);
      }
      e := ShowPlot(r);
    }

    /** Puts a computed view on the axes, or reports its error and leaves them alone. */
    method ShowPlot(r: Result<Plot, PlotError>) returns (e: Option<PlotError>)
      requires ArrowsValid() && (r.Ok? ==> ArrowPoints(r.value.ts, r.value.vs))
      modifies this`arrows, this`plot
      ensures ArrowsValid()
      ensures (e.Some? <==> r.Err?) && (r.Err? ==> e.value == r.error)
      ensures r.Err? ==> arrows == old(arrows) && plot == old(plot)
      ensures r.Ok? ==> plot == Some(r.value) && arrows == ArrowsAfter(old(arrows), r.value.ts, r.value.vs)
    {
      if r.Err? {
        e := Some(r.error);
      } else {
        UpdateArrows(r.value.ts, r.value.vs);
        plot := Some(r.value);
        e := None;
      }
    }

    /** The text panel's blocks for the events at the cursor. */
    method FillOutput(rows: seq<Row>, next: Option<real>)
      modifies this`output
      ensures output == Panel(rows, time, next)
    {
      output := [];
      var i := 0;
      while i < |rows|
        invariant 0 <= i <= |rows| && |output| == i
        invariant forall j :: 0 <= j < i ==> output[j] == Entry(time, rows[j].value, TransitionOf(rows[j].kind, next))
      {
        output := output + [Entry(time, rows[i].value, TransitionOf(rows[i].kind, next))];
        i := i + 1;
      }
      assert output == Panel(rows, time, next);
    }

    /**
     * `update`, the animation tick: with a series selected, redraw it and
     * list the events at the cursor, each internal one with the next event
     * time of the series (“N/A” when there is none); with nothing selected,
     * clear the plot. A plot error leaves the text panel as it was.
     */
    method Update(ws: int)
      requires ArrowsValid()
      modifies this`arrows, this`plot, this`output, this`outputShown
      ensures ArrowsValid()
      ensures !old(Active()) ==> arrows == [] && plot.None? && output == old(output) && outputShown == old(outputShown)
      ensures var r, rows := old(PlotOf(Current(), time, ws)), old(AtTime(Current(), time));
        (old(Active()) && r.Err? ==>
           arrows == old(arrows) && plot == old(plot) && output == old(output) && outputShown == old(outputShown)) &&
        (old(Active()) && r.Ok? ==>
           plot == Some(r.value) &&
           ArrowPoints(r.value.ts, r.value.vs) && arrows == ArrowsAfter(old(arrows), r.value.ts, r.value.vs) &&
           outputShown && output == Panel(rows, time, old(NextTime(Current(), time))))
    {
      if Active() {
        var series := Current();
        var events := AtTime(series, time);
        var next := NextTime(series, time);
        var e := CreatePlot(ws);
        if e.None? {
          outputShown := true;
          FillOutput(events, next);
        }
      } else {
        ClearPlot();
      }
    }

    /**
     * The panel describes exactly the events of the series at the cursor,
     * each as often as the series holds it (two equal confluent rows give
     * two blocks), and an internal transition names the least event time
     * after it.
     */
    lemma OutputMeaning()
      requires Valid() && Active()
      ensures forall x :: x in AtTime(Current(), time) <==> x in Current() && x.time == time
      ensures forall x: Row :: x.time == time ==> multiset(AtTime(Current(), time))[x] == multiset(Current())[x]
      ensures NextTime(Current(), time).None? <==> forall x :: x in Current() ==> x.time <= time
      ensures NextTime(Current(), time).Some? ==>
        var n := NextTime(Current(), time).value;
        n > time && (exists x :: x in Current() && x.time == n) && forall x :: x in Current() && x.time > time ==> n <= x.time
    {
      NextTimeLeastAbove(Current(), time);
    }

    // ------------------------------------------------------------ selection

    /**
     * `select_in_mtree`: the plot is cleared; exactly one selected leaf
     * makes its model active and rebuilds the state tree from that model's
     * paths, anything else deselects the model and hides the state tree.
     */
    method SelectInMtree(selected: seq<nat>)
      requires Valid() && forall i :: 0 <= i < |selected| ==> selected[i] < |mtree|
      modifies this`arrows, this`plot, this`activeModel, this`activeState, this`stree, this`streeShown
      ensures Valid()
      ensures arrows == [] && plot.None? && activeState == ""
      ensures |SelectedLeaves(mtree, selected)| == 1 ==>
        activeModel == SelectedLeaves(mtree, selected)[0] && streeShown &&
        stree == Build(Stream(PathsOf(table, activeModel))).items
      ensures |SelectedLeaves(mtree, selected)| != 1 ==>
        activeModel == "" && !streeShown && stree == old(stree)
    {
      ClearPlot();
      var selection := SelectedLeaves(mtree, selected);
      if |selection| == 1 {
        SingleLeafIsPath(Models(table), selected);
        var m := selection[0];
        var items := BuildTree(PathsOf(table, m));
        activeModel, activeState := m, "";
        streeShown, stree := true, items;
        assert activeModel in Models(table) && stree == Build(Stream(PathsOf(table, activeModel))).items;
      } else {
        activeModel, activeState := "", "";
        streeShown := false;
      }
      assert !Active();
    }

    /** `select_in_stree`: exactly one selected leaf clears the plot and makes its path the active state. */
    method SelectInStree(selected: seq<nat>)
      requires Valid() && forall i :: 0 <= i < |selected| ==> selected[i] < |stree|
      modifies this`arrows, this`plot, this`activeState
      ensures Valid()
      ensures |SelectedLeaves(stree, selected)| == 1 ==>
        arrows == [] && plot.None? && activeState == SelectedLeaves(stree, selected)[0]
      ensures |SelectedLeaves(stree, selected)| != 1 ==>
        arrows == old(arrows) && plot == old(plot) && activeState == old(activeState)
    {
      var selection := SelectedLeaves(stree, selected);
      if |selection| == 1 {
        ClearPlot();
        if activeModel != "" {
          SingleLeafIsPath(PathsOf(table, activeModel), selected);
        }
        activeState := selection[0];
      }
    }
  }
}
