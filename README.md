# DEVS trace plotter: a Dafny model of its trace engine

`XMLplotter.py` is a Tk/matplotlib viewer for the XML traces that a
PythonPDEVS simulation writes. Each `<event>` has a time, a model name, a
transition kind (`IN` for internal, `EX` for external) and a tree of typed
state attributes. The viewer does four things:

- It flattens every event into one row per state path, gathered in a table
  sorted by time.
- It shows the models in a selection tree. Selecting a leaf shows that
  model's state paths in a second tree.
- For the selected model and state path it draws a stairstep line over a
  window of `ws` time units around a cursor. The line has internal/external
  dots, x and y ticks and a curved arrow for every change of state.
- A text panel describes the events at the cursor: their state, their
  kind, and for internal transitions the time of the next event.

The buttons move the cursor to the first, previous, next or last event.

This project models that engine:

- the attribute parser and flattener;
- the trace loader;
- the tree builder with its leaf-only selection rule;
- cursor navigation;
- the windowing, stairstep, tick, limit and arrow computations of the plot;
- the contents of the text panel.

The `Window` object is a Dafny class. Its fields are the ones the source
mutates, and the buttons, selections and timer callback are its methods.

Modules, in dependency order:

- `Common`: `Option`, `Result` and first-seen de-duplication (`pd.unique`).
- `PyDict`: Python dicts as insertion-ordered association lists.
- `Values`: the attribute values `int | float | bool | str`. Covers Python's
  cross-type numeric equality, `int()`/`float()` on text, `is_float`, and
  the `<` that `np.sort` uses.
- `Attributes`: `_parse_attributes` and `_flatten_dict`.
- `Trace`: the table rows, `parse_trace_file`, and the boolean-mask
  queries on the table.
- `Paths`: the `.`-separated paths of the model and state trees.
- `Timeline`: the earlier, later and at-time event queries behind
  navigation.
- `SelectionTree`: `_build_tree` as a function and as the source's loop, and
  the leaf-only selection of the tree callbacks.
- `View`: `create_plot_for_active_model_state` as a pure function from
  the series, cursor and window size to a plot value, plus `create_arrow`
  and the arrow-reuse loop.
- `Session`: the `Window` class.

The modules are checked together, for example with
`dafny verify --resource-limit 2000000 --verification-time-limit 0 *.dfy`.

## Model

| member | source | states |
|---|---|---|
| Values.IsFloatCases | src/XMLplotter.py:25-31 | `is_float` holds for every number and boolean and for the text of any integer; it fails for empty text and for text that cannot start a numeral |
| Values.IsFloat | src/XMLplotter.py:24-30 | definition of `is_float` on the modelled grammar; its cases are stated by `Values.IsFloatCases` |
| Values.ParseInt | src/XMLplotter.py:188-189 | definition of `int()` on text; its round trip is stated by `Values.ParseShowInt` |
| Values.ParseFloat | src/XMLplotter.py:190-191 | definition of `float()` on text; its agreement with `int()` and its round trip are stated by `Values.IntTextIsFloatText` and `Values.ParseFloatShowInt` |
| Values.ParseShowInt | src/XMLplotter.py:188-189 | `int()` reads back every integer from its decimal text |
| Values.IntTextIsFloatText | src/XMLplotter.py:190-191 | `float()` accepts every integer literal and gives the same number |
| Values.ParseFloatShowInt | src/XMLplotter.py:190-191 | `float(str(i)) == i` for every integer `i` |
| Values.Canon | src/XMLplotter.py:347 | the hashing key of `unique()`: numbers and booleans get a numeric key holding their numeric value (so `1`, `1.0` and `True` share one), strings a text key |
| Values.LessTotal | src/XMLplotter.py:347 | the `<` that `np.sort` applies is total on values of one kind, up to Python equality |
| Values.LessIrreflexive | src/XMLplotter.py:347 | no value is below a value equal to it |
| Values.LessTransitive | src/XMLplotter.py:347 | `<` on values is transitive |
| Values.LessAsymmetric | src/XMLplotter.py:347 | `<` on values is asymmetric |
| Values.StrLessTotal | src/XMLplotter.py:347 | string `<` is total |
| Values.StrLessTransitive | src/XMLplotter.py:347 | string `<` is transitive |
| Common.Distinct | src/XMLplotter.py:55 | `pd.unique` keeps only elements of its input and never lists one twice |
| Common.DistinctCovers | src/XMLplotter.py:55 | every element of the input is kept by `pd.unique` |
| Common.DistinctSnoc | src/XMLplotter.py:55 | one more element is appended exactly when it has not been seen |
| Common.DistinctPrefix | src/XMLplotter.py:55 | deduplicating a prefix gives a prefix of the deduplication, so first-seen order is kept |
| PyDict.Get | src/XMLplotter.py:185-197 | a lookup of `res[name]` finds nothing exactly when the key is absent, and otherwise returns a stored item's value |
| PyDict.Put | src/XMLplotter.py:185-197 | after `d[k] = v`, key `k` maps to `v` and every other key keeps its value |
| PyDict.PutKeys | src/XMLplotter.py:185-197 | assigning to an existing key keeps the key order; a new key is appended |
| PyDict.PutDistinct | src/XMLplotter.py:185-197 | assignment never duplicates a key |
| PyDict.PutNew | src/XMLplotter.py:156-158 | assigning a new key appends the item |
| PyDict.PutAllHasKey | src/XMLplotter.py:155-156 | after a run of assignments a key is present exactly when it was present before or was assigned |
| PyDict.PutAllNew | src/XMLplotter.py:155-156 | assigning keys that are all new concatenates the dicts |
| Attributes.ParseStep | src/XMLplotter.py:180-197 | each `<attribute>` is stored under its name after the ones before it |
| Attributes.LeafValue | src/XMLplotter.py:186-197 | definition of the leaf coercion by category and type; its table is stated by `Attributes.LeafTyping` and `Attributes.IntegerLeafRoundTrip` |
| Attributes.Coerce | src/XMLplotter.py:182-197 | definition of what one attribute contributes; stated by `Attributes.LeafTyping` and `Attributes.NestedWhateverCategory` |
| Attributes.ParseAttributes | src/XMLplotter.py:178-198 | definition of `_parse_attributes`; its keys, values and errors are stated by `Attributes.ParseAttributesKeys`, `Attributes.ParseAttributesLastWins`, `Attributes.ParseOkAllOk` and `Attributes.ParseErrFirstFailure` |
| Attributes.Flatten | src/XMLplotter.py:150-159 | definition of `_flatten_dict`; its contents are stated by `Attributes.FlattenSound`, `Attributes.FlattenExact` and `Attributes.FlattenDistinct` |
| Attributes.ParseAttributesDistinct | src/XMLplotter.py:178-198 | the parsed dict never repeats a name |
| Attributes.ParseAttributesKeys | src/XMLplotter.py:178-198 | the parsed dict's keys are the attribute names in first-seen order |
| Attributes.ParseAttributesLastWins | src/XMLplotter.py:185-197 | a repeated name keeps the value of its last occurrence |
| Attributes.ParseOkAllOk | src/XMLplotter.py:178-198 | a successful parse converted every attribute |
| Attributes.ParseOkAt | src/XMLplotter.py:178-198 | a successful parse converted the attribute at any given position |
| Attributes.LastWinsAt | src/XMLplotter.py:185-197 | an attribute that no later one shares a name with is what the dict holds under its name |
| Attributes.ParseErrFirstFailure | src/XMLplotter.py:189-191 | a failed parse reports the error of the first attribute whose `int()`/`float()` fails |
| Attributes.LeafTyping | src/XMLplotter.py:186-197 | a leaf is an int, float or bool exactly for category `P` with that type; it is `text == "True"` for a bool and the raw text otherwise |
| Attributes.NestedWhateverCategory | src/XMLplotter.py:184-185 | an attribute with child attributes becomes a nested dict whatever its category and type |
| Attributes.IntegerLeafRoundTrip | src/XMLplotter.py:188-191 | an Integer or Float leaf with the text of `n` becomes `n` |
| Attributes.LeavesCount | src/XMLplotter.py:150-159 | the leaves of a nested dict are counted by its leaf values |
| Attributes.FlattenDistinct | src/XMLplotter.py:150-159 | the flattened dict's keys are distinct |
| Attributes.FlattenSound | src/XMLplotter.py:150-159 | every flattened item is a dotted leaf of the input, and every dotted leaf key appears |
| Attributes.FlattenExact | src/XMLplotter.py:150-159 | when the dotted leaf keys do not collide, flattening lists exactly the leaves in order |
| Attributes.FlattenFlat | src/XMLplotter.py:157-158 | a dict with no nested dict flattens to itself |
| Attributes.FlattenIdempotent | src/XMLplotter.py:150-159 | flattening a flattened dict changes nothing |
| Attributes.WellNamedLeavesDistinct | src/XMLplotter.py:150-159 | with dot-free names, distinct top-level names give distinct dotted leaf keys |
| Attributes.ParseWellNamed | src/XMLplotter.py:178-198 | parsing dot-free attribute names gives a dict whose nested dicts are well named too |
| Attributes.ParseThenFlatten | src/XMLplotter.py:167 | with dot-free names `_flatten_dict(_parse_attributes(state))` is exactly the list of leaves, one per leaf value |
| Trace.EventRows | src/XMLplotter.py:171-173 | one row per flattened attribute |
| Trace.Expand | src/XMLplotter.py:165-173 | definition of reading one event; its rows are stated by `Trace.ExpandRows` |
| Trace.Unsorted | src/XMLplotter.py:165-175 | definition of the concatenated table before sorting; stated by `Trace.UnsortedOk`, `Trace.UnsortedErrFirst` and `Trace.UnsortedRows` |
| Trace.ExpandRows | src/XMLplotter.py:165-173 | an event's rows carry its time, model and kind; they are exactly its flattened attributes, one per distinct path |
| Trace.Expanded | src/XMLplotter.py:165-175 | definition: each event converted on its own, in document order; what the results mean for the load is stated by `Trace.UnsortedOk`, `Trace.UnsortedErrFirst` and `Trace.UnsortedRows` |
| Trace.GatherOk | src/XMLplotter.py:165-175 | loading succeeds exactly when every event converts |
| Trace.GatherErrPrefix | src/XMLplotter.py:165-175 | once a prefix of the events has failed, later events cannot change the result of the load |
| Trace.GatherErrFirst | src/XMLplotter.py:165-175 | a failed gather is exactly the failure of its first failing part, every part before it having succeeded |
| Trace.GatherRows | src/XMLplotter.py:174-175 | the concatenated table holds exactly the rows of all events |
| Trace.UnsortedOk | src/XMLplotter.py:165-175 | the unsorted table exists exactly when every event converts |
| Trace.UnsortedErrFirst | src/XMLplotter.py:165-175 | a failed load reports the error of the first event that does not convert, and every earlier event converts |
| Trace.UnsortedRows | src/XMLplotter.py:165-175 | the unsorted table is the rows of the events, with the right count |
| Trace.LoadTrace | src/XMLplotter.py:161-176 | loading fails exactly when some event fails, with that event's error; otherwise the table is sorted by time and is a permutation of the events' rows |
| Trace.SortByTime | src/XMLplotter.py:176 | the result is sorted by time and is a permutation of the input |
| Trace.InsertAtSorted | src/XMLplotter.py:176 | a row placed after those no later than it and before those later than it keeps a table sorted |
| Trace.InsertByTime | src/XMLplotter.py:176 | inserting into a sorted table keeps it sorted and adds exactly that row |
| Trace.Where | src/XMLplotter.py:126-128 | a mask keeps exactly the rows that satisfy it (as a set), and it keeps the table sorted |
| Trace.WhereCount | src/XMLplotter.py:126-128 | a mask keeps each passing row as many times as the table holds it, and no failing row |
| Trace.WherePositions | src/XMLplotter.py:126-128 | the positions a mask keeps strictly increase, and the row at each passes |
| Trace.WhereAtPositions | src/XMLplotter.py:126-128 | the kept rows are the table's rows at those positions, one for one, so table order is kept |
| Trace.WhereOrder | src/XMLplotter.py:126-128 | every position whose row passes is among the kept positions, so no passing row is dropped |
| Trace.KeptAt | src/XMLplotter.py:126-128 | the position of one passing row is among the kept positions |
| Trace.ModelColumn | src/XMLplotter.py:55 | definition: the `model` column; its `pd.unique` is described by `Trace.ModelsExact` |
| Trace.PathColumn | src/XMLplotter.py:274 | definition: the `path` column; the paths of a model are described by `Trace.PathsOfExact` |
| Trace.ModelsExact | src/XMLplotter.py:55 | `pd.unique(model)` lists each model of the trace exactly once |
| Trace.PathsOfExact | src/XMLplotter.py:274 | the state paths of a model are those of its rows, each once |
| Paths.Split | src/XMLplotter.py:204 | `split(".")` gives at least one part and no part contains a dot |
| Paths.SplitJoin | src/XMLplotter.py:204-207 | splitting a join of dot-free parts gives back the parts |
| Paths.JoinSplit | src/XMLplotter.py:204-207 | joining the parts of a split gives back the string |
| Paths.SplitDotFreeHead | src/XMLplotter.py:204 | a dot-free first segment is split off and the rest is split on its own |
| Paths.PathDecompose | src/XMLplotter.py:206-209 | a path is its parent path, a dot and its last segment (just the segment at the top) |
| Paths.PrefixShape | src/XMLplotter.py:205-207 | the `mix`-th prefix has `mix + 1` segments, its parent is the join of the first `mix` segments and its text is segment `mix` |
| Paths.PrefixesChain | src/XMLplotter.py:205-207 | the prefixes run from a one-segment path to the path itself, each the parent of the next |
| Timeline.AtTime | src/XMLplotter.py:218-220 | the rows at the cursor time, each as many times as the series holds it, and no other row |
| Timeline.Between | src/XMLplotter.py:332 | the rows with a time in the closed range, each as many times as the series holds it, and no other row |
| Timeline.PrevTimeGreatestBelow | src/XMLplotter.py:128-130 | `earlier.iloc[-1]` is the greatest event time below the cursor, and absent exactly when no event is earlier |
| Timeline.PrevTime | src/XMLplotter.py:128-130 | definition of `earlier.iloc[-1]["time"]`; its meaning is stated by `Timeline.PrevTimeGreatestBelow` |
| Timeline.NextTimeLeastAbove | src/XMLplotter.py:136-138 | `later.iloc[0]` is the least event time above the cursor, and absent exactly when no event is later |
| Timeline.NextTime | src/XMLplotter.py:136-138 | definition of `later.iloc[0]["time"]`; its meaning is stated by `Timeline.NextTimeLeastAbove` |
| Timeline.LastTimeGreatest | src/XMLplotter.py:144-145 | `event_list.iloc[-1]` is the greatest event time, and absent exactly when the series is empty |
| Timeline.LastTime | src/XMLplotter.py:144-145 | definition of `event_list.iloc[-1]["time"]`; its meaning is stated by `Timeline.LastTimeGreatest` |
| Timeline.PrevNextRoundTrip | src/XMLplotter.py:124-138 | from an event, stepping back and then forward (or forward and then back) returns to it |
| SelectionTree.ItemPaths | src/XMLplotter.py:209 | definition: the `values=[path]` column of the items; which paths they are is stated by `SelectionTree.BuildPaths` and `SelectionTree.TreeOrder` |
| SelectionTree.Stream | src/XMLplotter.py:203-207 | definition of the prefixes the loop visits, in order; stated by `SelectionTree.StreamCovers`, `SelectionTree.StreamFromPaths` and `SelectionTree.StreamParents` |
| SelectionTree.Visit | src/XMLplotter.py:208-211 | definition of one visit; that it keeps the tree consistent is stated by `SelectionTree.VisitConsistent` and `SelectionTree.NewItemFits` |
| SelectionTree.VisitConsistent | src/XMLplotter.py:208-211 | visiting one more prefix keeps ids, `tree_ids`, texts and parents consistent |
| SelectionTree.Build | src/XMLplotter.py:200-211 | definition of `_build_tree` as a fold of visits; its shape is stated by `SelectionTree.TreeShape` |
| SelectionTree.BuildStep | src/XMLplotter.py:204-211 | one pass of the inner loop appends the item for a new prefix, with its parent looked up in `tree_ids`, and skips a known one |
| SelectionTree.BuildTree | src/XMLplotter.py:200-211 | the loop builds the same items as the functional definition |
| SelectionTree.BuildConsistent | src/XMLplotter.py:200-211 | ids are positions; `tree_ids` maps each item's path to its id and nothing else; texts are last segments; a parent is the earlier item holding the parent path, and an item without one has no earlier item at its parent path |
| SelectionTree.BuildIds | src/XMLplotter.py:208-210 | a path has an id exactly when the loop visited it |
| SelectionTree.BuildPaths | src/XMLplotter.py:208-211 | items are the visited paths, each once, in first-visit order |
| SelectionTree.StreamCovers | src/XMLplotter.py:203-207 | every prefix of every path is visited, and so is every path |
| SelectionTree.StreamFromPaths | src/XMLplotter.py:203-207 | only prefixes of the given paths are visited |
| SelectionTree.StreamParents | src/XMLplotter.py:205-207 | a prefix's parent is visited before it |
| SelectionTree.BuildParents | src/XMLplotter.py:206-209 | when parents come first, every item with more than one segment gets a parent |
| SelectionTree.TreeOrder | src/XMLplotter.py:208-211 | the tree's items are the distinct prefixes in first-visit order and their ids are their positions |
| SelectionTree.TreeLabels | src/XMLplotter.py:206-209 | every item's text is the last segment of its path |
| SelectionTree.TreeParents | src/XMLplotter.py:206-209 | an item of more than one segment has the earlier item of its parent path as parent |
| SelectionTree.TreeRoots | src/XMLplotter.py:206-209 | an item without a parent has no earlier item at its parent path |
| SelectionTree.TreeShape | src/XMLplotter.py:200-211 | items are the distinct prefixes in first-visit order; ids are positions; texts are last segments; a deeper item's parent is earlier and holds its parent path; a top item is a root unless an earlier item has the empty path |
| SelectionTree.SelectedLeaves | src/XMLplotter.py:268 | the selection keeps exactly the paths of the selected items that have no children |
| SelectionTree.LeafIsPath | src/XMLplotter.py:268-274 | a leaf of a tree built from some paths is one of those paths, never just a prefix |
| SelectionTree.LeafPrefixIsLast | src/XMLplotter.py:203-209 | a leaf's path is the full-length prefix of the path it was visited for |
| SelectionTree.SingleLeafIsPath | src/XMLplotter.py:268-274 | when exactly one selected item is a leaf, its path is one of the paths the tree was built from |
| SelectionTree.NewItemFits | src/XMLplotter.py:206-210 | the item inserted for a new path gets the next id, its last segment as text and the id of the parent path when `tree_ids` has it |
| SelectionTree.PrefixHasChild | src/XMLplotter.py:205-209 | a proper prefix of a path has a child in the tree |
| View.WindowExact | src/XMLplotter.py:321-332 | the window holds exactly the events in `[lower, upper]` plus those at the last time before `lower` and the first time after `upper`, each as often as the series holds it |
| View.WindowEvents | src/XMLplotter.py:319-332 | definition of the window filter; its contents are stated by `View.WindowExact` |
| View.WindowNonEmpty | src/XMLplotter.py:321-332 | the window of a non-empty series is non-empty (for `ws >= 0`) |
| View.MinOf | src/XMLplotter.py:335 | the minimum is an element and bounds all elements from below |
| View.MaxOf | src/XMLplotter.py:336 | the maximum is an element and bounds all elements from above |
| View.Times | src/XMLplotter.py:334 | definition: the `time` column of the window; the x range and ticks drawn from it are stated by `View.DrawXLimits` and `View.DrawXTicks` |
| View.Nums | src/XMLplotter.py:344 | definition: the numeric reading of each value; the line and the y limits drawn from it are stated by `View.DrawLine` and `View.DrawYLimits` |
| View.RepeatAt | src/XMLplotter.py:343-344 | element `i*k + j` of `repeat(k)` is element `i` |
| View.GapsAt | src/XMLplotter.py:345 | `np.insert` puts a NaN after every pair except the last |
| View.StairTimes | src/XMLplotter.py:343 | definition of `times.repeat(3).iloc[2:-2]`; its layout is stated by `View.Stairstep` |
| View.StairValues | src/XMLplotter.py:344-345 | definition of the repeated values with NaN gaps; its layout is stated by `View.Stairstep` |
| View.Stairstep | src/XMLplotter.py:343-345 | for `n` events, `ts` and `vs` have `3n-4` entries. Step `i` goes from `(t_i, v_i)` to `(t_{i+1}, v_i)` and is followed by a NaN break at `t_{i+1}` |
| View.StyleOf | src/XMLplotter.py:289-294 | the arrow style is falling, rising or level exactly as `dy < 0`, `dy > 0` or `dy == 0` |
| View.CreateArrow | src/XMLplotter.py:288-298 | the arrow runs from `(x, y)` to `(x + dx, y + dy)` with the style of the sign of `dy` |
| View.ArrowsAfter | src/XMLplotter.py:374-385 | one arrow per `len(ts) // 3` |
| View.ArrowAt | src/XMLplotter.py:374-383 | definition of arrow `i` after the update loop; stated by `View.ArrowsShape` |
| View.ArrowsShape | src/XMLplotter.py:374-385 | with `n` events there are `n-2` arrows. Arrow `i` is vertical at `t_{i+1}` from `v_i` to `v_{i+1}`; a reused arrow keeps its old style and a new one gets the style of `v_{i+1} - v_i` |
| View.XTicks | src/XMLplotter.py:351-354 | definition: all times below 20 of them, otherwise `[min, max]`; that the two ticks are the least and greatest event times is stated by `View.DrawXTicks` |
| View.InsertValue | src/XMLplotter.py:347 | insertion adds exactly the new value |
| View.SortValues | src/XMLplotter.py:347 | sorting is a permutation |
| View.InsertValueSorted | src/XMLplotter.py:347 | inserting a new value of the same kind keeps a sorted list sorted |
| View.SortValuesSorted | src/XMLplotter.py:347 | distinct values of one kind sort into strictly increasing order |
| View.StateSetsExact | src/XMLplotter.py:347 | `state_sets` is sorted, free of Python-equal duplicates, drawn from the values, and covers every value up to equality |
| View.StateSets | src/XMLplotter.py:347 | definition of `np.sort(unique(values))`; its contents are stated by `View.StateSetsExact` |
| View.StateSetsMembers | src/XMLplotter.py:347 | `state_sets` is sorted, duplicate-free and drawn from the values |
| View.StateSetsCover | src/XMLplotter.py:347 | every value is represented in `state_sets` |
| View.NumericTicks | src/XMLplotter.py:355-364 | numeric states never get category ticks, and fewer than 20 of them are their own ticks |
| View.YTicksOf | src/XMLplotter.py:355-364 | definition of the y-tick choice; stated by `View.NumericTicks` and `View.DrawYTicks` |
| View.ValueColumn | src/XMLplotter.py:344 | definition: the `value` column of the window; its `state_sets` is described by `View.StateSetsExact` |
| View.OfKind | src/XMLplotter.py:338-341 | selecting by kind keeps numeric values numeric |
| View.DotsOfKind | src/XMLplotter.py:338-341 | the dots of a kind are exactly the (time, value) pairs of the window's events of that kind |
| View.PlotErrors | src/XMLplotter.py:343-367 | the plot fails with too few events exactly when the window has fewer than two. Otherwise it fails as non-numeric exactly when a value is text, and it is drawn exactly when there are two or more events, all numeric |
| View.PlotArrowPoints | src/XMLplotter.py:374-383 | every arrow index of a drawn plot is in range and lands on a value, never a NaN |
| View.Draw | src/XMLplotter.py:334-367 | definition of a drawn view; its parts are stated by `View.DrawLine`, `View.DrawYLimits`, `View.DrawXLimits`, `View.DrawDots`, `View.DrawXTicks` and `View.DrawYTicks` |
| View.PlotOf | src/XMLplotter.py:313-385 | definition of `create_plot_for_active_model_state` as a value; its outcomes are stated by `View.PlotErrors`, `View.PlotRangeStart` and `View.PlotRangeEnd` |
| View.DrawLine | src/XMLplotter.py:343-345 | the drawn line is the stairstep of the window's times and values |
| View.DrawYLimits | src/XMLplotter.py:348-367 | the y limits are half a unit outside the smallest and largest plotted value, both of which occur |
| View.DrawXLimits | src/XMLplotter.py:334-336 | the x range starts at `lower` when some event is at or before it, and otherwise at the least event time; it ends at `upper` when some event is at or after it, and otherwise at the greatest event time |
| View.DrawDots | src/XMLplotter.py:338-372 | the internal and external dots are exactly the window's `IN` and `EX` events |
| View.DrawXTicks | src/XMLplotter.py:351-354 | all times are ticks when there are fewer than 20; otherwise the two ticks are the least and the greatest event time |
| View.DrawYTicks | src/XMLplotter.py:355-364 | a drawn plot has value ticks for fewer than 20 states and min/max ticks for more, never category ticks |
| View.ValueBounds | src/XMLplotter.py:344-349 | `nanmin` and `nanmax` of the line's values bound the value of every event but the last, and each is one of those values |
| View.WindowReachesBelow | src/XMLplotter.py:324-326 | when an event lies before `lower`, the window holds an event before `lower` |
| View.WindowReachesAbove | src/XMLplotter.py:328-330 | when an event lies after `upper`, the window holds an event after `upper` |
| View.PlotRangeStart | src/XMLplotter.py:324-335 | with an event before the window, the x range starts at `lower` |
| View.PlotRangeEnd | src/XMLplotter.py:328-336 | with an event after the window, the x range ends at `upper` |
| Session.Panel | src/XMLplotter.py:229-238 | definition: one text block per given event with the cursor time, the state and the transition; which events those are (the ones at the cursor) and what `next` is are stated by `Session.Window.Update` and `Session.Window.OutputMeaning` |
| Session.TransitionOf | src/XMLplotter.py:231-238 | kind `IN` gives an internal transition with the next time, `EX` an external one, and anything else an undefined one |
| Session.Window.constructor | src/XMLplotter.py:46-56 | the window starts at time 0 with nothing selected. The model tree is built from the trace's models, and the plot, arrows and text panel are empty |
| Session.Window.Open | src/XMLplotter.py:161-176 | opening fails exactly when loading fails, with its error; otherwise the window holds a sorted permutation of the trace |
| Session.Window.ActiveSeriesNonEmpty | src/XMLplotter.py:268-286 | a selected model and state path always have events |
| Session.Window.ToFirst | src/XMLplotter.py:120-122 | with a selection the cursor goes to 0; otherwise it stays |
| Session.Window.ToPrev | src/XMLplotter.py:124-130 | with a selection and an earlier event the cursor goes to the latest earlier event; otherwise it stays |
| Session.Window.ToNext | src/XMLplotter.py:132-138 | with a selection and a later event the cursor goes to the earliest later event; otherwise it stays |
| Session.Window.ToLast | src/XMLplotter.py:140-145 | with a selection whose series has events the cursor goes to the greatest event time, which is that of the last event; otherwise it stays |
| Session.Window.ClearPlot | src/XMLplotter.py:300-311 | the line and dots are cleared and every arrow is removed |
| Session.Window.UpdateArrows | src/XMLplotter.py:374-385 | the arrow list becomes one arrow per step. Existing arrows are moved and keep their style, new ones are created, and the surplus is popped |
| Session.Window.ShowPlot | src/XMLplotter.py:367-385 | a drawn plot replaces the axes' line, dots and ticks and moves the arrows onto it; an error changes nothing |
| Session.Window.CreatePlot | src/XMLplotter.py:313-385 | on success the axes show the plot of the current series, and the arrows follow it; on an error nothing changes |
| Session.Window.FillOutput | src/XMLplotter.py:229-238 | the text panel becomes `Panel` of the events at the cursor: one block per event with its state and its transition |
| Session.Window.Update | src/XMLplotter.py:213-263 | with no selection the plot is cleared. With one, the plot is redrawn; when it is drawn the text panel is `Panel` of the events at the cursor, naming the next event time for internal transitions; on a plot error nothing changes |
| Session.Window.OutputMeaning | src/XMLplotter.py:218-227 | the listed events are exactly those at the cursor, each as often as the series holds it; the "Time Next" is absent ("N/A") exactly when no event is later, and otherwise it is an event time, later than the cursor and no later than any later event |
| Session.Window.SelectInMtree | src/XMLplotter.py:265-279 | the plot is cleared and the state path reset. Exactly one selected leaf becomes the active model and its state tree is rebuilt from that model's paths; otherwise no model is active |
| Session.Window.SelectInStree | src/XMLplotter.py:281-286 | exactly one selected leaf clears the plot and becomes the active state path; otherwise nothing changes |

## Left out

- The Tk widgets, their layout and `make_gui`, matplotlib drawing, the `FuncAnimation` timer and `mainloop` are not modelled. The model keeps what they display as fields of `Window`: `plot`, `arrows`, `output`, `stree`, and the shown/hidden flags.
- File input, `ET.parse` and the hard-coded file name are not modelled. The trace arrives as a sequence of already parsed event records.
- `Attributes.Attr` and `Trace.EventRecord` always carry every child element, the `category` attribute and a text for each `<value>`. The source raises `AttributeError` when `find(...)` returns `None` (a missing `<name>`, `<value>`, `<type>`, `<model>`, `<state>`, `<time>` or `<kind>`), `KeyError` for a missing `category`, and `TypeError` from `int`/`float` on an empty `<value/>`, and it stores `None` as the raw text of an empty string-typed value. These malformed documents are not modelled: `ParseError` covers only the `ValueError`s of `int()` and `float()`, and `LoadError` adds only a time that is not a float.
- `get_window` is not modelled: the window size is a parameter of `Update` and `CreatePlot`, and `int()` on the entry text is left out.
- `Values.ParseFloat`: only the grammar `[+-](digits | digits.digits | digits. | .digits)` is modelled. Exponents, `inf`/`nan`, surrounding whitespace and underscores are not, nor is `int()` accepting whitespace.
- Floating point is modelled as exact reals; NaN appears only as the `None` gaps of the drawn line.
- The plot title, the `%.4f` formatting of the text panel and matplotlib's style strings are not modelled. Styles are the three-valued `Style`.
- pandas dtypes are not modelled: values keep their Python type. Tk's conversion of `values=[path]` to text, and back to a number for numeric-looking paths, is not modelled.
- `Session.Window.CreatePlot`: the source raises an exception when the window has fewer than two events or holds a text value, and the model returns that error and leaves the axes unchanged. The source has by then always set the title. For a window of exactly two events whose values are both text, the line's values hold no NaN, so `nanmin`/`nanmax` return text and the source also sets the x ticks, the y ticks (categorical ones unless both texts read as numbers) and the x limits before `min_ - 0.5` raises. None of these partial updates is modelled; `View.YTicksOf` defines the categorical ticks, but a drawn plot never carries them.
- `Trace.LoadTrace`: promises only sorted and a permutation, because `sort_values` is not a stable sort unless asked to be.
- `Session.Window.ToPrev`, `ToNext`, `ToLast` and `ToFirst` do not restate the object invariant: they change only the cursor, which the invariant does not read. They ask only that the table be sorted by time, which `Open` and the constructor guarantee.
- The commented-out text-panel code in `update` is not modelled.
