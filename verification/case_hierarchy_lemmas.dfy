/** Properties of the component's transitions: where a successful toggle puts
    the loaded rows, why a loaded row is never fetched again, and what holds
    over any sequence of events. */
module CaseHierarchyLemmas {
  import opened Wrappers
  import opened CaseTree
  import opened CaseTreeLemmas
  import opened CaseHierarchy

  /** After a toggle whose request returns records, every row the graft reaches
      with the toggled id has exactly those records, as childless rows, for
      children; every reached row keeps its id and display fields. */
  lemma ToggleLoadsChildren(s: State, ev: ToggleEvent, rs: seq<Record>, p: seq<nat>)
    requires Fires(ev) && |rs| > 0
    requires Visited(s.tree, p, ev.name)
    ensures ValidPath(s.tree, p) && ValidPath(Toggle(s, ev, Resolved(Some(rs))).tree, p)
    ensures Unwrap(NodeAt(Toggle(s, ev, Resolved(Some(rs))).tree, p)) == Unwrap(NodeAt(s.tree, p))
    ensures NodeAt(s.tree, p).id == ev.name ==>
      var n := NodeAt(Toggle(s, ev, Resolved(Some(rs))).tree, p);
      && |n.children| == |rs|
      && forall i :: 0 <= i < |rs| ==> Unwrap(n.children[i]) == rs[i] && n.children[i].children == []
  {
    GraftVisited(s.tree, p, ev.name, WrapAll(rs));
  }

  /** A toggle for a row that is nowhere in the grid leaves the grid as it was,
      even when the request returns records. */
  lemma ToggleUnknownRow(s: State, ev: ToggleEvent, o: ChildOutcome)
    requires ev.name !in Ids(s.tree)
    ensures Toggle(s, ev, o).tree == s.tree
  {
    if Fires(ev) && o.Resolved? && NonEmpty(o.result) {
      GraftMiss(s.tree, ev.name, WrapAll(o.result.value));
    }
  }

  /** Once a row's children have been loaded, the grid reports
      `hasChildrenContent` for it, so expanding it again (after collapsing it)
      issues no request and changes nothing, whatever the server would say:
      the loaded children are never refreshed. */
  lemma LoadedRowIsNotRefetched(s: State, ev: ToggleEvent, rs: seq<Record>, p: seq<nat>, later: ChildOutcome)
    requires Fires(ev) && |rs| > 0
    requires Visited(s.tree, p, ev.name) && ValidPath(s.tree, p) && NodeAt(s.tree, p).id == ev.name
    ensures ValidPath(Toggle(s, ev, Resolved(Some(rs))).tree, p)
    ensures
      var s' := Toggle(s, ev, Resolved(Some(rs)));
      var again := ToggleEvent(ev.name, HasChildrenContent(NodeAt(s'.tree, p)), true);
      && HasChildrenContent(NodeAt(s'.tree, p))
      && Toggle(s', again, later) == s'
  {
    ToggleLoadsChildren(s, ev, rs, p);
  }

  /** One event the component reacts to. */
  datatype Event = Wired(response: WireResponse) | Toggled(toggle: ToggleEvent, outcome: ChildOutcome)

  /** The state after the events, in order, each handled atomically. */
  function Run(s: State, evs: seq<Event>): State
    decreases |evs|
  {
    if evs == [] then s
    else
      var s1 := match evs[0]
        case Wired(w) => OnWire(s, w)
        case Toggled(ev, o) => Toggle(s, ev, o);
      Run(s1, evs[1..])
  }

  /** The ids of the rows whose toggles pass the guard, in order. */
  function FiredNames(evs: seq<Event>): seq<string>
    decreases |evs|
  {
    if evs == [] then []
    else if evs[0].Toggled? && Fires(evs[0].toggle) then [evs[0].toggle.name] + FiredNames(evs[1..])
    else FiredNames(evs[1..])
  }

  /** Over any sequence of events: the requests issued are exactly those of the
      toggles that pass the guard, in order; toasts are only ever added, at most
      one per request; and once the spinner is off it stays off. */
  lemma {:induction false} RunInvariants(s: State, evs: seq<Event>)
    ensures Run(s, evs).requests == s.requests + FiredNames(evs)
    ensures |s.toasts| <= |Run(s, evs).toasts|
    ensures Run(s, evs).toasts[..|s.toasts|] == s.toasts
    ensures |Run(s, evs).toasts| - |s.toasts| <= |FiredNames(evs)|
    ensures !s.loading ==> !Run(s, evs).loading
    decreases |evs|
  {
    if evs != [] {
      var s1 := match evs[0]
        case Wired(w) => OnWire(s, w)
        case Toggled(ev, o) => Toggle(s, ev, o);
      RunInvariants(s1, evs[1..]);
      assert Run(s, evs) == Run(s1, evs[1..]);
      var t := Run(s, evs).toasts;
      assert t[..|s1.toasts|][..|s.toasts|] == t[..|s.toasts|];
    }
  }

  /** A failed root load leaves a fresh component with no rows and its spinner
      on for good, and tells the user nothing. */
  lemma RootLoadErrorKeepsSpinner(msg: string, data: Option<seq<Record>>)
    ensures OnWire(Initial, WireResponse(Some(msg), data)) == Initial
    ensures OnWire(Initial, WireResponse(Some(msg), data)).loading
  {
  }
}
