/** The component's state and its two event handlers: the wired root load
    (`parentCase`) and the row toggle (`handleOnToggle`). The server calls are
    not performed here; their outcomes are supplied as parameters, and each
    handler is one atomic transition. */
module CaseHierarchy {
  import opened Wrappers
  import opened CaseTree

  /** The variant of a toast the component dispatches; titles and messages are
      not modelled. */
  datatype Variant = Warning | Error

  /** `gridData`, `isLoading`, the toasts dispatched so far, and the parent ids
      passed to `getChildCases` so far. */
  datatype State = State(tree: Forest, loading: bool, toasts: seq<Variant>, requests: seq<string>)

  /** A freshly created component: no rows, the spinner on, nothing dispatched. */
  const Initial: State := State([], true, [], [])

  /** What the wire adapter delivers: `error` and `data`, each possibly absent. */
  datatype WireResponse = WireResponse(error: Option<string>, data: Option<seq<Record>>)

  /** How `getChildCases` settles: resolved with a result that may be null, or
      rejected with an error. */
  datatype ChildOutcome = Resolved(result: Option<seq<Record>>) | Rejected(message: string)

  /** The detail of a toggle event: the row's id and the two flags the grid reports. */
  datatype ToggleEvent = ToggleEvent(name: string, hasChildrenContent: bool, isExpanded: bool)

  /** The wire handler. An error wins over data and changes nothing (it is only
      logged); data, even an empty list, replaces the grid by one childless row
      per record and turns the spinner off; with neither, nothing changes. */
  function OnWire(s: State, w: WireResponse): (s': State)
    ensures s'.toasts == s.toasts && s'.requests == s.requests
    ensures w.error.None? && w.data.Some? ==>
      && !s'.loading
      && |s'.tree| == |w.data.value|
      && (forall i :: 0 <= i < |s'.tree| ==>
            Unwrap(s'.tree[i]) == w.data.value[i] && s'.tree[i].children == [])
    ensures w.error.Some? || w.data.None? ==> s' == s
  {
    match w
    case WireResponse(Some(_), _) => s
    case WireResponse(None, Some(records)) => s.(tree := WrapAll(records), loading := false)
    case WireResponse(None, None) => s
  }

  /** The guard of the toggle handler: the row is being expanded and the grid
      reports no children for it. */
  predicate Fires(ev: ToggleEvent)
  {
    !ev.hasChildrenContent && ev.isExpanded
  }

  /** A result that carries child records (`result && result.length > 0`). */
  predicate NonEmpty(result: Option<seq<Record>>)
  {
    result.Some? && |result.value| > 0
  }

  /** The synchronous part of the toggle handler: when the guard holds, the
      spinner goes on and one request for the row's children is issued. */
  function BeginToggle(s: State, ev: ToggleEvent): (s': State)
    ensures Fires(ev) ==> s'.loading && s'.requests == s.requests + [ev.name]
    ensures Fires(ev) ==> s'.tree == s.tree && s'.toasts == s.toasts
    ensures !Fires(ev) ==> s' == s
  {
    if Fires(ev) then s.(loading := true, requests := s.requests + [ev.name]) else s
  }

  /** The continuations of the request for `rowName`'s children: a non-empty
      result is grafted under `rowName` as childless rows; an empty or null
      result raises one warning toast; a rejection raises one error toast; and
      the `finally` turns the spinner off in every case. */
  function SettleToggle(s: State, rowName: string, o: ChildOutcome): (s': State)
    ensures !s'.loading
    ensures s'.requests == s.requests
    ensures o.Resolved? && NonEmpty(o.result) ==>
      s'.tree == Graft(s.tree, rowName, WrapAll(o.result.value)) && s'.toasts == s.toasts
    ensures o.Resolved? && !NonEmpty(o.result) ==>
      s'.tree == s.tree && s'.toasts == s.toasts + [Warning]
    ensures o.Rejected? ==> s'.tree == s.tree && s'.toasts == s.toasts + [Error]
  {
    var settled :=
      match o
      case Resolved(result) =>
        if NonEmpty(result) then s.(tree := Graft(s.tree, rowName, WrapAll(result.value)))
        else s.(toasts := s.toasts + [Warning])
      case Rejected(_) => s.(toasts := s.toasts + [Error]);
    settled.(loading := false)
  }

  /** The whole toggle handler, the request settling with outcome `o`. When the
      guard fails nothing changes and nothing is requested; otherwise exactly
      one request is issued, the spinner ends off, and either the children are
      grafted with no toast, or the tree stays as it was and exactly one toast
      is added: a warning for an empty or null result, an error for a rejection. */
  function Toggle(s: State, ev: ToggleEvent, o: ChildOutcome): (s': State)
    ensures !Fires(ev) ==> s' == s
    ensures Fires(ev) ==> !s'.loading && s'.requests == s.requests + [ev.name]
    ensures Fires(ev) && o.Resolved? && NonEmpty(o.result) ==>
      s'.tree == Graft(s.tree, ev.name, WrapAll(o.result.value)) && s'.toasts == s.toasts
    ensures Fires(ev) && !(o.Resolved? && NonEmpty(o.result)) ==>
      && s'.tree == s.tree
      && |s'.toasts| == |s.toasts| + 1
      && s'.toasts[..|s.toasts|] == s.toasts
      && s'.toasts[|s.toasts|] == (if o.Rejected? then Error else Warning)
  {
    if Fires(ev) then SettleToggle(BeginToggle(s, ev), ev.name, o) else s
  }
}
