/** The rows of the tree grid and the graft that attaches freshly loaded child
    rows under one row (`getNewDataWithChildren`). */
module CaseTree {

  /** A raw case record as the server returns it: its `Id` and the display
      fields (CaseNumber, Subject, Origin, ...), which the component never reads. */
  datatype Record = Record(id: string, fields: map<string, string>)

  /** One grid row: a record plus its `_children`, empty until they are loaded. */
  datatype Node = Node(id: string, fields: map<string, string>, children: seq<Node>)

  /** A level of the grid: an ordered sequence of rows. */
  type Forest = seq<Node>

  /** The record a row was built from. */
  function Unwrap(n: Node): (r: Record)
  {
    Record(n.id, n.fields)
  }

  /** `{ _children: [], ...record }`: a record becomes a row with no children. */
  function Wrap(r: Record): (n: Node)
    ensures Unwrap(n) == r
    ensures n.children == []
  {
    Node(r.id, r.fields, [])
  }

  /** `records.map(...)` with `Wrap`: one childless row per record, in order. */
  function WrapAll(rs: seq<Record>): (f: Forest)
    ensures |f| == |rs|
    ensures forall i :: 0 <= i < |f| ==> Unwrap(f[i]) == rs[i] && f[i].children == []
  {
    seq(|rs|, i requires 0 <= i < |rs| => Wrap(rs[i]))
  }

  /** The `hasChildrenContent` test on a row: its `_children` is non-empty. */
  predicate HasChildrenContent(n: Node)
  {
    |n.children| > 0
  }

  /** Every id that occurs anywhere in a forest, at any depth. */
  function Ids(f: Forest): (s: set<string>)
    decreases f
  {
    if f == [] then {} else NodeIds(f[0]) + Ids(f[1..])
  }

  /** Every id in a row and in the rows below it. */
  function NodeIds(n: Node): (s: set<string>)
    decreases n
  {
    {n.id} + Ids(n.children)
  }

  /** Replaces the children of every row whose id is `id` by `c`, wholesale.
      Recursion enters only rows that do not match and whose children are
      non-empty; the rows inside a matching row are not visited. Every level
      keeps its length, order, ids and display fields. */
  function Graft(f: Forest, id: string, c: Forest): (r: Forest)
    ensures |r| == |f|
    ensures forall i :: 0 <= i < |r| ==> Unwrap(r[i]) == Unwrap(f[i])
    decreases f
  {
    if f == [] then [] else [GraftNode(f[0], id, c)] + Graft(f[1..], id, c)
  }

  /** The treatment of one row by the `map` callback of `getNewDataWithChildren`. */
  function GraftNode(n: Node, id: string, c: Forest): (r: Node)
    ensures Unwrap(r) == Unwrap(n)
    ensures n.id == id ==> r.children == c
    ensures n.id != id ==> |r.children| == |n.children|
    decreases n
  {
    if n.id == id then n.(children := c)
    else if HasChildrenContent(n) then n.(children := Graft(n.children, id, c))
    else n
  }
}
