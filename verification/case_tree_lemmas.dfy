/** Properties of `CaseTree.Graft`: identity when the id is absent, shape
    preservation at every visited level, wholesale replacement at every
    visited match, untouched subtrees, and idempotence. */
module CaseTreeLemmas {
  import opened CaseTree

  /** A path is a non-empty sequence of indices: the first picks a row of the
      forest, each following one picks a child of the row picked before. */
  predicate ValidPath(f: Forest, p: seq<nat>)
    decreases p
  {
    && |p| > 0
    && p[0] < |f|
    && (|p| == 1 || ValidPath(f[p[0]].children, p[1..]))
  }

  /** The row a valid path leads to. */
  function NodeAt(f: Forest, p: seq<nat>): Node
    requires ValidPath(f, p)
    decreases p
  {
    if |p| == 1 then f[p[0]] else NodeAt(f[p[0]].children, p[1..])
  }

  /** The path is valid and no row strictly above its end has id `id`: these
      are exactly the rows a graft for `id` reaches. */
  predicate Visited(f: Forest, p: seq<nat>, id: string)
    decreases p
  {
    && |p| > 0
    && p[0] < |f|
    && (|p| == 1 || (f[p[0]].id != id && Visited(f[p[0]].children, p[1..], id)))
  }

  lemma {:induction false} VisitedIsValid(f: Forest, p: seq<nat>, id: string)
    requires Visited(f, p, id)
    ensures ValidPath(f, p)
    decreases p
  {
    if |p| > 1 {
      VisitedIsValid(f[p[0]].children, p[1..], id);
    }
  }

  /** The graft works row by row: the row at index k of the result is the
      graft of the row at index k of the input. */
  lemma {:induction false} GraftPointwise(f: Forest, id: string, c: Forest, k: nat)
    requires k < |f|
    ensures Graft(f, id, c)[k] == GraftNode(f[k], id, c)
    decreases f
  {
    if k > 0 {
      GraftPointwise(f[1..], id, c, k - 1);
    }
  }

  /** A row that does not match keeps its display data and has its children
      grafted recursively (a childless row trivially so). */
  lemma NonMatchingRow(n: Node, id: string, c: Forest)
    requires n.id != id
    ensures GraftNode(n, id, c) == n.(children := Graft(n.children, id, c))
  {
  }

  /** Identity on a miss: grafting an id that occurs nowhere returns the input. */
  lemma {:induction false} GraftMiss(f: Forest, id: string, c: Forest)
    requires id !in Ids(f)
    ensures Graft(f, id, c) == f
    decreases f
  {
    if f != [] {
      GraftNodeMiss(f[0], id, c);
      GraftMiss(f[1..], id, c);
      assert [f[0]] + f[1..] == f;
    }
  }

  /** A subtree that contains no row with id `id` is returned unchanged. */
  lemma {:induction false} GraftNodeMiss(n: Node, id: string, c: Forest)
    requires id !in NodeIds(n)
    ensures GraftNode(n, id, c) == n
    decreases n
  {
    if HasChildrenContent(n) {
      GraftMiss(n.children, id, c);
    }
  }

  /** A row that does not match and has no children is returned unchanged,
      whatever lies elsewhere in the tree. */
  lemma ChildlessRowUntouched(n: Node, id: string, c: Forest)
    requires n.id != id && !HasChildrenContent(n)
    ensures GraftNode(n, id, c) == n
  {
    assert NodeIds(n) == {n.id};
    GraftNodeMiss(n, id, c);
  }

  /** At every level the graft reaches: the same paths are reached before and
      after, each reached row keeps its id and display fields, a reached row
      with id `id` has exactly `c` as children (replaced, not appended to), and
      a reached row with another id has its children grafted in turn. */
  lemma {:induction false} GraftVisited(f: Forest, p: seq<nat>, id: string, c: Forest)
    ensures Visited(f, p, id) <==> Visited(Graft(f, id, c), p, id)
    ensures Visited(f, p, id) ==>
      ValidPath(f, p) && ValidPath(Graft(f, id, c), p)
      && Unwrap(NodeAt(Graft(f, id, c), p)) == Unwrap(NodeAt(f, p))
      && (NodeAt(f, p).id == id ==> NodeAt(Graft(f, id, c), p).children == c)
      && (NodeAt(f, p).id != id ==>
            NodeAt(Graft(f, id, c), p).children == Graft(NodeAt(f, p).children, id, c))
    decreases p
  {
    var g := Graft(f, id, c);
    if |p| > 0 && p[0] < |f| {
      var k := p[0];
      GraftPointwise(f, id, c, k);
      var n := f[k];
      if n.id != id {
        NonMatchingRow(n, id, c);
      }
      if |p| > 1 && n.id != id {
        GraftVisited(n.children, p[1..], id, c);
      }
      if Visited(f, p, id) {
        VisitedIsValid(f, p, id);
        VisitedIsValid(g, p, id);
      }
    }
  }

  /** Every reached row whose id is `id` ends with exactly `c` as children,
      even when its children were empty before; the first match is not
      special, every one of them is replaced. */
  lemma EveryVisitedMatchReplaced(f: Forest, id: string, c: Forest, p: seq<nat>)
    requires Visited(f, p, id)
    ensures ValidPath(f, p) && ValidPath(Graft(f, id, c), p)
    ensures NodeAt(f, p).id == id ==> NodeAt(Graft(f, id, c), p).children == c
  {
    GraftVisited(f, p, id, c);
  }

  /** Grafting twice with the same arguments is grafting once. */
  lemma {:induction false} GraftIdempotent(f: Forest, id: string, c: Forest)
    ensures Graft(Graft(f, id, c), id, c) == Graft(f, id, c)
    decreases f
  {
    if f != [] {
      GraftNodeIdempotent(f[0], id, c);
      GraftIdempotent(f[1..], id, c);
      var g := Graft(f, id, c);
      assert g[1..] == Graft(f[1..], id, c);
      assert g == [g[0]] + g[1..];
    }
  }

  lemma {:induction false} GraftNodeIdempotent(n: Node, id: string, c: Forest)
    ensures GraftNode(GraftNode(n, id, c), id, c) == GraftNode(n, id, c)
    decreases n
  {
    if n.id != id && HasChildrenContent(n) {
      GraftIdempotent(n.children, id, c);
    }
  }
}
