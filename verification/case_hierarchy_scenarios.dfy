/** Worked examples of the component on small concrete inputs. */
module CaseHierarchyScenarios {
  import opened Wrappers
  import opened CaseTree
  import opened CaseHierarchy

  /** Roots load as childless rows; expanding root "1" grafts its two children
      under it, with no toast and the spinner off. */
  lemma LoadThenExpand()
    ensures
      var fields := map["CaseNumber" := "C-1"];
      var s1 := OnWire(Initial, WireResponse(None, Some([Record("1", fields)])));
      var s2 := Toggle(s1, ToggleEvent("1", false, true),
                       Resolved(Some([Record("1a", map[]), Record("1b", map[])])));
      && s1 == State([Node("1", fields, [])], false, [], [])
      && s2 == State([Node("1", fields, [Node("1a", map[], []), Node("1b", map[], [])])], false, [], ["1"])
  {
    var fields := map["CaseNumber" := "C-1"];
    var root := Node("1", fields, []);
    var kids := [Record("1a", map[]), Record("1b", map[])];
    assert WrapAll([Record("1", fields)]) == [root];
    assert WrapAll(kids) == [Node("1a", map[], []), Node("1b", map[], [])];
    assert Graft([root], "1", WrapAll(kids)) == [GraftNode(root, "1", WrapAll(kids))];
  }

  /** Two rows with the same id are both given the new children: the graft
      does not stop at the first match. */
  lemma DuplicateIdsAllReplaced(c: Forest)
    ensures Graft([Node("A", map[], []), Node("A", map[], [])], "A", c)
         == [Node("A", map[], c), Node("A", map[], c)]
  {
  }

  /** The walk does not enter a matching row: a matching row nested under
      another one is not reached, and disappears with its parent's old children. */
  lemma NestedMatchNotReached(c: Forest)
    ensures Graft([Node("x", map[], [Node("x", map[], [Node("y", map[], [])])])], "x", c)
         == [Node("x", map[], c)]
  {
  }
}
