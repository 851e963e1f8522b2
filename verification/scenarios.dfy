/** A small concrete tree and what the model's operations make of it. */
module Scenarios {
  import opened Wrappers
  import opened Nodes
  import opened Toggling
  import opened Walker
  import opened LeafMarking
  import opened CollapseOnInit

  function Leaf(id: nat, depth: int): Node {
    Node(id, depth, false, map[], Absent, Absent)
  }

  /** R(0) has children A(1) and B(2); A has child C(3); everything visible. */
  function Sample(): Node {
    var c := Leaf(3, 2);
    var a := Node(1, 1, false, map[], Present([c]), Absent);
    Node(0, 0, false, map[], Present([a, Leaf(2, 1)]), Absent)
  }

  /**
   * Clicking A hides C; marking then flags B and C as leaves and R and A
   * (A still holds C in its hidden slot) as non-leaves; the walk visits
   * R, A, C, B in that order.
   */
  lemma ClickThenMark()
    ensures var t := ToggleAt(Sample(), [Step(Visible, 0)]).value;
      var m := MarkTree(t);
      && At(t, [Step(Visible, 0)]).value.children.Absent?
      && At(t, [Step(Visible, 0), Step(Hidden, 0)]).value.id == 3
      && !m.isLeaf
      && !At(m, [Step(Visible, 0)]).value.isLeaf
      && At(m, [Step(Visible, 1)]).value.isLeaf
      && At(m, [Step(Visible, 0), Step(Hidden, 0)]).value.isLeaf
      && (MarkLeafInPlace(); Walk(t, MarkLeaf, LeafChooser).trace == [0, 1, 3, 2])
  {
    var t := ToggleAt(Sample(), [Step(Visible, 0)]).value;
    MarkLeavesAt(t, []);
    MarkLeavesAt(t, [Step(Visible, 0)]);
    MarkLeavesAt(t, [Step(Visible, 1)]);
    MarkLeavesAt(t, [Step(Visible, 0), Step(Hidden, 0)]);
  }

  /** Collapsing at depth 1 folds A (hiding C), leaves B alone, and keeps R expanded. */
  lemma CollapseAtDepthOne()
    ensures var r := CollapseInit(Some(Sample()), Some(1)).value;
      && r.children.Present?
      && At(r, [Step(Visible, 0)]).value.children.Absent?
      && At(r, [Step(Visible, 0), Step(Hidden, 0)]).value.id == 3
      && At(r, [Step(Visible, 1)]) == Some(Leaf(2, 1))
  {
    var s := Sample();
    assert VisibleDepths(s, 0) by {
      assert VisibleDepths(s.children.nodes[0], 1) by {
        assert VisibleDepths(Leaf(3, 2), 2);
      }
      assert VisibleDepths(Leaf(2, 1), 1);
    }
    CollapseInitAlongVisible(s, 1, []);
    CollapseInitAlongVisible(s, 1, [Step(Visible, 0)]);
    CollapseInitAlongVisible(s, 1, [Step(Visible, 1)]);
    var r := CollapseInit(Some(s), Some(1)).value;
    var a := At(s, [Step(Visible, 0)]).value;
    assert At(r, [Step(Visible, 0)]) == Some(Collapse(a));
    CollapseChild(a, 0);
    assert At(r, [Step(Visible, 0), Step(Hidden, 0)]) == Some(Collapse(Leaf(3, 2)));
  }
}
