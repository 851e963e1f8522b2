/**
 * The hierarchy chart's `transform`: on every draw, after the layout and
 * `collapse:init` and just before rendering, it walks the tree from the
 * root and sets `isLeaf = !d.children && !d._children` on every node it
 * reaches, descending into `children` when non-empty, else into `_children`
 * when non-empty, else stopping.
 */
module LeafMarking {
  import opened Wrappers
  import opened Nodes
  import opened Walker

  /** The visitor: `d.isLeaf = !d.children && !d._children`. */
  function MarkLeaf(d: Node): (r: Node)
    ensures r.isLeaf <==> d.children.Absent? && d.hidden.Absent?
    ensures r.(isLeaf := d.isLeaf) == d
  {
    d.(isLeaf := LeafShape(d))
  }

  /**
   * The chooser: visible children when non-empty, else hidden children when
   * non-empty, else none (an empty array stops the descent).
   */
  function LeafChooser(d: Node): (r: Option<Side>)
    ensures r == Some(Visible) <==> d.children.Present? && |d.children.nodes| > 0
    ensures r == Some(Hidden) <==>
      !(d.children.Present? && |d.children.nodes| > 0) && d.hidden.Present? && |d.hidden.nodes| > 0
  {
    if d.children.Present? && |d.children.nodes| > 0 then Some(Visible)
    else if d.hidden.Present? && |d.hidden.nodes| > 0 then Some(Hidden)
    else None
  }

  lemma MarkLeafInPlace()
    ensures InPlace(MarkLeaf)
  {
    forall m ensures MarkLeaf(m).id == m.id && Size(MarkLeaf(m)) <= Size(m) {
      assert MarkLeaf(m).children == m.children && MarkLeaf(m).hidden == m.hidden;
    }
  }

  lemma LeafChooserStable()
    ensures StableChoice(LeafChooser)
  {
    forall m, ks ensures ChoiceKept(LeafChooser, m, ks) {
    }
  }

  /** The walk the marking pass performs from a present root. */
  function MarkTree(n: Node): Node {
    MarkLeafInPlace();
    Walk(n, MarkLeaf, LeafChooser).node
  }

  /** The leaf-marking pass over the tree rooted at `root` (a no-op without a root). */
  function MarkLeaves(root: Option<Node>): (r: Option<Node>)
    ensures root.None? ==> r.None?
    ensures root.Some? ==> r == Some(MarkTree(root.value))
  {
    MarkLeafInPlace();
    WalkFrom(root, MarkLeaf, LeafChooser).0
  }

  /**
   * `transform(nodes)`: marks the leaves of the tree rooted at `root` and
   * returns its `nodes` argument as it was (the node references; the marking
   * is visible through them).
   */
  function Transform(nodes: seq<nat>, root: Option<Node>): (r: (seq<nat>, Option<Node>))
    ensures r.0 == nodes
    ensures r.1 == MarkLeaves(root)
    ensures r.1.Some? <==> root.Some?
    ensures root.Some? ==> r.1.value.id == root.value.id
  {
    MarkLeafInPlace();
    (nodes, MarkLeaves(root))
  }

  /** A tree with every `isLeaf` flag cleared: the part marking must not touch. */
  function Unmark(n: Node): Node {
    n.(isLeaf := false, children := UnmarkSlot(n.children), hidden := UnmarkSlot(n.hidden))
  }

  function UnmarkSlot(s: ChildSlot): ChildSlot {
    match s
    case Absent => Absent
    case Present(cs) => Present(seq(|cs|, i requires 0 <= i < |cs| => Unmark(cs[i])))
  }

  /** Marking changes nothing but `isLeaf` flags. */
  lemma {:induction false} MarkLeavesOnlyFlags(n: Node)
    ensures Unmark(MarkTree(n)) == Unmark(n)
    decreases Size(n)
  {
    MarkLeafInPlace();
    match LeafChooser(n)
    case None =>
    case Some(side) =>
      var cs := SlotOf(n, side).nodes;
      SlotSmaller(n, side);
      var ws := WalkSeq(cs, MarkLeaf, LeafChooser).nodes;
      forall i | 0 <= i < |cs| ensures Unmark(ws[i]) == Unmark(cs[i]) {
        WalkSeqAt(cs, MarkLeaf, LeafChooser, i);
        SizeSeqMember(cs, i);
        MarkLeavesOnlyFlags(cs[i]);
      }
      assert UnmarkSlot(Present(ws)) == UnmarkSlot(Present(cs));
  }

  /**
   * Every node the walk reaches gets `isLeaf` exactly when it has neither
   * slot present (an empty present array makes it a non-leaf); every node
   * the walk does not reach is left exactly as it was.
   */
  lemma {:induction false} MarkLeavesAt(n: Node, p: seq<Step>)
    requires At(n, p).Some?
    ensures var r := MarkTree(n);
      && At(r, p).Some?
      && LeafShape(At(r, p).value) == LeafShape(At(n, p).value)
      && (Follows(n, p, LeafChooser) ==> At(r, p).value.isLeaf == LeafShape(At(n, p).value))
      && (!Follows(n, p, LeafChooser) ==> At(r, p) == At(n, p))
    decreases |p|
  {
    MarkLeafInPlace();
    var r := Walk(n, MarkLeaf, LeafChooser).node;
    match LeafChooser(n)
    case None =>
      if |p| > 0 {
        assert At(r, p) == At(n, p);
      }
    case Some(side) =>
      var cs := SlotOf(n, side).nodes;
      var ws := WalkSeq(cs, MarkLeaf, LeafChooser).nodes;
      assert SlotOf(r, side) == Present(ws);
      if |p| > 0 {
        var i := p[0].index;
        if p[0].side == side {
          WalkSeqAt(cs, MarkLeaf, LeafChooser, i);
          MarkLeavesAt(cs[i], p[1..]);
        } else {
          assert SlotOf(r, p[0].side) == SlotOf(n, p[0].side);
          assert At(r, p) == At(n, p);
        }
      }
  }

  /**
   * In a tree with two-slot exclusivity the marking walk reaches every node:
   * a path into a present slot finds it non-empty, and the other slot absent.
   */
  lemma {:induction false} ExclusiveFollows(n: Node, p: seq<Step>)
    requires Exclusive(n) && At(n, p).Some?
    ensures Follows(n, p, LeafChooser)
    decreases |p|
  {
    if |p| > 0 {
      var cs := SlotOf(n, p[0].side).nodes;
      assert cs[p[0].index] in cs;
      ExclusiveFollows(cs[p[0].index], p[1..]);
    }
  }

  /**
   * After the marking pass over a tree with two-slot exclusivity, every node
   * is a leaf exactly when neither of its slots is present.
   */
  lemma MarkLeavesExclusive(n: Node, p: seq<Step>)
    requires Exclusive(n) && At(n, p).Some?
    ensures At(MarkTree(n), p).Some?
    ensures At(MarkTree(n), p).value.isLeaf <==> LeafShape(At(n, p).value)
  {
    ExclusiveFollows(n, p);
    MarkLeavesAt(n, p);
  }
}
