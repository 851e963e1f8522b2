/**
 * `_walker(parent, walkerFunction, childrenFunction)`: a pre-order traversal
 * that applies the visitor to a node, then asks the chooser which of the
 * (already visited) node's slots to descend into, and walks that slot's
 * nodes in index order.
 */
module Walker {
  import opened Wrappers
  import opened Nodes

  /**
   * The visitor mutates a node in place: it keeps the node's identity and
   * does not enlarge its subtree (the visitors the chart passes only set a
   * flag or collapse).
   */
  ghost predicate InPlace(visit: Node -> Node) {
    forall m :: visit(m).id == m.id && Size(visit(m)) <= Size(m)
  }

  /** The walked subtree and the identities of the nodes visited, in visiting order. */
  datatype Walked = Walked(node: Node, trace: seq<nat>)
  datatype WalkedSeq = WalkedSeq(nodes: seq<Node>, trace: seq<nat>)

  /**
   * The chooser returns one of the node's two slots (or nothing); when that
   * slot is absent there is nothing to walk.
   */
  function Walk(n: Node, visit: Node -> Node, choose: Node -> Option<Side>): (r: Walked)
    requires InPlace(visit)
    ensures r.node.id == n.id
    ensures |r.trace| >= 1 && r.trace[0] == n.id
    ensures choose(visit(n)).None? ==> r.node == visit(n) && r.trace == [n.id]
    ensures choose(visit(n)).Some? ==>
      var side := choose(visit(n)).value;
      && WithSlot(r.node, side, SlotOf(visit(n), side)) == visit(n)
      && SlotOf(r.node, side).Present? == SlotOf(visit(n), side).Present?
      && (SlotOf(r.node, side).Present? ==> |SlotOf(r.node, side).nodes| == |SlotOf(visit(n), side).nodes|)
    decreases Size(n), 0
  {
    var v := visit(n);
    match choose(v)
    case None => Walked(v, [n.id])
    case Some(side) =>
      match SlotOf(v, side)
      case Absent => Walked(v, [n.id])
      case Present(cs) =>
        SlotSmaller(v, side);
        var w := WalkSeq(cs, visit, choose);
        Walked(WithSlot(v, side, Present(w.nodes)), [n.id] + w.trace)
  }

  function WalkSeq(cs: seq<Node>, visit: Node -> Node, choose: Node -> Option<Side>): (r: WalkedSeq)
    requires InPlace(visit)
    ensures |r.nodes| == |cs|
    decreases SizeSeq(cs), 1
  {
    if |cs| == 0 then WalkedSeq([], [])
    else
      var h := Walk(cs[0], visit, choose);
      var t := WalkSeq(cs[1..], visit, choose);
      WalkedSeq([h.node] + t.nodes, h.trace + t.trace)
  }

  /** `_walker` on a possibly missing root: a missing root is a no-op. */
  function WalkFrom(root: Option<Node>, visit: Node -> Node, choose: Node -> Option<Side>): (r: (Option<Node>, seq<nat>))
    requires InPlace(visit)
    ensures root.None? ==> r == (None, [])
    ensures root.Some? ==> r.0.Some? && r.0.value.id == root.value.id && r.1 != [] && r.1[0] == root.value.id
  {
    match root
    case None => (None, [])
    case Some(n) =>
      var w := Walk(n, visit, choose);
      (Some(w.node), w.trace)
  }

  /** The walked sequence holds each node walked on its own. */
  lemma {:induction false} WalkSeqAt(cs: seq<Node>, visit: Node -> Node, choose: Node -> Option<Side>, i: nat)
    requires InPlace(visit) && i < |cs|
    ensures WalkSeq(cs, visit, choose).nodes[i] == Walk(cs[i], visit, choose).node
  {
    if i > 0 {
      WalkSeqAt(cs[1..], visit, choose, i - 1);
    }
  }

  /**
   * The node of the tree before the walk that the walk reaches along `p`:
   * each step goes into the slot the chooser picks on the visited node.
   * `None` when `p` leaves the walk.
   */
  function Reached(n: Node, p: seq<Step>, visit: Node -> Node, choose: Node -> Option<Side>): Option<Node>
    decreases |p|
  {
    if |p| == 0 then Some(n)
    else
      var v := visit(n);
      if choose(v) == Some(p[0].side) && SlotOf(v, p[0].side).Present? && p[0].index < |SlotOf(v, p[0].side).nodes|
      then Reached(SlotOf(v, p[0].side).nodes[p[0].index], p[1..], visit, choose)
      else None
  }

  /**
   * Along a path the walk follows, the walked tree holds the reached node
   * walked on its own (so, by `Walk`'s contract, the visitor's result with
   * the chosen slot walked in turn).
   */
  lemma {:induction false} WalkAt(n: Node, visit: Node -> Node, choose: Node -> Option<Side>, p: seq<Step>)
    requires InPlace(visit) && Reached(n, p, visit, choose).Some?
    ensures At(Walk(n, visit, choose).node, p) == Some(Walk(Reached(n, p, visit, choose).value, visit, choose).node)
    decreases |p|
  {
    if |p| > 0 {
      var v := visit(n);
      var side, i := p[0].side, p[0].index;
      var cs := SlotOf(v, side).nodes;
      SlotSmaller(v, side);
      var w := WalkSeq(cs, visit, choose);
      assert Walk(n, visit, choose).node == WithSlot(v, side, Present(w.nodes));
      WalkSeqAt(cs, visit, choose, i);
      WalkAt(cs[i], visit, choose, p[1..]);
    }
  }

  /** Pre-order identities of a tree, descending into the slot the chooser picks. */
  function PreOrder(n: Node, choose: Node -> Option<Side>): (r: seq<nat>)
    ensures |r| >= 1 && r[0] == n.id
    decreases Size(n), 0
  {
    match choose(n)
    case None => [n.id]
    case Some(side) =>
      match SlotOf(n, side)
      case Absent => [n.id]
      case Present(cs) => SlotSmaller(n, side); [n.id] + PreOrderSeq(cs, choose)
  }

  function PreOrderSeq(cs: seq<Node>, choose: Node -> Option<Side>): seq<nat>
    decreases SizeSeq(cs), 1
  {
    if |cs| == 0 then [] else PreOrder(cs[0], choose) + PreOrderSeq(cs[1..], choose)
  }

  /**
   * Replacing the chosen slot's nodes by as many other nodes does not change
   * the choice (the chart's choosers look only at presence and length).
   */
  ghost predicate ChoiceKept(choose: Node -> Option<Side>, m: Node, ks: seq<Node>) {
    && choose(m).Some?
    && SlotOf(m, choose(m).value).Present?
    && |ks| == |SlotOf(m, choose(m).value).nodes|
    ==> choose(WithSlot(m, choose(m).value, Present(ks))) == choose(m)
  }

  ghost predicate StableChoice(choose: Node -> Option<Side>) {
    forall m, ks :: ChoiceKept(choose, m, ks)
  }

  /**
   * The order of visits: the visitor reaches a parent before any of its
   * children and the children in index order, i.e. the trace is the pre-order
   * of the walked tree.
   */
  lemma {:induction false} WalkVisitsInPreOrder(n: Node, visit: Node -> Node, choose: Node -> Option<Side>)
    requires InPlace(visit) && StableChoice(choose)
    ensures Walk(n, visit, choose).trace == PreOrder(Walk(n, visit, choose).node, choose)
    decreases Size(n), 0
  {
    var v := visit(n);
    match choose(v)
    case None =>
    case Some(side) =>
      match SlotOf(v, side)
      case Absent =>
      case Present(cs) =>
        SlotSmaller(v, side);
        var w := WalkSeq(cs, visit, choose);
        assert ChoiceKept(choose, v, w.nodes);
        WalkSeqVisitsInPreOrder(cs, visit, choose);
  }

  lemma {:induction false} WalkSeqVisitsInPreOrder(cs: seq<Node>, visit: Node -> Node, choose: Node -> Option<Side>)
    requires InPlace(visit) && StableChoice(choose)
    ensures WalkSeq(cs, visit, choose).trace == PreOrderSeq(WalkSeq(cs, visit, choose).nodes, choose)
    decreases SizeSeq(cs), 1
  {
    if |cs| > 0 {
      WalkVisitsInPreOrder(cs[0], visit, choose);
      WalkSeqVisitsInPreOrder(cs[1..], visit, choose);
      var w := WalkSeq(cs, visit, choose);
      assert w.nodes[1..] == WalkSeq(cs[1..], visit, choose).nodes;
    }
  }

  /** `p` goes, at every step, into the slot the chooser picks. */
  ghost predicate Follows(n: Node, p: seq<Step>, choose: Node -> Option<Side>)
    decreases |p|
  {
    |p| == 0 ||
      (&& choose(n) == Some(p[0].side)
       && SlotOf(n, p[0].side).Present?
       && p[0].index < |SlotOf(n, p[0].side).nodes|
       && Follows(SlotOf(n, p[0].side).nodes[p[0].index], p[1..], choose))
  }
}
