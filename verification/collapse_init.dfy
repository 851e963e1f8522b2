/**
 * The `collapse:init` handler that `collapsible(maxDepth)` registers: when
 * `maxDepth` is defined it walks the tree through non-empty visible slots and
 * collapses every node whose layout depth equals `maxDepth`.
 */
module CollapseOnInit {
  import opened Wrappers
  import opened Nodes
  import opened Toggling
  import opened Walker

  /** The chooser: visible children when non-empty, otherwise nothing. */
  function VisibleChooser(d: Node): (r: Option<Side>)
    ensures r.Some? <==> d.children.Present? && |d.children.nodes| > 0
    ensures r.Some? ==> r.value == Visible
  {
    if d.children.Present? && |d.children.nodes| > 0 then Some(Visible) else None
  }

  /** The visitor: `if (d.depth == maxDepth) collapse(d)`. */
  function FoldAt(k: int): (f: Node -> Node)
    ensures forall m: Node :: m.depth == k ==> f(m) == Collapse(m)
    ensures forall m: Node :: m.depth != k ==> f(m) == m
  {
    (m: Node) => if m.depth == k then Collapse(m) else m
  }

  lemma FoldAtInPlace(k: int)
    ensures InPlace(FoldAt(k))
  {
  }

  lemma VisibleChooserStable()
    ensures StableChoice(VisibleChooser)
  {
    forall m, ks ensures ChoiceKept(VisibleChooser, m, ks) {
    }
  }

  /** The walk `collapse:init` performs from a present root. */
  function FoldTree(n: Node, k: int): Node {
    FoldAtInPlace(k);
    Walk(n, FoldAt(k), VisibleChooser).node
  }

  /** `collapse:init`: nothing happens when `maxDepth` is undefined or there is no root. */
  function CollapseInit(root: Option<Node>, maxDepth: Option<int>): (r: Option<Node>)
    ensures maxDepth.None? || root.None? ==> r == root
    ensures root.Some? && maxDepth.Some? ==> r == Some(FoldTree(root.value, maxDepth.value))
  {
    match maxDepth
    case None => root
    case Some(k) =>
      FoldAtInPlace(k);
      WalkFrom(root, FoldAt(k), VisibleChooser).0
  }

  lemma TailVisible(p: seq<Step>)
    requires |p| > 0 && VisiblePath(p)
    ensures VisiblePath(p[1..]) && p[0].side == Visible
  {
    forall j | 0 <= j < |p[1..]| ensures p[1..][j].side == Visible {
      assert p[1..][j] == p[j + 1];
    }
  }

  /**
   * Along visible slots, from a subtree whose root has depth `d`: nodes above
   * depth `k` keep their identity and their visible children, and the node at
   * depth `k` is collapsed.
   */
  lemma {:induction false} FoldAlongVisible(n: Node, k: int, d: int, p: seq<Step>)
    requires VisibleDepths(n, d) && d + |p| <= k
    requires VisiblePath(p) && At(n, p).Some?
    ensures var r := FoldTree(n, k); var m := At(n, p).value;
      && At(r, p).Some?
      && (d + |p| < k ==>
            && At(r, p).value.id == m.id
            && At(r, p).value.children.Present? == m.children.Present?
            && Heads(At(r, p).value.children) == Heads(m.children)
            && At(r, p).value.hidden == m.hidden)
      && (d + |p| == k ==> At(r, p) == Some(Collapse(m)))
    decreases |p|
  {
    FoldAtInPlace(k);
    var r := FoldTree(n, k);
    if d < k && VisibleChooser(n).Some? {
      var cs := n.children.nodes;
      var ws := WalkSeq(cs, FoldAt(k), VisibleChooser).nodes;
      assert r == n.(children := Present(ws));
      forall i | 0 <= i < |cs| ensures ws[i] == Walk(cs[i], FoldAt(k), VisibleChooser).node {
        WalkSeqAt(cs, FoldAt(k), VisibleChooser, i);
      }
      if |p| > 0 {
        TailVisible(p);
        var i := p[0].index;
        assert cs[i] in cs;
        FoldAlongVisible(cs[i], k, d + 1, p[1..]);
      }
    }
  }

  /** After the walk, no node deeper than `k` is reachable through visible slots. */
  lemma {:induction false} FoldBounded(n: Node, k: int, d: int, p: seq<Step>)
    requires VisibleDepths(n, d) && d <= k
    requires VisiblePath(p) && At(FoldTree(n, k), p).Some?
    ensures d + |p| <= k
    decreases |p|
  {
    FoldAtInPlace(k);
    if |p| > 0 {
      TailVisible(p);
      if d < k && VisibleChooser(n).Some? {
        var cs := n.children.nodes;
        var ws := WalkSeq(cs, FoldAt(k), VisibleChooser).nodes;
        var i := p[0].index;
        WalkSeqAt(cs, FoldAt(k), VisibleChooser, i);
        assert cs[i] in cs;
        FoldBounded(cs[i], k, d + 1, p[1..]);
      }
    }
  }

  /** When no reachable node has depth `k` (`k` above the root), nothing changes. */
  lemma {:induction false} FoldNoMatch(n: Node, k: int, d: int)
    requires VisibleDepths(n, d) && k < d
    ensures FoldTree(n, k) == n
    decreases Size(n)
  {
    FoldAtInPlace(k);
    if VisibleChooser(n).Some? {
      var cs := n.children.nodes;
      var ws := WalkSeq(cs, FoldAt(k), VisibleChooser).nodes;
      forall i | 0 <= i < |cs| ensures ws[i] == cs[i] {
        WalkSeqAt(cs, FoldAt(k), VisibleChooser, i);
        assert cs[i] in cs;
        SlotSmaller(n, Visible);
        SizeSeqMember(cs, i);
        FoldNoMatch(cs[i], k, d + 1);
      }
      assert ws == cs;
    }
  }

  /** The walk relocates children only: identities are preserved. */
  lemma {:induction false} FoldKeepsIds(n: Node, k: int)
    requires Exclusive(n)
    ensures Ids(FoldTree(n, k)) == Ids(n)
    decreases Size(n)
  {
    FoldAtInPlace(k);
    if n.depth == k {
      CollapseKeepsIds(n);
    } else if VisibleChooser(n).Some? {
      var cs := n.children.nodes;
      var ws := WalkSeq(cs, FoldAt(k), VisibleChooser).nodes;
      forall i | 0 <= i < |cs| ensures Ids(ws[i]) == Ids(cs[i]) {
        WalkSeqAt(cs, FoldAt(k), VisibleChooser, i);
        assert cs[i] in cs;
        SlotSmaller(n, Visible);
        SizeSeqMember(cs, i);
        FoldKeepsIds(cs[i], k);
      }
      IdsSeqPointwise(ws, cs);
    }
  }

  /**
   * `collapse:init` with `maxDepth` = k on a tree whose depths are the layout's:
   * nodes shallower than k keep their visible children, every node at depth k
   * reachable through visible slots is collapsed, and no node deeper than k
   * remains reachable through visible slots.
   */
  lemma CollapseInitAlongVisible(root: Node, k: int, p: seq<Step>)
    requires VisibleDepths(root, 0) && 0 <= k
    requires VisiblePath(p) && At(root, p).Some? && |p| <= k
    ensures var r := CollapseInit(Some(root), Some(k)).value; var m := At(root, p).value;
      && At(r, p).Some?
      && (|p| < k ==>
            && At(r, p).value.id == m.id
            && At(r, p).value.children.Present? == m.children.Present?
            && Heads(At(r, p).value.children) == Heads(m.children))
      && (|p| == k ==> At(r, p) == Some(Collapse(m)) && At(r, p).value.children.Absent?)
  {
    FoldAlongVisible(root, k, 0, p);
  }

  /** The same in the source's own terms: a node whose `depth` equals `maxDepth` is collapsed. */
  lemma CollapseInitAtDepth(root: Node, k: int, p: seq<Step>)
    requires VisibleDepths(root, 0) && 0 <= k
    requires VisiblePath(p) && At(root, p).Some? && At(root, p).value.depth == k
    ensures At(CollapseInit(Some(root), Some(k)).value, p).Some?
    ensures At(CollapseInit(Some(root), Some(k)).value, p).value.children.Absent?
  {
    VisibleDepthAt(root, 0, p);
    CollapseInitAlongVisible(root, k, p);
  }

  lemma CollapseInitBounded(root: Node, k: int, p: seq<Step>)
    requires VisibleDepths(root, 0) && 0 <= k
    requires VisiblePath(p) && At(CollapseInit(Some(root), Some(k)).value, p).Some?
    ensures |p| <= k
  {
    FoldBounded(root, k, 0, p);
  }

  /** A negative `maxDepth` matches no node: the tree is unchanged. */
  lemma CollapseInitNegative(root: Node, k: int)
    requires VisibleDepths(root, 0) && k < 0
    ensures CollapseInit(Some(root), Some(k)) == Some(root)
  {
    FoldNoMatch(root, k, 0);
  }

  lemma CollapseInitKeepsIds(root: Node, k: int)
    requires Exclusive(root)
    ensures Ids(CollapseInit(Some(root), Some(k)).value) == Ids(root)
  {
    FoldKeepsIds(root, k);
  }
}
