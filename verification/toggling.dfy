/**
 * Expand/collapse bookkeeping of the collapsible cluster trees: `toggle`
 * (the click handler's state change) and the recursive `collapse`.
 */
module Toggling {
  import opened Wrappers
  import opened Nodes

  /**
   * `toggle(d)`: visible children move to the hidden slot; otherwise hidden
   * children move back; a node with neither is returned as it is. The node
   * keeps its identity and every other field.
   */
  function Toggle(d: Node): (r: Node)
    ensures r.id == d.id && r.depth == d.depth && r.isLeaf == d.isLeaf && r.data == d.data
    ensures d.children.Present? ==> r.children.Absent? && r.hidden == d.children
    ensures d.children.Absent? && d.hidden.Present? ==> r.children == d.hidden && r.hidden.Absent?
    ensures LeafShape(d) ==> r == d
  {
    if d.children.Present? then d.(hidden := d.children, children := Absent)
    else if d.hidden.Present? then d.(children := d.hidden, hidden := Absent)
    else d
  }

  /** Toggling twice restores both slots when at most one was present. */
  lemma ToggleTwice(d: Node)
    requires AtMostOneSlot(d)
    ensures Toggle(Toggle(d)) == d
  {
  }

  /**
   * When both slots are present, the first toggle overwrites `_children`:
   * toggling twice brings the visible children back and loses the hidden ones.
   */
  lemma ToggleTwiceBothPresent(d: Node)
    requires d.children.Present? && d.hidden.Present?
    ensures Toggle(Toggle(d)) == d.(hidden := Absent)
    ensures Toggle(Toggle(d)) != d
  {
  }

  /** Toggle relocates children between the slots without creating or dropping any. */
  lemma ToggleKeepsIds(d: Node)
    requires AtMostOneSlot(d)
    ensures Ids(Toggle(d)) == Ids(d)
    ensures Heads(Toggle(d).children) + Heads(Toggle(d).hidden) == Heads(d.hidden) + Heads(d.children)
  {
  }

  lemma ToggleKeepsExclusive(d: Node)
    requires Exclusive(d)
    ensures Exclusive(Toggle(d))
  {
  }

  /** A toggled node with children shows exactly one present slot, on the other side. */
  lemma ToggleFlipsVisibility(d: Node)
    requires AtMostOneSlot(d) && !LeafShape(d)
    ensures Toggle(d).children.Present? <==> d.children.Absent?
    ensures AtMostOneSlot(Toggle(d)) && !LeafShape(Toggle(d))
  {
  }

  /**
   * `collapse(d)`: if `d` has visible children, they move to the hidden slot,
   * each of them collapsed first; a node without visible children is left
   * unchanged, hidden children included.
   */
  function Collapse(d: Node): (r: Node)
    ensures r.id == d.id && r.depth == d.depth && r.isLeaf == d.isLeaf && r.data == d.data
    ensures r.children.Absent?
    ensures d.children.Absent? ==> r == d
    ensures d.children.Present? ==> r.hidden.Present? && Heads(r.hidden) == Heads(d.children)
    ensures Size(r) <= Size(d)
  {
    match d.children
    case Absent => d
    case Present(cs) =>
      var hs := seq(|cs|, i requires 0 <= i < |cs| => Collapse(cs[i]));
      SizeSeqPointwise(hs, cs);
      d.(children := Absent, hidden := Present(hs))
  }

  lemma CollapseChild(d: Node, i: nat)
    requires d.children.Present? && i < |d.children.nodes|
    ensures Collapse(d).hidden.nodes[i] == Collapse(d.children.nodes[i])
  {
  }

  /** Collapsing an already collapsed node changes nothing. */
  lemma CollapseIdempotent(d: Node)
    ensures Collapse(Collapse(d)) == Collapse(d)
  {
  }

  /** Collapse never creates nodes: the identities after are among those before. */
  lemma {:induction false} CollapseNeverCreates(d: Node)
    ensures Ids(Collapse(d)) <= Ids(d)
  {
    match d.children
    case Absent =>
    case Present(cs) =>
      var hs := Collapse(d).hidden.nodes;
      forall i | 0 <= i < |cs| ensures Ids(hs[i]) <= Ids(cs[i]) {
        CollapseNeverCreates(cs[i]);
      }
      IdsSeqPointwiseSub(hs, cs);
  }

  /**
   * With the two-slot exclusivity in place, collapse neither creates nor drops
   * nodes: the identities in the subtree, across both slots, are preserved.
   */
  lemma {:induction false} CollapseKeepsIds(d: Node)
    requires Exclusive(d)
    ensures Ids(Collapse(d)) == Ids(d)
  {
    match d.children
    case Absent =>
    case Present(cs) =>
      var hs := Collapse(d).hidden.nodes;
      forall i | 0 <= i < |cs| ensures Ids(hs[i]) == Ids(cs[i]) {
        assert cs[i] in cs;
        CollapseKeepsIds(cs[i]);
      }
      IdsSeqPointwise(hs, cs);
  }

  /** Without exclusivity collapse can drop nodes: the old `_children` are overwritten. */
  lemma CollapseDropsOverwrittenHidden(d: Node, lost: Node)
    requires d.children == Present([])
    requires d.hidden == Present([lost]) && lost.id != d.id
    ensures lost.id !in Ids(Collapse(d))
    ensures lost.id in Ids(d)
  {
    assert IdsSeq([lost]) == Ids(lost) + IdsSeq([]);
  }

  lemma {:induction false} CollapseKeepsExclusive(d: Node)
    requires Exclusive(d)
    ensures Exclusive(Collapse(d))
  {
    match d.children
    case Absent =>
    case Present(cs) =>
      var hs := Collapse(d).hidden.nodes;
      forall c | c in hs ensures Exclusive(c) {
        var i :| 0 <= i < |hs| && hs[i] == c;
        assert cs[i] in cs;
        CollapseKeepsExclusive(cs[i]);
      }
  }

  /**
   * Every node reached from `d` through visible slots is, after collapse,
   * found at the same indices through hidden slots, itself collapsed, so no
   * node that had visible children keeps them.
   */
  lemma {:induction false} CollapseAlongVisible(d: Node, p: seq<Step>)
    requires VisiblePath(p) && At(d, p).Some?
    ensures At(Collapse(d), Hide(p)) == Some(Collapse(At(d, p).value))
    ensures At(Collapse(d), Hide(p)).value.children.Absent?
    decreases |p|
  {
    if |p| > 0 {
      var i := p[0].index;
      var c := d.children.nodes[i];
      assert VisiblePath(p[1..]) by {
        forall j | 0 <= j < |p[1..]| ensures p[1..][j].side == Visible {
          assert p[1..][j] == p[j + 1];
        }
      }
      CollapseAlongVisible(c, p[1..]);
      assert Hide(p)[1..] == Hide(p[1..]);
      CollapseChild(d, i);
    }
  }

  /** Paths `p` and `q` part ways at some step (neither is a prefix of the other). */
  predicate Apart(p: seq<Step>, q: seq<Step>)
    decreases |p|
  {
    |p| > 0 && |q| > 0 && (p[0] != q[0] || Apart(p[1..], q[1..]))
  }

  /**
   * The `node:click` state change: toggle the node at path `p` of the tree
   * rooted at `root`, leaving the tree shape around it in place. `None` when
   * `p` does not lead to a node.
   */
  function ToggleAt(root: Node, p: seq<Step>): (r: Option<Node>)
    ensures r.Some? <==> At(root, p).Some?
    ensures r.Some? ==> r.value.id == root.id && At(r.value, p) == Some(Toggle(At(root, p).value))
    decreases |p|
  {
    if |p| == 0 then Some(Toggle(root))
    else match SlotOf(root, p[0].side)
      case Absent => None
      case Present(cs) =>
        if p[0].index < |cs| then
          match ToggleAt(cs[p[0].index], p[1..])
          case None => None
          case Some(c) => Some(WithSlot(root, p[0].side, Present(cs[p[0].index := c])))
        else None
  }

  /** Clicking the same node twice restores the whole tree. */
  lemma {:induction false} ToggleAtTwice(root: Node, p: seq<Step>)
    requires At(root, p).Some? && AtMostOneSlot(At(root, p).value)
    ensures ToggleAt(ToggleAt(root, p).value, p) == Some(root)
    decreases |p|
  {
    if |p| > 0 {
      var side, i := p[0].side, p[0].index;
      var cs := SlotOf(root, side).nodes;
      ToggleAtTwice(cs[i], p[1..]);
      var c := ToggleAt(cs[i], p[1..]).value;
      var mid := WithSlot(root, side, Present(cs[i := c]));
      assert ToggleAt(root, p) == Some(mid);
      assert cs[i := c][i := cs[i]] == cs;
    }
    else {
      ToggleTwice(root);
    }
  }

  /** A click leaves every node off the clicked node's path as it was. */
  lemma {:induction false} ToggleAtFrame(root: Node, p: seq<Step>, q: seq<Step>)
    requires At(root, p).Some? && Apart(p, q)
    ensures At(ToggleAt(root, p).value, q) == At(root, q)
    decreases |p|
  {
    var side, i := p[0].side, p[0].index;
    var cs := SlotOf(root, side).nodes;
    var c := ToggleAt(cs[i], p[1..]).value;
    var r := WithSlot(root, side, Present(cs[i := c]));
    assert ToggleAt(root, p) == Some(r);
    if p[0] != q[0] {
      if q[0].side == side {
        assert q[0].index != i;
      }
    } else {
      ToggleAtFrame(cs[i], p[1..], q[1..]);
    }
  }

  /**
   * `after` is `before` with entry `s.index` of slot `s.side` replaced and
   * nothing else changed.
   */
  predicate OnlyEntryChanged(before: Node, after: Node, s: Step) {
    && SlotOf(before, s.side).Present?
    && s.index < |SlotOf(before, s.side).nodes|
    && SlotOf(after, s.side).Present?
    && |SlotOf(after, s.side).nodes| == |SlotOf(before, s.side).nodes|
    && after == WithSlot(before, s.side,
         Present(SlotOf(before, s.side).nodes[s.index := SlotOf(after, s.side).nodes[s.index]]))
  }

  /**
   * A click changes each ancestor of the clicked node only in the one child
   * entry the path goes through: its flags, payload, depth and its other
   * slot are as they were.
   */
  lemma {:induction false} ToggleAtAncestors(root: Node, p: seq<Step>, j: nat)
    requires At(root, p).Some? && j < |p|
    ensures At(root, p[..j]).Some? && At(ToggleAt(root, p).value, p[..j]).Some?
    ensures OnlyEntryChanged(At(root, p[..j]).value, At(ToggleAt(root, p).value, p[..j]).value, p[j])
    decreases |p|
  {
    var side, i := p[0].side, p[0].index;
    var cs := SlotOf(root, side).nodes;
    var c := ToggleAt(cs[i], p[1..]).value;
    var r := WithSlot(root, side, Present(cs[i := c]));
    assert ToggleAt(root, p) == Some(r);
    if j == 0 {
      assert p[..0] == [];
    } else {
      ToggleAtAncestors(cs[i], p[1..], j - 1);
      var q := p[..j];
      assert q[0] == p[0] && q[1..] == p[1..][..j - 1];
      assert At(root, q) == At(cs[i], p[1..][..j - 1]);
      assert At(r, q) == At(c, p[1..][..j - 1]);
      assert p[1..][j - 1] == p[j];
    }
  }

  lemma {:induction false} IdsSeqUpdate(cs: seq<Node>, i: nat, c: Node)
    requires i < |cs| && Ids(c) == Ids(cs[i])
    ensures IdsSeq(cs[i := c]) == IdsSeq(cs)
  {
    IdsSeqPointwise(cs[i := c], cs);
  }

  /** A click relocates children only: the identities in the tree are preserved. */
  lemma {:induction false} ToggleAtKeepsIds(root: Node, p: seq<Step>)
    requires At(root, p).Some? && AtMostOneSlot(At(root, p).value)
    ensures Ids(ToggleAt(root, p).value) == Ids(root)
    decreases |p|
  {
    if |p| > 0 {
      var side, i := p[0].side, p[0].index;
      var cs := SlotOf(root, side).nodes;
      ToggleAtKeepsIds(cs[i], p[1..]);
      var c := ToggleAt(cs[i], p[1..]).value;
      IdsSeqUpdate(cs, i, c);
      assert ToggleAt(root, p) == Some(WithSlot(root, side, Present(cs[i := c])));
    } else {
      ToggleKeepsIds(root);
    }
  }
}
