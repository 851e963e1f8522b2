/**
 * Hierarchy nodes as the chart sees them: each node has two child slots,
 * `children` (visible, read by the layout) and `_children` (hidden). A slot is
 * judged by PRESENCE, as JavaScript truthiness does: an empty array is present.
 * Node identity (JavaScript object identity) is the `id` field.
 */
module Nodes {
  import opened Wrappers
  import opened Js

  /** A child slot: `null`/`undefined` or an array of nodes (possibly empty). */
  datatype ChildSlot = Absent | Present(nodes: seq<Node>)

  /**
   * `depth` is assigned by the external layout; `isLeaf` by the leaf-marking
   * pass; `data` holds the user payload fields (`name`, `value`, ...).
   */
  datatype Node = Node(
    id: nat,
    depth: int,
    isLeaf: bool,
    data: map<string, JsValue>,
    children: ChildSlot,
    hidden: ChildSlot)

  /** Which of the two slots: `children` or `_children`. */
  datatype Side = Visible | Hidden

  function SlotOf(n: Node, side: Side): ChildSlot {
    match side
    case Visible => n.children
    case Hidden => n.hidden
  }

  function WithSlot(n: Node, side: Side, s: ChildSlot): (r: Node)
    ensures SlotOf(r, side) == s
    ensures r.id == n.id && r.depth == n.depth && r.isLeaf == n.isLeaf && r.data == n.data
  {
    match side
    case Visible => n.(children := s)
    case Hidden => n.(hidden := s)
  }

  /** The leaf definition the chart uses: `!d.children && !d._children`. */
  predicate LeafShape(n: Node) {
    n.children.Absent? && n.hidden.Absent?
  }

  /** The two-slot exclusivity the toggling code relies on, at one node. */
  predicate AtMostOneSlot(n: Node) {
    n.children.Absent? || n.hidden.Absent?
  }

  /** Two-slot exclusivity at every node of the subtree, through both slots. */
  ghost predicate Exclusive(n: Node) {
    && AtMostOneSlot(n)
    && SlotExclusive(n.children)
    && SlotExclusive(n.hidden)
  }

  ghost predicate SlotExclusive(s: ChildSlot) {
    s.Present? ==> forall c <- s.nodes :: Exclusive(c)
  }

  /** Number of nodes in the subtree, through both slots (a termination measure). */
  function Size(n: Node): nat {
    1 + SlotSize(n.children) + SlotSize(n.hidden)
  }

  function SlotSize(s: ChildSlot): nat {
    match s
    case Absent => 0
    case Present(cs) => SizeSeq(cs)
  }

  function SizeSeq(cs: seq<Node>): nat {
    if |cs| == 0 then 0 else Size(cs[0]) + SizeSeq(cs[1..])
  }

  /** A slot's nodes are fewer than the node holding them. */
  lemma SlotSmaller(n: Node, side: Side)
    requires SlotOf(n, side).Present?
    ensures SizeSeq(SlotOf(n, side).nodes) < Size(n)
  {
  }

  lemma {:induction false} SizeSeqMember(cs: seq<Node>, i: nat)
    requires i < |cs|
    ensures Size(cs[i]) <= SizeSeq(cs)
  {
    if i > 0 {
      SizeSeqMember(cs[1..], i - 1);
    }
  }

  lemma {:induction false} SizeSeqPointwise(a: seq<Node>, b: seq<Node>)
    requires |a| == |b|
    requires forall i :: 0 <= i < |a| ==> Size(a[i]) <= Size(b[i])
    ensures SizeSeq(a) <= SizeSeq(b)
  {
    if |a| > 0 {
      SizeSeqPointwise(a[1..], b[1..]);
    }
  }

  /** The multiset of node identities in the subtree, counted across both slots. */
  function Ids(n: Node): multiset<nat> {
    multiset{n.id} + SlotIds(n.children) + SlotIds(n.hidden)
  }

  function SlotIds(s: ChildSlot): multiset<nat> {
    match s
    case Absent => multiset{}
    case Present(cs) => IdsSeq(cs)
  }

  function IdsSeq(cs: seq<Node>): multiset<nat> {
    if |cs| == 0 then multiset{} else Ids(cs[0]) + IdsSeq(cs[1..])
  }

  lemma {:induction false} IdsSeqPointwise(a: seq<Node>, b: seq<Node>)
    requires |a| == |b|
    requires forall i :: 0 <= i < |a| ==> Ids(a[i]) == Ids(b[i])
    ensures IdsSeq(a) == IdsSeq(b)
  {
    if |a| > 0 {
      IdsSeqPointwise(a[1..], b[1..]);
    }
  }

  lemma {:induction false} IdsSeqPointwiseSub(a: seq<Node>, b: seq<Node>)
    requires |a| == |b|
    requires forall i :: 0 <= i < |a| ==> Ids(a[i]) <= Ids(b[i])
    ensures IdsSeq(a) <= IdsSeq(b)
  {
    if |a| > 0 {
      IdsSeqPointwiseSub(a[1..], b[1..]);
    }
  }

  /** The identities of the nodes a slot holds directly, in order. */
  function Heads(s: ChildSlot): seq<nat> {
    match s
    case Absent => []
    case Present(cs) => seq(|cs|, i requires 0 <= i < |cs| => cs[i].id)
  }

  /** One step down: a slot and an index into it. */
  datatype Step = Step(side: Side, index: nat)

  /** The node reached from `n` by following `p`, if every step exists. */
  function At(n: Node, p: seq<Step>): Option<Node>
    decreases |p|
  {
    if |p| == 0 then Some(n)
    else match SlotOf(n, p[0].side)
      case Absent => None
      case Present(cs) =>
        if p[0].index < |cs| then At(cs[p[0].index], p[1..]) else None
  }

  /** A path that only goes through `children` slots. */
  predicate VisiblePath(p: seq<Step>) {
    forall i :: 0 <= i < |p| ==> p[i].side == Visible
  }

  /** The same indices, taken through `_children` slots instead. */
  function Hide(p: seq<Step>): (q: seq<Step>)
    ensures |q| == |p|
    ensures forall i :: 0 <= i < |p| ==> q[i] == Step(Hidden, p[i].index)
  {
    seq(|p|, i requires 0 <= i < |p| => Step(Hidden, p[i].index))
  }

  /**
   * The layout's depth assignment: `depth` is the distance from the root along
   * visible slots (the layout only walks `children`).
   */
  ghost predicate VisibleDepths(n: Node, d: int) {
    && n.depth == d
    && (n.children.Present? ==> forall c <- n.children.nodes :: VisibleDepths(c, d + 1))
  }

  lemma {:induction false} VisibleDepthAt(n: Node, d: int, p: seq<Step>)
    requires VisibleDepths(n, d) && VisiblePath(p) && At(n, p).Some?
    ensures At(n, p).value.depth == d + |p|
    decreases |p|
  {
    if |p| > 0 {
      var c := n.children.nodes[p[0].index];
      assert c in n.children.nodes;
      assert VisiblePath(p[1..]) by {
        forall i | 0 <= i < |p[1..]| ensures p[1..][i].side == Visible {
          assert p[1..][i] == p[i + 1];
        }
      }
      VisibleDepthAt(c, d + 1, p[1..]);
    }
  }
}
