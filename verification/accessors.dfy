/**
 * The per-node functions the chart hands to the layout and the renderer:
 * the value accessor (`change:value`), the `_COUNT` radius, and the sibling
 * comparators `sortable` selects.
 */
module Accessors {
  import opened Wrappers
  import opened Js
  import opened Nodes
  import opened Toggling
  import opened ChartOptions

  /** `d[key]` for a payload field; keys other than strings are not modelled and read `undefined`. */
  function Property(d: Node, key: JsValue): (r: JsValue)
    ensures key.Str? && key.s in d.data ==> r == d.data[key.s]
    ensures !(key.Str? && key.s in d.data) ==> r == Undefined
  {
    match key
    case Str(s) => if s in d.data then d.data[s] else Undefined
    case _ => Undefined
  }

  /** The accessor `change:value` installs: `value === "_COUNT" ? 1 : d[value]`. */
  function ValueOf(key: JsValue, d: Node): (r: JsValue)
    ensures key == Str("_COUNT") ==> r == Num(1.0)
    ensures key != Str("_COUNT") && key.Str? && key.s in d.data ==> r == d.data[key.s]
    ensures key != Str("_COUNT") && !(key.Str? && key.s in d.data) ==> r == Undefined
  {
    if key == Str("_COUNT") then Num(1.0) else Property(d, key)
  }

  /**
   * The node value the layout reads: the chart's accessor once `change:value`
   * has fired; before that the layout's own default, which is not modelled (`None`).
   */
  function NodeValue(c: Chart, d: Node): (r: Option<JsValue>)
    ensures r.Some? <==> c.valueHooked
    ensures c.valueHooked ==> r == Some(ValueOf(c.options.value, d))
  {
    if c.valueHooked then Some(ValueOf(c.options.value, d)) else None
  }

  /** Once the value key is set to "_COUNT", every node weighs 1, whatever its payload. */
  lemma CountValueIsOne(c: Chart, d: Node)
    requires c.options.value != Str("_COUNT")
    ensures NodeValue(GuardedSet(c, Value, Some(Str("_COUNT"))).chart, d) == Some(Num(1.0))
    ensures NodeValue(UnguardedSet(c, Value, Some(Str("_COUNT"))).chart, d) == Some(Num(1.0))
  {
  }

  /** Any other stored key makes the accessor read that payload field. */
  lemma KeyedValueReadsField(c: Chart, d: Node, key: string)
    requires key != "_COUNT" && c.options.value != Str(key)
    ensures NodeValue(GuardedSet(c, Value, Some(Str(key))).chart, d)
      == Some(if key in d.data then d.data[key] else Undefined)
  {
  }

  /**
   * A guarded set to the value key already stored never installs the
   * accessor; the unguarded setter always does.
   */
  lemma EqualValueKeyHooksOnlyWhenUnguarded(c: Chart, d: Node)
    requires !c.valueHooked
    ensures NodeValue(GuardedSet(c, Value, Some(c.options.value)).chart, d).None?
    ensures NodeValue(UnguardedSet(c, Value, Some(c.options.value)).chart, d)
      == Some(ValueOf(c.options.value, d))
  {
  }

  /** All of a node's children, whichever slot holds them. */
  function ChildCount(d: Node): nat {
    |Heads(d.children)| + |Heads(d.hidden)|
  }

  /**
   * The `radius("_COUNT")` closure: the length of `_children` if present,
   * else of `children` if present, else 1. Presence, not emptiness, decides:
   * an empty present `_children` gives 0.
   */
  function CountRadius(d: Node): (r: nat)
    ensures AtMostOneSlot(d) ==> r == if LeafShape(d) then 1 else ChildCount(d)
    ensures d.hidden.Present? ==> r == |d.hidden.nodes|
    ensures r == 0 ==> !LeafShape(d)
  {
    if d.hidden.Present? then |d.hidden.nodes|
    else if d.children.Present? then |d.children.nodes|
    else 1
  }

  /**
   * With at most one slot present, the count radius is the node's number of
   * children whether it is expanded or collapsed, and 1 for a leaf.
   */
  lemma CountRadiusIsChildCount(d: Node)
    requires AtMostOneSlot(d)
    ensures CountRadius(d) == if LeafShape(d) then 1 else ChildCount(d)
  {
  }

  /** Expanding or collapsing a node does not change its count radius. */
  lemma CountRadiusStableUnderToggle(d: Node)
    requires AtMostOneSlot(d)
    ensures CountRadius(Toggle(d)) == CountRadius(d)
    ensures CountRadius(Collapse(d)) == CountRadius(d)
  {
  }

  /** With both slots present the hidden one wins, so a toggle changes the radius. */
  lemma CountRadiusPrefersHidden(d: Node)
    requires d.children.Present? && d.hidden.Present?
    ensures CountRadius(d) == |d.hidden.nodes|
    ensures CountRadius(Toggle(d)) == |d.children.nodes|
  {
  }

  /**
   * The circle radius the renderer gets for `d`: a chart-made function is the
   * count radius; a plain value is used as it is; a user function is not
   * modelled (`None`).
   */
  function RadiusAt(c: Chart, d: Node): (r: Option<JsValue>)
    ensures r.None? <==> c.options.radius.Ref?
    ensures c.options.radius.ChartFn? ==> r == Some(Num(CountRadius(d) as real))
    ensures !c.options.radius.ChartFn? && !c.options.radius.Ref? ==> r == Some(c.options.radius)
  {
    match c.options.radius
    case ChartFn(_) => Some(Num(CountRadius(d) as real))
    case Ref(_) => None
    case v => Some(v)
  }

  /** After `radius("_COUNT")` every node's circle radius is its count radius. */
  lemma RadiusCountApplies(c: Chart, d: Node)
    requires c.options.radius != Str("_COUNT")
    ensures RadiusAt(GuardedSet(c, Radius, Some(Str("_COUNT"))).chart, d)
      == Some(Num(CountRadius(d) as real))
  {
  }

  /**
   * `sortable(comparator)`: "_ASC" and "_DESC" select name-key comparators,
   * anything else is handed to the layout as it is. Returns the chart; no
   * option changes, nothing is triggered or drawn.
   */
  function Sortable(c: Chart, comparator: JsValue): (out: Call)
    ensures out.ret == ThisChart && out.effects == []
    ensures out.chart == c.(sort := out.chart.sort)
    ensures comparator == Str("_ASC") ==> out.chart.sort == ByName(true)
    ensures comparator == Str("_DESC") ==> out.chart.sort == ByName(false)
    ensures comparator != Str("_ASC") && comparator != Str("_DESC") ==> out.chart.sort == Given(comparator)
  {
    var sort :=
      if comparator == Str("_ASC") then ByName(true)
      else if comparator == Str("_DESC") then ByName(false)
      else Given(comparator);
    Call(ThisChart, c.(sort := sort), [])
  }

  /**
   * The order the selected comparator gives siblings `a`, `b`. The name-key
   * comparators read the name key when they compare, not when selected; the
   * layout's default and user comparators are not modelled (`None`).
   */
  function CompareSiblings(c: Chart, a: Node, b: Node): (r: Option<Order>)
    ensures r.Some? <==> c.sort.ByName?
    ensures c.sort.ByName? ==>
      var x, y := Property(a, c.options.name), Property(b, c.options.name);
      && (r.value == Before <==> if c.sort.ascending then Less(x, y) else Less(y, x))
      && (r.value == After <==> if c.sort.ascending then Less(y, x) else Less(x, y))
      && (r.value == Tie <==> Comparable(x, y) && x == y)
      && (r.value == Unordered <==> !Comparable(x, y))
  {
    match c.sort
    case ByName(asc) =>
      var x := Property(a, c.options.name);
      var y := Property(b, c.options.name);
      Some(if asc then Ascending(x, y) else Descending(x, y))
    case _ => None
  }

  /** "_DESC" orders siblings exactly as "_ASC" orders them with the roles swapped. */
  lemma DescendingMirrorsAscending(c: Chart, a: Node, b: Node)
    ensures CompareSiblings(Sortable(c, Str("_DESC")).chart, a, b)
      == CompareSiblings(Sortable(c, Str("_ASC")).chart, b, a)
  {
    AscendingAntisymmetric(Property(a, c.options.name), Property(b, c.options.name));
  }

  /** Ascending by name puts two siblings level only when their names are equal strings or numbers. */
  lemma AscendingTiesOnlyOnEqualNames(c: Chart, a: Node, b: Node)
    ensures var x := Property(a, c.options.name); var y := Property(b, c.options.name);
      CompareSiblings(Sortable(c, Str("_ASC")).chart, a, b) == Some(Tie) <==> Comparable(x, y) && x == y
  {
  }

  /** Renaming the name key after `sortable` re-keys the comparator. */
  lemma ComparatorFollowsNameKey(c: Chart, a: Node, b: Node, key: string)
    requires c.sort == ByName(true) && c.options.name != Str(key)
    ensures CompareSiblings(GuardedSet(c, Name, Some(Str(key))).chart, a, b)
      == Some(Ascending(Property(a, Str(key)), Property(b, Str(key))))
  {
  }
}
