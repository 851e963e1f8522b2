/**
 * The chart's option getter/setters. The bundled build guards every setter
 * with `if (this.options.k === value) return;`; the hierarchy source file
 * stores unconditionally. A setter that stores triggers `change:<key>`
 * (running the handlers registered for it) and redraws when a root exists.
 */
module ChartOptions {
  import opened Wrappers
  import opened Js

  /** The option keys with a setter (`radius`/`levelGap` from cluster trees, `diameter` from radial trees). */
  datatype Key = Name | Value | Colors | Duration | LevelGap | Radius | Diameter

  function EventName(k: Key): string {
    match k
    case Name => "change:name"
    case Value => "change:value"
    case Colors => "change:colors"
    case Duration => "change:duration"
    case LevelGap => "change:levelGap"
    case Radius => "change:radius"
    case Diameter => "change:diameter"
  }

  lemma EventNamesDistinct(k: Key, k': Key)
    requires k != k'
    ensures EventName(k) != EventName(k')
  {
  }

  datatype Options = Options(
    name: JsValue,
    value: JsValue,
    colors: JsValue,
    duration: JsValue,
    levelGap: JsValue,
    radius: JsValue,
    diameter: JsValue)

  function Get(o: Options, k: Key): JsValue {
    match k
    case Name => o.name
    case Value => o.value
    case Colors => o.colors
    case Duration => o.duration
    case LevelGap => o.levelGap
    case Radius => o.radius
    case Diameter => o.diameter
  }

  /** Stores `v` under `k` and changes no other option. */
  function Put(o: Options, k: Key, v: JsValue): (r: Options)
    ensures Get(r, k) == v
    ensures forall k' :: k' != k ==> Get(r, k') == Get(o, k')
  {
    match k
    case Name => o.(name := v)
    case Value => o.(value := v)
    case Colors => o.(colors := v)
    case Duration => o.(duration := v)
    case LevelGap => o.(levelGap := v)
    case Radius => o.(radius := v)
    case Diameter => o.(diameter := v)
  }

  /** The chart's colour scale: `d3.scale.category20c()` or `d3.scale.ordinal().range(colors)`. */
  datatype ColorScale = Category20c | Ordinal(range: JsValue)

  /** The layout's sibling order: its own default, by name key (ascending or not), or a given comparator. */
  datatype Sort = LayoutDefault | ByName(ascending: bool) | Given(comparator: JsValue)

  /**
   * The chart state the option rules touch. `valueHooked` records that the
   * `change:value` handler has replaced the layout's value accessor;
   * `nextFn` numbers the function objects the chart creates.
   */
  datatype Chart = Chart(
    options: Options,
    hasRoot: bool,
    valueHooked: bool,
    scale: ColorScale,
    sort: Sort,
    nextFn: nat)

  /** What a call observably does besides its return value. */
  datatype Effect = Trigger(event: string) | Draw

  /** A setter's return value: an option value (or `undefined`), or the chart for chaining. */
  datatype Returned = Returned(v: JsValue) | ThisChart

  datatype Call = Call(ret: Returned, chart: Chart, effects: seq<Effect>)

  /**
   * A cluster tree just initialised: `name`, `value` and `duration` defaults
   * of the hierarchy chart, no `colors` (hence `category20c`), `radius` 4.5
   * and `levelGap` "auto" of the cluster tree. The radial tree's diameter
   * comes from the page size and is passed in.
   */
  function Initial(diameter: JsValue): (c: Chart)
    ensures c.scale == Category20c && !c.valueHooked && !c.hasRoot && c.sort == LayoutDefault
    ensures c.options.name == Str("name") && c.options.value == Str("value")
    ensures c.options.colors == Undefined && c.options.duration == Num(750.0)
    ensures c.options.levelGap == Str("auto") && c.options.radius == Num(4.5)
    ensures c.options.diameter == diameter
    ensures c.options.radius != Str("_COUNT")
  {
    Chart(
      Options(Str("name"), Str("value"), Undefined, Num(750.0), Str("auto"), Num(4.5), diameter),
      false, false, Category20c, LayoutDefault, 0)
  }

  /** The handlers the hierarchy chart registers, run synchronously by `trigger`. */
  function Notify(c: Chart, event: string): (r: Chart)
    ensures r.options == c.options && r.hasRoot == c.hasRoot && r.sort == c.sort && r.nextFn == c.nextFn
    ensures event == "change:value" ==> r.valueHooked
    ensures event == "change:colors" ==> r.scale == Ordinal(c.options.colors)
    ensures event != "change:value" && event != "change:colors" ==> r == c
  {
    if event == "change:value" then c.(valueHooked := true)
    else if event == "change:colors" then c.(scale := Ordinal(c.options.colors))
    else c
  }

  /**
   * What a setter stores for `v`: `radius("_COUNT")` stores a new function
   * object (the per-node child-count radius); everything else is stored as given.
   */
  function Stored(c: Chart, k: Key, v: JsValue): (r: (JsValue, nat))
    ensures k == Radius && v == Str("_COUNT") ==> r.0.ChartFn? && r.0.serial == c.nextFn && r.1 > c.nextFn
    ensures !(k == Radius && v == Str("_COUNT")) ==> r == (v, c.nextFn)
  {
    if k == Radius && v == Str("_COUNT") then (ChartFn(c.nextFn), c.nextFn + 1) else (v, c.nextFn)
  }

  /** Store, trigger `change:<k>`, redraw when a root exists, return the chart. */
  function Commit(c: Chart, k: Key, v: JsValue): (out: Call)
    ensures out.ret == ThisChart
    ensures Get(out.chart.options, k) == Stored(c, k, v).0
    ensures forall k' :: k' != k ==> Get(out.chart.options, k') == Get(c.options, k')
    ensures out.chart.hasRoot == c.hasRoot && out.chart.sort == c.sort
    ensures out.effects == [Trigger(EventName(k))] + (if c.hasRoot then [Draw] else [])
    ensures k == Value ==> out.chart.valueHooked
    ensures k == Colors ==> out.chart.scale == Ordinal(Stored(c, k, v).0)
  {
    var (s, next) := Stored(c, k, v);
    var stored := c.(options := Put(c.options, k, s), nextFn := next);
    Call(ThisChart, Notify(stored, EventName(k)),
         [Trigger(EventName(k))] + (if c.hasRoot then [Draw] else []))
  }

  /** The bundled build's setter: `arg` is `None` when called without an argument. */
  function GuardedSet(c: Chart, k: Key, arg: Option<JsValue>): (out: Call)
    ensures arg.None? ==> out == Call(Returned(Get(c.options, k)), c, [])
    ensures arg.Some? && arg.value == Get(c.options, k) ==> out == Call(Returned(Undefined), c, [])
    ensures arg.Some? && arg.value != Get(c.options, k) ==>
      && out.ret == ThisChart
      && Get(out.chart.options, k) == Stored(c, k, arg.value).0
      && (forall k' :: k' != k ==> Get(out.chart.options, k') == Get(c.options, k'))
      && out.chart.hasRoot == c.hasRoot && out.chart.sort == c.sort
      && out.effects == [Trigger(EventName(k))] + (if c.hasRoot then [Draw] else [])
  {
    match arg
    case None => Call(Returned(Get(c.options, k)), c, [])
    case Some(v) =>
      StrictEqualsIsEquality(Get(c.options, k), v);
      if StrictEquals(Get(c.options, k), v) then Call(Returned(Undefined), c, [])
      else Commit(c, k, v)
  }

  /** The setters the hierarchy source file defines. */
  predicate SourceKey(k: Key) {
    k == Name || k == Value || k == Colors || k == Duration
  }

  /** The hierarchy source file's setter: stores even a value equal to the current one. */
  function UnguardedSet(c: Chart, k: Key, arg: Option<JsValue>): (out: Call)
    requires SourceKey(k)
    ensures arg.None? ==> out == Call(Returned(Get(c.options, k)), c, [])
    ensures arg.Some? ==>
      && out.ret == ThisChart
      && Get(out.chart.options, k) == arg.value
      && (forall k' :: k' != k ==> Get(out.chart.options, k') == Get(c.options, k'))
      && out.chart.hasRoot == c.hasRoot && out.chart.sort == c.sort
      && out.effects == [Trigger(EventName(k))] + (if c.hasRoot then [Draw] else [])
  {
    match arg
    case None => Call(Returned(Get(c.options, k)), c, [])
    case Some(v) => Commit(c, k, v)
  }

  /** Setting then getting returns what was stored. */
  lemma GuardedSetThenGet(c: Chart, k: Key, v: JsValue)
    ensures var c' := GuardedSet(c, k, Some(v)).chart;
      GuardedSet(c', k, None).ret == Returned(if v == Get(c.options, k) then v else Stored(c, k, v).0)
  {
  }

  /**
   * Repeating a guarded set with the same (non-`_COUNT`-radius) value is a
   * no-op: it returns `undefined`, changes nothing and neither triggers nor redraws.
   */
  lemma GuardedSetTwice(c: Chart, k: Key, v: JsValue)
    requires !(k == Radius && v == Str("_COUNT"))
    ensures var c' := GuardedSet(c, k, Some(v)).chart;
      GuardedSet(c', k, Some(v)) == Call(Returned(Undefined), c', [])
  {
  }

  /** The stored radius is never the string "_COUNT" (that request stores a function). */
  ghost predicate RadiusInv(c: Chart) {
    c.options.radius != Str("_COUNT")
  }

  lemma GuardedSetKeepsRadiusInv(c: Chart, k: Key, arg: Option<JsValue>)
    requires RadiusInv(c)
    ensures RadiusInv(GuardedSet(c, k, arg).chart)
  {
  }

  /**
   * The guard never short-circuits `radius("_COUNT")`: the stored option is a
   * function, never the string, so each such call stores a new function,
   * triggers `change:radius` and redraws when a root exists.
   */
  lemma CountRadiusNeverShortCircuits(c: Chart)
    requires RadiusInv(c)
    ensures var out := GuardedSet(c, Radius, Some(Str("_COUNT")));
      && out.ret == ThisChart
      && out.chart.options.radius == ChartFn(c.nextFn)
      && Trigger("change:radius") in out.effects
      && (Draw in out.effects <==> c.hasRoot)
  {
  }

  /**
   * On the source keys the two setter styles agree except on a value equal
   * to the stored one, where only the unguarded setter triggers, redraws and
   * returns the chart.
   */
  lemma GuardedVersusUnguarded(c: Chart, k: Key, v: JsValue)
    requires SourceKey(k)
    ensures v != Get(c.options, k) ==> GuardedSet(c, k, Some(v)) == UnguardedSet(c, k, Some(v))
    ensures v == Get(c.options, k) ==>
      && GuardedSet(c, k, Some(v)).effects == []
      && UnguardedSet(c, k, Some(v)).effects != []
      && UnguardedSet(c, k, Some(v)).chart.options == c.options
      && UnguardedSet(c, k, Some(v)).ret == ThisChart
  {
  }

  /** A colour change that is stored also replaces the colour scale by an ordinal one over the new colours. */
  lemma ColorsInstallOrdinalScale(c: Chart, v: JsValue)
    requires v != c.options.colors
    ensures GuardedSet(c, Colors, Some(v)).chart.scale == Ordinal(v)
    ensures UnguardedSet(c, Colors, Some(v)).chart.scale == Ordinal(v)
  {
  }

  /**
   * A stored change to one option runs no other option's handler: only a
   * `value` change hooks the value accessor, and only a `colors` change
   * replaces the colour scale.
   */
  lemma OnlyOwnHandlerRuns(c: Chart, k: Key, v: JsValue)
    requires v != Get(c.options, k)
    ensures k != Value ==> GuardedSet(c, k, Some(v)).chart.valueHooked == c.valueHooked
    ensures k != Colors ==> GuardedSet(c, k, Some(v)).chart.scale == c.scale
  {
    if k != Value {
      EventNamesDistinct(k, Value);
    }
    if k != Colors {
      EventNamesDistinct(k, Colors);
    }
  }
}
