# d3.chart.layout.hierarchy — expand/collapse bookkeeping and option rules, in Dafny

This project models the part of the `d3.chart.layout.hierarchy` charting plugin that is logic rather than
rendering. That part is the expand/collapse state kept on hierarchy nodes, plus the small option-selection
rules around it. Each node has two child slots:

- `children`: the visible children, which the d3 layout reads.
- `_children`: the hidden children.

The plugin moves arrays between the two slots. On every draw that a click did not start, `collapse:init`
runs after the layout and collapses the nodes at depth `maxDepth`. Then, on every draw, the plugin marks
nodes as leaves just before rendering. Around this sit the chart's option getter/setters, the `_COUNT` value and radius
rules, and the `_ASC`/`_DESC` sibling comparators.

The JavaScript mutates shared node objects in place. The model uses immutable values instead:

- A node is a `Node` datatype. Its object identity is the `id` field. Its two slots are
  `ChildSlot = Absent | Present(nodes)`.
- A slot counts by presence, not emptiness, as JavaScript truthiness does. A present empty array makes
  a node a non-leaf. `_COUNT` gives such a node radius 0 when the empty array is in either slot, as long
  as `_children` is absent or is the empty one.
- An operation returns the updated tree. Nodes are addressed by paths of `Step(side, index)`.
- `depth` is a node field. The external layout assigns it. `VisibleDepths(root, 0)` states the layout's
  promise that depth is the distance from the root along visible slots.

Modules:

- `Js` (js.dfy): JavaScript values, strict equality, string `<` over UTF-16 code units, and
  `d3.ascending` / `d3.descending`. Objects are
  compared by identity. `ChartFn(serial)` stands for a function object the chart creates.
- `Nodes` (nodes.dfy): nodes, slots, paths (`At`), the identity multiset `Ids`, two-slot exclusivity,
  and the layout's depth assignment.
- `Toggling` (toggling.dfy): `toggle`, the recursive `collapse`, and the `node:click` state change at a path.
- `Walker` (walker.dfy): the generic `_walker`. It takes a visitor and a chooser that names the slot to
  descend into. It returns the walked tree and the visiting order.
- `LeafMarking` (leaf_marking.dfy): the hierarchy chart's `transform` leaf-marking pass.
- `CollapseOnInit` (collapse_init.dfy): the `collapse:init` handler of `collapsible(maxDepth)`.
- `ChartOptions` (chart_options.dfy): the options record, the guarded setters of the bundled build, the
  unguarded setters of `src/hierarchy/hierarchy.js`, and the `change:value` / `change:colors` handlers.
- `Accessors` (accessors.dfy): the `_COUNT` value accessor, the `_COUNT` radius closure, `sortable`, and
  the comparators it selects.
- `Scenarios` (scenarios.dfy): a four-node tree taken through a click, leaf marking and `collapse:init`.

Behaviours of the code that the model keeps:

- Leaf marking tests presence. So does `toggle`, and it clears a slot to `null` rather than to `[]`.
- The guarded setters return `undefined`, not the chart, when given the value already stored. A chained
  call after such a setter would therefore fail. The model returns `Returned(Undefined)` there.
- `radius("_COUNT")` stores a function. The guard compares that function with the string `"_COUNT"`,
  which never matches. So every repeated `radius("_COUNT")` stores a fresh function, triggers
  `change:radius` and redraws (`ChartOptions.CountRadiusNeverShortCircuits`).
- With both slots present, `toggle` and `collapse` overwrite `_children`, and the hidden nodes are lost
  (`Toggling.ToggleTwiceBothPresent`, `Toggling.CollapseDropsOverwrittenHidden`). The preservation results
  therefore assume two-slot exclusivity.

## Model

| member | source | states |
|---|---|---|
| `Toggling.Toggle` | d3.chart.layout.hierarchy.js:466-475 | Present visible children move to `_children` and `children` becomes absent. Otherwise present hidden children move back. A node with neither is returned as it was. The result keeps the node's identity and other fields. |
| `Toggling.ToggleTwice` | d3.chart.layout.hierarchy.js:466-475 | Toggling twice gives back the original node when at most one slot was present. |
| `Toggling.ToggleTwiceBothPresent` | d3.chart.layout.hierarchy.js:467-469 | With both slots present, two toggles restore `children` but lose the old `_children`, so the node is not restored. |
| `Toggling.ToggleKeepsIds` | d3.chart.layout.hierarchy.js:466-475 | Under exclusivity, toggle relocates children between the slots. The identity multiset is preserved and the child sequence moves to the other slot. |
| `Toggling.ToggleKeepsExclusive` | d3.chart.layout.hierarchy.js:466-475 | Toggle preserves two-slot exclusivity throughout the subtree. |
| `Toggling.ToggleFlipsVisibility` | d3.chart.layout.hierarchy.js:466-475 | A non-leaf node with one present slot ends up with its children in exactly the other slot. |
| `Toggling.Collapse` | d3.chart.layout.hierarchy.js:478-484 | Afterwards `children` is always absent. A node without visible children is unchanged, including its `_children`. Otherwise `_children` holds the old children in order. The node keeps its identity, and the subtree does not grow. |
| `Toggling.CollapseChild` | d3.chart.layout.hierarchy.js:480-481 | Each hidden child after collapse is the corresponding old visible child, itself collapsed. |
| `Toggling.CollapseIdempotent` | d3.chart.layout.hierarchy.js:478-484 | Collapsing a collapsed node changes nothing. |
| `Toggling.CollapseNeverCreates` | d3.chart.layout.hierarchy.js:478-484 | The identities after a collapse form a sub-multiset of those before. |
| `Toggling.CollapseKeepsIds` | d3.chart.layout.hierarchy.js:478-484 | Under two-slot exclusivity, collapse neither creates nor drops nodes. The identity multiset across both slots is preserved. |
| `Toggling.CollapseDropsOverwrittenHidden` | d3.chart.layout.hierarchy.js:479-480 | When `children` is a present empty array and `_children` holds a node, that node disappears from the subtree. |
| `Toggling.CollapseKeepsExclusive` | d3.chart.layout.hierarchy.js:478-484 | Collapse preserves two-slot exclusivity. |
| `Toggling.CollapseAlongVisible` | d3.chart.layout.hierarchy.js:478-484 | Every node reached through visible slots is found after collapse at the same indices through hidden slots. It is itself collapsed, so it has no visible children left. |
| `Toggling.ToggleAt` | d3.chart.layout.hierarchy.js:451-475 | A click on the node at a path succeeds exactly when the path leads to a node. The node there is replaced by its toggle, and the root keeps its identity. |
| `Toggling.ToggleAtTwice` | d3.chart.layout.hierarchy.js:451-475 | Clicking the same node twice restores the whole tree when that node had at most one slot present. |
| `Toggling.ToggleAtFrame` | d3.chart.layout.hierarchy.js:451-475 | A click leaves every node off the clicked node's path as it was. |
| `Toggling.ToggleAtAncestors` | d3.chart.layout.hierarchy.js:451-475 | A click changes each ancestor of the clicked node only in the one child entry the path passes through. Its identity, flags, depth, payload and other slot stay as they were. |
| `Toggling.ToggleAtKeepsIds` | d3.chart.layout.hierarchy.js:451-475 | A click preserves the tree's identity multiset. |
| `Walker.Walk` | src/hierarchy/hierarchy.js:42-55 | The walked node is the visitor's result, apart from the slot the chooser picks on that result. That slot has the same presence and length as before, with its nodes walked. When the chooser picks nothing, the walked node is exactly the visitor's result and only the root is visited. The root keeps its identity, and the visiting order starts with the root. |
| `Walker.WalkAt` | src/hierarchy/hierarchy.js:47-54 | Along any path the walk follows, the walked tree holds the node reached there, walked on its own. Each step follows the chooser's choice on the visited node. |
| `Walker.WalkSeq` | src/hierarchy/hierarchy.js:50-54 | The loop over the chosen array walks every element and keeps its length. |
| `Walker.WalkFrom` | src/hierarchy/hierarchy.js:42-46 | A missing root is a no-op with an empty visiting order. A present root is visited first. |
| `Walker.WalkSeqAt` | src/hierarchy/hierarchy.js:51-53 | The i-th walked child is the i-th child walked on its own. |
| `Walker.PreOrder` | src/hierarchy/hierarchy.js:42-55 | An independent pre-order of a tree along chosen slots. It starts at the root. |
| `Walker.WalkVisitsInPreOrder` | src/hierarchy/hierarchy.js:47-54 | The visiting order is the pre-order of the walked tree: each parent before its children, and children in index order. |
| `LeafMarking.MarkLeaf` | src/hierarchy/hierarchy.js:81 | `isLeaf` becomes true exactly when both slots are absent. Nothing else changes. |
| `LeafMarking.LeafChooser` | src/hierarchy/hierarchy.js:83-91 | The walk follows visible children when present and non-empty. Otherwise it follows hidden children when present and non-empty. Otherwise it stops, so an empty array stops the descent. |
| `LeafMarking.MarkLeaves` | src/hierarchy/hierarchy.js:77-92 | A missing root gives nothing. Otherwise the pass is the marking walk from the root. |
| `LeafMarking.Transform` | src/hierarchy/hierarchy.js:75-95 | `transform` returns its `nodes` argument unchanged. The tree it leaves behind is exactly the result of the leaf-marking pass from the root, and a missing root stays missing. |
| `LeafMarking.MarkLeavesOnlyFlags` | src/hierarchy/hierarchy.js:75-95 | Marking changes no slot, identity, depth or payload, only `isLeaf` flags. |
| `LeafMarking.ExclusiveFollows` | src/hierarchy/hierarchy.js:83-91 | In a tree with two-slot exclusivity, every path to a node is one the marking walk follows. |
| `LeafMarking.MarkLeavesExclusive` | src/hierarchy/hierarchy.js:75-95 | After marking a tree with two-slot exclusivity, every node is a leaf exactly when neither of its slots is present. |
| `LeafMarking.MarkLeavesAt` | d3.chart.layout.hierarchy.js:89-104 | Every node reached by the chooser, hidden subtrees included, gets `isLeaf` iff both its slots are absent. Every other node is left exactly as it was. |
| `CollapseOnInit.VisibleChooser` | d3.chart.layout.hierarchy.js:442-444 | The `collapse:init` walk follows only non-empty visible slots. |
| `CollapseOnInit.FoldAt` | d3.chart.layout.hierarchy.js:440 | The visitor collapses a node whose depth equals `maxDepth` and leaves every other node as it is. |
| `CollapseOnInit.CollapseInit` | d3.chart.layout.hierarchy.js:432-446 | With `maxDepth` undefined, or with no root, nothing changes. Otherwise the pass is the folding walk from the root. |
| `CollapseOnInit.FoldAlongVisible` | d3.chart.layout.hierarchy.js:436-445 | On visible paths from a subtree at depth d, nodes above depth k keep their identity, visible children and hidden slot. The node at depth k is collapsed. |
| `CollapseOnInit.FoldBounded` | d3.chart.layout.hierarchy.js:436-445 | After the walk, no visible path from depth d goes below depth k. |
| `CollapseOnInit.FoldNoMatch` | d3.chart.layout.hierarchy.js:440 | When k lies above the subtree, no depth matches and the subtree is unchanged. |
| `CollapseOnInit.FoldKeepsIds` | d3.chart.layout.hierarchy.js:436-445 | Under exclusivity the walk preserves the identity multiset. |
| `CollapseOnInit.CollapseInitAlongVisible` | d3.chart.layout.hierarchy.js:432-446 | With layout depths and `maxDepth` = k ≥ 0: nodes shallower than k keep their visible children. Every node at depth k reachable through visible slots ends with no visible children. |
| `CollapseOnInit.CollapseInitAtDepth` | d3.chart.layout.hierarchy.js:440 | With the layout's depths, every node reachable through visible slots whose `depth` equals `maxDepth` ends with no visible children. |
| `CollapseOnInit.CollapseInitBounded` | d3.chart.layout.hierarchy.js:432-446 | No node deeper than `maxDepth` remains reachable through visible slots. |
| `CollapseOnInit.CollapseInitNegative` | d3.chart.layout.hierarchy.js:440 | A negative `maxDepth` matches no node and the tree is unchanged. |
| `CollapseOnInit.CollapseInitKeepsIds` | d3.chart.layout.hierarchy.js:432-446 | `collapse:init` neither creates nor drops nodes under exclusivity. |
| `ChartOptions.Initial` | d3.chart.layout.hierarchy.js:23-38 | A new chart has name key `"name"`, value key `"value"`, duration 750 and no colours, so it uses the `category20c` scale. As a cluster tree it has radius 4.5 and levelGap `"auto"`. The diameter is the one passed in. The value accessor is not yet replaced, the layout's sort is its default, and there is no root. |
| `ChartOptions.Notify` | d3.chart.layout.hierarchy.js:43-51 | `change:value` installs the chart's value accessor. `change:colors` installs an ordinal scale over the current colours. Other events change nothing. No handler changes an option. |
| `ChartOptions.Stored` | d3.chart.layout.hierarchy.js:374-386 | For the radius key, `"_COUNT"` stores a fresh chart-made function. Every other value is stored as given. |
| `ChartOptions.Commit` | d3.chart.layout.hierarchy.js:118-125 | A setter that stores returns the chart. It stores the value (a fresh function for `radius("_COUNT")`) and changes no other option. It triggers `change:<key>`, then redraws only when a root exists. A `value` change hooks the value accessor and a `colors` change installs the ordinal scale. |
| `ChartOptions.Put` | d3.chart.layout.hierarchy.js:118 | Storing an option sets that option and changes no other. |
| `ChartOptions.GuardedSet` | d3.chart.layout.hierarchy.js:110-184 | With no argument the setter returns the stored option. With the stored value it returns `undefined` and changes nothing, with no trigger and no redraw. Otherwise it stores the value and changes no other option. It then triggers `change:<key>`, redraws only when a root exists, and returns the chart. |
| `ChartOptions.UnguardedSet` | src/hierarchy/hierarchy.js:98-160 | With no argument the setter returns the stored option. With an argument it always stores it and changes no other option. It triggers, redraws when a root exists, and returns the chart, even when the value is unchanged. |
| `ChartOptions.GuardedSetThenGet` | d3.chart.layout.hierarchy.js:110-126 | A getter call after a guarded set returns what was stored. |
| `ChartOptions.GuardedSetTwice` | d3.chart.layout.hierarchy.js:407-423 | A second identical guarded set returns `undefined` and has no effect. |
| `ChartOptions.GuardedSetKeepsRadiusInv` | d3.chart.layout.hierarchy.js:365-394 | No setter ever stores the string `"_COUNT"` as the radius. |
| `ChartOptions.CountRadiusNeverShortCircuits` | d3.chart.layout.hierarchy.js:370-394 | `radius("_COUNT")` is never stopped by the guard. It always stores a new function, triggers `change:radius`, and redraws iff a root exists. |
| `ChartOptions.GuardedVersusUnguarded` | src/hierarchy/hierarchy.js:98-111 | On name/value/colors/duration, the two setter styles agree on every new value. On the stored value only the unguarded one triggers, redraws and returns the chart. |
| `ChartOptions.ColorsInstallOrdinalScale` | d3.chart.layout.hierarchy.js:49-51 | Storing new colours replaces the scale by an ordinal scale over them. |
| `ChartOptions.EventNamesDistinct` | d3.chart.layout.hierarchy.js:120 | Each option key triggers its own event name. |
| `ChartOptions.OnlyOwnHandlerRuns` | d3.chart.layout.hierarchy.js:43-51 | A stored change to one option runs no other option's handler. Only a `value` change hooks the value accessor, and only a `colors` change replaces the colour scale. |
| `Accessors.ValueOf` | d3.chart.layout.hierarchy.js:44-46 | The installed value accessor gives 1 for the key `"_COUNT"`. Any other key reads the payload field of that name, or `undefined` when it is missing. |
| `Accessors.NodeValue` | d3.chart.layout.hierarchy.js:43-47 | The layout reads a node's value through the chart's accessor exactly when `change:value` has installed it. It then gets `ValueOf` of the stored value key. Before that the layout's own default applies, which is not modelled. |
| `Accessors.CountValueIsOne` | src/hierarchy/hierarchy.js:31-35 | Once the value key is set to `"_COUNT"`, every node's value is 1 whatever its payload. |
| `Accessors.KeyedValueReadsField` | d3.chart.layout.hierarchy.js:43-47 | With any other string key, a node's value is the payload field of that name, or `undefined` when the field is missing. |
| `Accessors.EqualValueKeyHooksOnlyWhenUnguarded` | d3.chart.layout.hierarchy.js:130-146 | Setting the value key to the stored key installs the accessor only in the unguarded version. |
| `Accessors.CountRadius` | d3.chart.layout.hierarchy.js:375-382 | With at most one slot present, the count radius is the node's number of children, or 1 for a leaf. A present `_children` decides it. A radius of 0 only comes from a present empty array. |
| `Accessors.CountRadiusIsChildCount` | d3.chart.layout.hierarchy.js:375-382 | With at most one slot present, the count radius is the node's number of children in either slot, or 1 for a leaf. |
| `Accessors.CountRadiusStableUnderToggle` | d3.chart.layout.hierarchy.js:375-382 | Toggling or collapsing a node leaves its count radius unchanged. |
| `Accessors.CountRadiusPrefersHidden` | d3.chart.layout.hierarchy.js:376-379 | With both slots present the hidden slot decides the radius, so toggling changes it. |
| `Accessors.RadiusAt` | d3.chart.layout.hierarchy.js:284-287 | A chart-made function gives the node's count radius. A number, string, boolean, `null` or `undefined` is the radius as stored. An object or user function is not modelled. |
| `Accessors.RadiusCountApplies` | d3.chart.layout.hierarchy.js:374-386 | After `radius("_COUNT")`, every node's circle radius is its count radius. |
| `Accessors.Property` | src/hierarchy/hierarchy.js:33 | `d[key]` reads the named payload field, or `undefined` when it is missing. |
| `Accessors.Sortable` | src/hierarchy/hierarchy.js:163-179 | `"_ASC"` selects ascending by name key and `"_DESC"` selects descending. Anything else is passed to the layout as the comparator. The call returns the chart and changes no option. |
| `Accessors.CompareSiblings` | d3.chart.layout.hierarchy.js:198-206 | Only the name-key comparators are modelled. Ascending gives -1 exactly when the first name is less, and descending exactly when it is greater. Both tie exactly on equal comparable names and give NaN on incomparable ones. |
| `Accessors.DescendingMirrorsAscending` | src/hierarchy/hierarchy.js:166-173 | The `"_DESC"` comparator orders two siblings as `"_ASC"` orders them swapped. |
| `Accessors.AscendingTiesOnlyOnEqualNames` | src/hierarchy/hierarchy.js:166-169 | The ascending comparator ties two siblings exactly when their names are equal numbers or strings. |
| `Accessors.ComparatorFollowsNameKey` | src/hierarchy/hierarchy.js:166-169 | The comparator reads the name key when it compares, so a later name change re-keys it. |
| `Js.Ascending` | src/hierarchy/hierarchy.js:168 | `d3.ascending` is -1 exactly when `a < b` and 1 exactly when `b < a`. It ties exactly on equal comparable values and is NaN exactly on incomparable ones. Strings compare by UTF-16 code unit. |
| `Js.StrictEqualsIsEquality` | d3.chart.layout.hierarchy.js:115 | On this value representation `===` is structural equality: numbers and strings by value, objects and functions by identity. |
| `Js.StrLess` | src/hierarchy/hierarchy.js:168 | String `<` compares UTF-16 code units. A string that is less is never equal, and the reverse comparison fails. The empty string is less than every other string. |
| `Js.Less` | src/hierarchy/hierarchy.js:168 | `a < b` holds only between two distinct numbers or two distinct strings. Numbers compare by value and strings by `StrLess`. |
| `Js.Utf16Injective` | src/hierarchy/hierarchy.js:168 | Distinct strings have distinct UTF-16 encodings, so comparing code units ties only on equal strings. |
| `Js.StrLessTrichotomy` | src/hierarchy/hierarchy.js:168 | JavaScript string `<` is a strict total order: exactly one of `a < b`, `a == b` or `b < a` holds. |
| `Js.AscendingByCodeUnit` | src/hierarchy/hierarchy.js:168 | A name with a character above U+FFFF sorts before one starting with U+E000, as JavaScript's code-unit comparison orders them, though its code point is larger. |
| `Js.AscendingTransitive` | src/hierarchy/hierarchy.js:168 | If `d3.ascending` puts a before b and b before c, it puts a before c. |
| `Js.Descending` | src/hierarchy/hierarchy.js:172 | `d3.descending` is `d3.ascending` reversed. |
| `Js.AscendingAntisymmetric` | src/hierarchy/hierarchy.js:168 | Swapping the arguments of `d3.ascending` reverses its result. |
| `Scenarios.ClickThenMark` | src/hierarchy/hierarchy.js:75-95 | Take root R with children A and B, where A has child C. After a click on A, the marking pass flags B and C as leaves and R and A as non-leaves. It visits R, A, C, B in that order. |
| `Scenarios.CollapseAtDepthOne` | d3.chart.layout.hierarchy.js:432-446 | `collapse:init` at depth 1 folds A, which hides C. It leaves B alone and keeps R expanded. |

## Left out

- SVG and DOM work is not modelled: the layers' enter/merge/exit handlers, text, classes, `_initNode`,
  transitions, zoom/pan (`zoomable`, `d3.event`) and `arcTween`. It is rendering and animation.
- The d3 layouts (tree, cluster, pack, partition, treemap) are not modelled. They are external library
  calls. This includes the cartesian/radial `transform` that calls the layout and then triggers
  `collapse:init`, and the layout's own default value accessor and sort order. `NodeValue` and
  `CompareSiblings` return `None` where those defaults or user functions would apply.
- Floating-point coordinate work is not modelled: the radial `separation`, the pack/partition/treemap zoom
  factors, the `transform:stash` copy, and margin and diameter pixel arithmetic. This also leaves out the
  `margin` setter and the `diameter` setters of pack.flattened, pack.nested and partition.arc, which store
  `value - 10`.
- `src/pack/pack.nested.js` and `src/pack/pack.flattened.js` are not part of this model. They configure
  the external pack layout and repeat option handling covered here.
- The event bus itself, the `_id` counter and `_internalUpdate` are framework plumbing. Effects are
  recorded as a list of `Trigger(event)` and `Draw`, and only the two handlers that touch modelled state
  are run.
- A setter's `Draw` effect is recorded but not carried out. A real redraw re-runs the layout and, unless a
  click started it, `collapse:init`. So a setter called with a root present collapses again a node at
  `maxDepth` that the user had expanded. The model does not compose setters with `CollapseInit`.
- Parent back-references and node objects shared between several places are not modelled. Trees are values.
- Numbers are Dafny reals. NaN and the infinities are not represented.
- `Js.Ascending`: covers only number/number and string/string comparisons. Other pairs, which JavaScript
  would coerce, are treated as incomparable (NaN).
- `Accessors.Property`: a non-string key reads `undefined`. JavaScript would convert it to a property
  name. Payload fields exclude the chart's own fields (`children`, `depth`, ...).
- `CollapseOnInit.CollapseInit`: `maxDepth` is an integer or undefined. JavaScript's loose `==` against a
  non-numeric `maxDepth` is not modelled.
- `Walker.Walk`: the visitor is an in-place update that keeps the node's identity and does not grow its
  subtree. Both visitors the chart passes are of this kind. Visitors that touch nodes outside the visited
  subtree are not modelled.
- `ChartOptions.Initial`: the radial tree's diameter, which the page size determines, is a parameter.
