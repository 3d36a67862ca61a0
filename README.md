# omio core, modelled in Dafny

This project models the virtual-DOM core of omio, a Preact-derived
component library, as compiled into one browser bundle
(`packages/omio/examples/simple/b.js`). It models:

- the hyperscript factory `h`, which flattens child arguments and merges
  adjacent text into one child;
- the keyed and unkeyed child reconciliation of `innerDiffNode`, with
  `isSameNodeType` and `isNamedNode`;
- the placement of the matched children into the parent's live child list
  (`appendChild`, `insertBefore`, `removeNode`);
- the tear-down of DOM subtrees: `recollectNodeTree`, `removeChildren` and
  `unmountComponent`;
- the attribute diff `diffAttributes` over the element's prop cache;
- the render queue (`enqueueRender`, `rerender`) and the mount queue
  (`mounts`, `flushMounts`);
- the per-constructor style names and the one-time injection of style
  sheets (`getCtorName`, `addStyleToHead`);
- the component recycling pool (`collectComponent`, `createComponent`);
- the component life cycle (`getNodeProps`, `setComponentProps`,
  `shallowComparison`, `renderComponent`, the `Component` constructor and
  its render callbacks);
- the helpers `classNames`, `extractClass` and `encodeEntities`;
- the observer's change filter (`isInArray`, `_getRootName` and the
  handler loop of `onPropertyChanged`).

JavaScript values are the datatype `JsValues.Value`, with functions,
objects and arrays carrying an identity so that `===` compares by
reference. JavaScript objects used as dictionaries (attributes, props, the
prop cache) are `map<string, Value>`. Live DOM nodes are natural-number
identities.

The parts of the source that change state step by step are imperative
Dafny. Each of them has a specification function and lemmas about it:

- `ParentNode` holds a live child list;
- `AttrCache` holds a prop cache;
- `RenderQueue` and `MountQueue` are the two queues;
- `StyleRegistry` holds the style cache and the static style mapping;
- `ComponentPool` is the recycling pool;
- `Component` is a component instance.

Calls the core makes into code outside it, such as `setAccessor` or a
component's `render`, are recorded as values the methods return
(`Call`, `Effect`, `Event`) or are taken as parameters.

Module by file:

| file | module | models |
|---|---|---|
| js_values.dfy | JsValues | values, truthiness, `==` and `===`, `String(n)`, `toLowerCase` |
| hyperscript.dfy | Hyperscript | `h` |
| node_match.dfy | NodeMatch | `isNamedNode`, `isSameNodeType`, the partition and match loops of `innerDiffNode` |
| child_diff.dfy | ChildDiff | the DOM child list and all of `innerDiffNode` |
| recycle.dfy | Recycle | `recollectNodeTree`, `removeChildren`, `unmountComponent` |
| attributes.dfy | Attributes | `diffAttributes` |
| scheduler.dfy | Scheduler | `enqueueRender`, `rerender`, `mounts`, `flushMounts` |
| styles.dfy | Styles | `getCtorName`, `addStyleToHead` |
| pool.dfy | Pool | `collectComponent`, `createComponent` |
| lifecycle.dfy | Lifecycle | `getNodeProps`, `setComponentProps`, `shallowComparison`, `renderComponent`, `Component` |
| helpers.dfy | Helpers | `classNames`, `extractClass`, `encodeEntities`, `isInArray`, `_getRootName`, `onPropertyChanged` |

## Model

| member | source | states |
|---|---|---|
| JsValues.Get | packages/omio/examples/simple/b.js:132 | reading an absent property gives `undefined`; a present one gives its value |
| JsValues.IntToString | packages/omio/examples/simple/b.js:113 | `String(n)` is non-empty and starts with `-` exactly when n is negative |
| JsValues.DigitsOfNat | packages/omio/examples/simple/b.js:113 | the decimal text of a natural number reads back as that number |
| JsValues.IntToStringInjective | packages/omio/examples/simple/b.js:113 | two different numbers never produce the same text child |
| JsValues.ToNumberOfIntToString | packages/omio/examples/simple/b.js:1362 | under `==`, the text of a number converts back to that number |
| JsValues.ToLower | packages/omio/examples/simple/b.js:404 | the result has the input's length; each ASCII capital becomes its small letter and every other character is kept, so non-ASCII letters are not folded (see Left out) |
| JsValues.ToLowerIdempotent | packages/omio/examples/simple/b.js:404 | lowering an already lowered name changes nothing |
| Hyperscript.H | packages/omio/examples/simple/b.js:91-138 | `h` keeps the node name and takes `key` from the attributes. Its children are the flattened child arguments, or `attributes.children` when there are none, run through the text-merging step. `children` is removed from the stored attributes only when it is not nullish. |
| Hyperscript.PushReversed | packages/omio/examples/simple/b.js:97-99 | pushing the arguments from last to first leaves the first on top of the stack |
| Hyperscript.InitialStack | packages/omio/examples/simple/b.js:97-103 | the stack built before the loop unfolds to the flattened inputs |
| Hyperscript.StackRestOfReverse | packages/omio/examples/simple/b.js:105-109 | an array pushed from its last element pops in its own order, so the stack loop flattens depth-first |
| Hyperscript.FlatHasNoArrays | packages/omio/examples/simple/b.js:105-109 | no array survives flattening, at any depth |
| Hyperscript.FlatAppend | packages/omio/examples/simple/b.js:105-109 | flattening distributes over concatenation |
| Hyperscript.FlatWithoutArrays | packages/omio/examples/simple/b.js:105-109 | children that contain no array are passed through flattening unchanged |
| Hyperscript.Step | packages/omio/examples/simple/b.js:110-125 | after each child, `lastSimple` is set only when the last stored child is text |
| Hyperscript.Collect | packages/omio/examples/simple/b.js:104-126 | the same holds when the whole loop ends |
| Hyperscript.ElementChildrenShape | packages/omio/examples/simple/b.js:110-125 | an element's children are text, functions, objects or vnodes; booleans, `null`, `undefined` and numbers have become text; no two text children are adjacent |
| Hyperscript.ComponentChildrenKept | packages/omio/examples/simple/b.js:110-112 | for a component, children are kept one for one, with booleans turned into `null` and nothing merged |
| Hyperscript.PrimitivesMerge | packages/omio/examples/simple/b.js:113-117 | a run of primitive children of an element becomes one text child, the concatenation of their texts |
| Hyperscript.TextCoalescingExample | packages/omio/examples/simple/b.js:91-138 | `h('div', null, 'a', 1, 'b')` has the single child `"a1b"` |
| NodeMatch.NamedNodeIgnoresCase | packages/omio/examples/simple/b.js:403-405 | the name test ignores ASCII case |
| NodeMatch.HydratingWidens | packages/omio/examples/simple/b.js:383-395 | hydration only widens the test: a node of the same type as a virtual child outside hydration still is during hydration |
| NodeMatch.SameTypeIgnoresTagCase | packages/omio/examples/simple/b.js:387-405 | two unmapped tag names that differ only in ASCII case match exactly the same live nodes, unless the node was created under one of the two spellings |
| NodeMatch.KeysOf | packages/omio/examples/simple/b.js:924-926 | each live child's key comes from its owner component, or else from its prop cache, and is absent when there are no vchildren |
| NodeMatch.EligibleOf | packages/omio/examples/simple/b.js:930 | which unkeyed live children are candidates for matching |
| NodeMatch.AvailableBelow | packages/omio/examples/simple/b.js:922-933 | every node still available for matching is one of the original children |
| NodeMatch.Partition | packages/omio/examples/simple/b.js:922-933 | the first loop builds exactly the state that filing the live children one by one gives |
| NodeMatch.PartitionFacts | packages/omio/examples/simple/b.js:922-933 | The complete partition meets the matching invariant, with `min` at 0 and `childrenLen` at the array length. The unkeyed array holds every eligible unkeyed child in order. Each key holds the last child carrying it. `keyedLen` is the number of keys plus the number of repeated keys. |
| NodeMatch.FilingValid | packages/omio/examples/simple/b.js:922-933 | the filed state meets the matching invariant |
| NodeMatch.FilingUnkeyed | packages/omio/examples/simple/b.js:930-931 | the unkeyed slots are exactly the eligible unkeyed children, in order |
| NodeMatch.FilingKeyed | packages/omio/examples/simple/b.js:927-929 | each key holds the last live child carrying it |
| NodeMatch.FilingCount | packages/omio/examples/simple/b.js:928 | `keyedLen` is the number of distinct keys plus the number of shadowed duplicates |
| NodeMatch.NoDuplicatesIffDistinct | packages/omio/examples/simple/b.js:927-929 | `keyedLen` equals the number of keyed entries exactly when the live keys are distinct |
| NodeMatch.PartitionAvailable | packages/omio/examples/simple/b.js:922-933 | the nodes offered for matching are exactly the filed ones |
| NodeMatch.ShadowedDuplicate | packages/omio/examples/simple/b.js:929 | a keyed child followed by another with the same key is never offered for matching |
| NodeMatch.MatchOne | packages/omio/examples/simple/b.js:941-961 | the lookup loop, which stops at the first fitting slot, returns the child and state of one matching turn |
| NodeMatch.FirstSlot | packages/omio/examples/simple/b.js:953-955 | the slot found is the first one from `j` below `childrenLen` that holds a node of the virtual child's type; none is found exactly when no such slot exists |
| NodeMatch.MatchStep | packages/omio/examples/simple/b.js:941-961 | one turn keeps every slot naming a live child and the slot array's length |
| NodeMatch.MatchStepKeyed | packages/omio/examples/simple/b.js:944-948 | A keyed virtual child takes the child filed under its key, if any, and that child carries the key. Only that child leaves the available set; with no match the state is unchanged. The invariant is kept. |
| NodeMatch.MatchStepUnkeyed | packages/omio/examples/simple/b.js:951-960 | An unkeyed virtual child finds a child exactly when some slot in `[min, childrenLen)` holds a node of its type. It takes the first such slot: no earlier slot holds one of its type. Only that child leaves the available set, and the invariant is kept. |
| NodeMatch.MatchStepAvailable | packages/omio/examples/simple/b.js:941-961 | either way, a turn keeps the invariant and removes from the available set exactly the child it returns |
| NodeMatch.MatchAll | packages/omio/examples/simple/b.js:937-961 | matching the first `n` virtual children gives one result each and keeps every slot naming a live child |
| NodeMatch.Matches | packages/omio/examples/simple/b.js:922-961 | every virtual child gets one result, the matcher starting from the complete partition |
| NodeMatch.MatchAllPrefix | packages/omio/examples/simple/b.js:937 | the children are matched in order: matching fewer virtual children gives a prefix of the results |
| NodeMatch.MatchAllAt | packages/omio/examples/simple/b.js:937-961 | virtual child `i` receives what one turn gives it in the state left by the children before it |
| NodeMatch.MatchNext | packages/omio/examples/simple/b.js:941-961 | the lookup for virtual child i returns a live child not matched before, or none, and extends the run of matching turns by one |
| NodeMatch.MatchTurn | packages/omio/examples/simple/b.js:937-961 | the child a turn returns is a live child not matched before, and the run grows by that turn |
| NodeMatch.MatchAllValid | packages/omio/examples/simple/b.js:937-961 | matching any number of virtual children keeps the matching invariant |
| NodeMatch.UseUp | packages/omio/examples/simple/b.js:941-961 | A node taken once is never offered again. Each node available at the start is either matched or still available. |
| NodeMatch.MatchAllAvailable | packages/omio/examples/simple/b.js:937-961 | across a whole run no child is matched twice, and each child available at the start is either matched or still available |
| NodeMatch.KeyedStep | packages/omio/examples/simple/b.js:944-948 | a turn empties the entry of the key its virtual child carries, and no other entry |
| NodeMatch.KeyedAfter | packages/omio/examples/simple/b.js:944-948 | a key stays filed as partitioned until a virtual child carrying it comes by, and is empty from then on |
| NodeMatch.CarriesStep | packages/omio/examples/simple/b.js:942 | one of the first `n` virtual children carries a key exactly when one of the first `n - 1` does or the `n`th does |
| NodeMatch.SlotsAfter | packages/omio/examples/simple/b.js:953-958 | after any number of turns, an unkeyed slot is empty exactly when the child it held was matched |
| NodeMatch.SlotsStep | packages/omio/examples/simple/b.js:953-958 | a turn clears the slot of the child it returns and no other |
| NodeMatch.MatchedKeyed | packages/omio/examples/simple/b.js:944-948 | a keyed virtual child receives the child filed under its key, unless an earlier virtual child carried the same key, in which case it receives nothing |
| NodeMatch.OpenFitBefore | packages/omio/examples/simple/b.js:951-955 | in the state left by the earlier virtual children, a slot holds a node of the wanted type exactly when its child is unmatched and of that type |
| NodeMatch.MatchedUnkeyed | packages/omio/examples/simple/b.js:951-960 | an unkeyed virtual child receives the child in the first slot that is unmatched and of its type, and nothing exactly when there is none |
| NodeMatch.KeyedMatch | packages/omio/examples/simple/b.js:922-961 | A keyed virtual child that repeats an earlier key receives nothing. Any other receives a child exactly when some live child carries its key, and then it gets the last such child. |
| NodeMatch.UnkeyedMatch | packages/omio/examples/simple/b.js:922-961 | An unkeyed virtual child receives a child exactly when some spare live child has its type. It gets the lowest such child: spare means unkeyed, eligible and not matched to an earlier virtual child. |
| NodeMatch.SpareFromSlots | packages/omio/examples/simple/b.js:930-955 | the first unmatched fitting slot of the complete partition holds the lowest spare child of the wanted type |
| NodeMatch.SlotOfSpare | packages/omio/examples/simple/b.js:930-931 | every spare child sits in exactly one unkeyed slot, and the slots are in increasing order of live index |
| NodeMatch.OpenFitSpare | packages/omio/examples/simple/b.js:930-955 | a slot of the complete partition is an unmatched fit exactly when its child is spare and of the wanted type |
| NodeMatch.ReorderExample | packages/omio/examples/simple/b.js:922-961 | live children keyed `a`, `b`, `c` matched against virtual children keyed `c`, `a`, `b` are found by key: the results are live children 2, 0 and 1 |
| NodeMatch.KeyedConsumed | packages/omio/examples/simple/b.js:944-948 | taking a keyed node removes just that node and keeps the invariant |
| NodeMatch.SlotConsumed | packages/omio/examples/simple/b.js:953-958 | taking an unkeyed slot, with the `childrenLen` and `min` updates, removes just that node and keeps the invariant |
| NodeMatch.KeyedLenCounts | packages/omio/examples/simple/b.js:944 | while a keyed node is available, `keyedLen` is positive, so the guard never hides a filed key |
| NodeMatch.MinPassesChildrenLen | packages/omio/examples/simple/b.js:956-957 | taking the last remaining slot can leave `min` one past `childrenLen` |
| NodeMatch.Leftovers | packages/omio/examples/simple/b.js:979-989 | the leftovers handed to recycling are exactly the unmatched filed nodes, each once |
| ChildDiff.Without | packages/omio/examples/simple/b.js:482-485 | removing a node keeps all the others |
| ChildDiff.WithoutNoDuplicates | packages/omio/examples/simple/b.js:482-485 | removing a node keeps a child list free of duplicates |
| ChildDiff.WithoutKeepsPrefix | packages/omio/examples/simple/b.js:482-485 | removing a node that is not among the first k children keeps those k |
| ChildDiff.IndexOf | packages/omio/examples/simple/b.js:973 | the reference node's position is its first occurrence |
| ChildDiff.ParentNode.constructor | packages/omio/examples/simple/b.js:907 | a parent starts with the given child list |
| ChildDiff.ParentNode.AppendChild | packages/omio/examples/simple/b.js:969 | `appendChild` moves the node to the end |
| ChildDiff.ParentNode.InsertBefore | packages/omio/examples/simple/b.js:973 | `insertBefore` moves the node just before the reference node |
| ChildDiff.ParentNode.RemoveNode | packages/omio/examples/simple/b.js:482-485 | `removeNode` detaches the node and keeps the others in order |
| ChildDiff.ParentNode.ReplaceChild | packages/omio/examples/simple/b.js:1471 | `replaceChild` puts a node not yet among the children in the old node's place |
| ChildDiff.ParentNode.Place | packages/omio/examples/simple/b.js:966-975 | Each matched child ends up at position i, with the earlier children unchanged. The only original node that can leave the list is the one at i, when the child was next after it. The new list is the one the three branches (append, remove the node at i, insert before it) give. |
| ChildDiff.ParentNode.InnerDiffNode | packages/omio/examples/simple/b.js:906-990 | Each virtual child is matched with the live child `Matches` gives: by key, else the first spare node of its type. The first `vlen` live children are the reconciled children in order. Each is the matched node when `idiff` kept it, else the fresh node `idiff` gave: in the matched node's place, or after unmounting the component owning the matched node, which detaches it. No node is matched twice. The filed nodes are exactly those matched or recycled. Every recycled node, and every matched node `idiff` did not keep, is detached. The remaining live children are original, unmatched nodes. The whole list is `Layout`, the placements of b.js:966-975 turn by turn, with the recycled nodes then detached in order. |
| ChildDiff.ParentNode.MatchAndPlace | packages/omio/examples/simple/b.js:936-977 | the matches and final state are those of matching every virtual child in order. The list is exactly `Layout`, the placements turn by turn. Every reconciled child is placed in order at the front, and every matched node `idiff` did not keep is detached. |
| ChildDiff.ParentNode.PlaceAll | packages/omio/examples/simple/b.js:936-977 | the loop over the virtual children: its matches and final state are those of `MatchAll` over all of them. Every node handed back is the reconciled outcome of its child, placed in order at the front of the list. The list is exactly `Layout` of all the turns, keeps no duplicates, and no longer holds a matched node `idiff` did not keep. |
| ChildDiff.ParentNode.Turn | packages/omio/examples/simple/b.js:937-975 | one pass of that loop: virtual child i gets a live child not matched before, or none, and the run of matches grows by that turn. The node handed back is the child's outcome, placed at position i, and the list becomes `Layout` of one more turn. |
| ChildDiff.ParentNode.PlaceTurn | packages/omio/examples/simple/b.js:964-975 | the child placed for a virtual child is its reconciled outcome. The list becomes `Layout` of one more turn, the placed prefix grows by the child, and the matched nodes not kept, this one included, stay detached. |
| ChildDiff.ParentNode.PlaceOne | packages/omio/examples/simple/b.js:966-975 | the matched node `idiff` did not keep is replaced in place by the fresh node (b.js:1471) or detached by the unmount (b.js:1591), and it is no longer in the list. Then the node is placed at i, extending the placed prefix. The new list is exactly `Placed(Prepared(old list))`, and it holds no node but the old ones and the child. |
| ChildDiff.ParentNode.RecycleLeftovers | packages/omio/examples/simple/b.js:979-989 | every unmatched filed node is recycled and leaves the list; the placed prefix stays; the new list is the old one with the recycled nodes detached in order |
| ChildDiff.ParentNode.DetachAll | packages/omio/examples/simple/b.js:1004-1008 | detaching a sequence of nodes removes exactly those, one after another (`WithoutAll`) |
| ChildDiff.ParentNode.RecycleRest | packages/omio/examples/simple/b.js:979-989 | after the second loop, exactly the children still available are recycled. The final list is `Layout` with them detached; the placed nodes stay in front; the recycled nodes and the matched nodes `idiff` did not keep are gone |
| ChildDiff.ProducedGrows | packages/omio/examples/simple/b.js:964 | each vchild contributes its outcome to the results in order |
| ChildDiff.NotPlacedYet | packages/omio/examples/simple/b.js:964-967 | a newly matched or created node is not yet among the placed children |
| ChildDiff.AppendPlaces | packages/omio/examples/simple/b.js:968-969 | appending after the last original child places the child at i |
| ChildDiff.RemovePlaces | packages/omio/examples/simple/b.js:970-971 | removing `f` when the child is next after it places the child at i |
| ChildDiff.InsertPlaces | packages/omio/examples/simple/b.js:972-973 | inserting before `f` places the child at i |
| ChildDiff.ReplacePlaces | packages/omio/examples/simple/b.js:1471 | replacing a node keeps the list duplicate-free and its prefix intact |
| ChildDiff.UnmountedPlacementExample | packages/omio/examples/simple/b.js:962-975 | with children `[1, 2, 3]`, a fresh node 9 for a virtual child matched with node 2 at i = 0 gives `[9, 1, 3]` when the unmount detached node 2, and `[9, 3]` when node 9 replaced node 2 in place |
| ChildDiff.LayoutExamples | packages/omio/examples/simple/b.js:962-975 | over the whole loop, `[1, 2, 3]` with one child matched with node 2 and unmounted becomes `[9, 1, 3]`. `[1, 2]` with one child keeping node 2 becomes `[2]`: node 1, matched by nobody, is removed because node 2 came right after it (b.js:970-971) |
| Recycle.Recollect | packages/omio/examples/simple/b.js:996-1012 | `recollectNodeTree` produces the effect log its specification function gives |
| Recycle.UnmountComponent | packages/omio/examples/simple/b.js:1571-1598 | `unmountComponent` produces the effect log its specification function gives, descending through higher-order components to the base |
| Recycle.RemoveChildren | packages/omio/examples/simple/b.js:1018-1025 | `removeChildren` recollects the children from last to first, unmount-only |
| Recycle.DetachedNodes | packages/omio/examples/simple/b.js:996-1025 | The nodes removed from the DOM are these: the root, unless unmount-only on a cached plain node; and exactly those descendants that have no prop cache or are some component's base. |
| Recycle.UnmountDetached | packages/omio/examples/simple/b.js:1584-1595 | unmounting a component detaches its base and the same descendants |
| Recycle.ChildrenDetached | packages/omio/examples/simple/b.js:1018-1025 | removing children detaches exactly the uncached or component-base descendants |
| Recycle.RefsCleared | packages/omio/examples/simple/b.js:1004 | a null ref is applied to exactly the cached nodes of the tree |
| Recycle.UnmountRefsCleared | packages/omio/examples/simple/b.js:1587 | the same holds when the tree is torn down from a component |
| Recycle.ChildrenRefsCleared | packages/omio/examples/simple/b.js:1018-1025 | the same holds for a list of children |
| Recycle.ComponentsUnmounted | packages/omio/examples/simple/b.js:997-1000 | every component owning a node of the tree is unmounted |
| Recycle.UnmountUnmounted | packages/omio/examples/simple/b.js:1583-1585 | unmounting unmounts the whole higher-order chain and every component below |
| Recycle.ChildrenUnmounted | packages/omio/examples/simple/b.js:1018-1025 | removing children unmounts every component that owns one of them |
| Recycle.DetachedAtMostOnce | packages/omio/examples/simple/b.js:996-1025 | counted with multiplicity, the nodes detached are among the tree's nodes |
| Recycle.UnmountDetachedAtMostOnce | packages/omio/examples/simple/b.js:1571-1598 | the same bound holds when tearing down from a component |
| Recycle.ChildrenDetachedAtMostOnce | packages/omio/examples/simple/b.js:1018-1025 | the same bound holds for a list of children |
| Recycle.DetachedOnce | packages/omio/examples/simple/b.js:996-1025 | in a tree of distinct nodes, no node is detached twice |
| Attributes.Cleared | packages/omio/examples/simple/b.js:1036-1040 | clearing stale attributes keeps the cache's names |
| Attributes.DiffOutcome | packages/omio/examples/simple/b.js:1032-1048 | An attribute absent from the new set, or from a missing set, stays in the cache. It is cleared to `undefined` unless its cached value is already nullish, in which case that value is kept. Every other new attribute except `children`, `innerHTML`, `value` and `checked` ends up `===` its new value, nullish or not. |
| Attributes.StrictEqualsSymmetric | packages/omio/examples/simple/b.js:1044 | the `!==` test does not depend on the order of its operands |
| Attributes.UnchangedNotTouched | packages/omio/examples/simple/b.js:1036-1047 | an attribute whose cached value is `===` its new value, nullish or not, gets no `setAccessor` call and keeps its cached value |
| Attributes.DiffIdempotent | packages/omio/examples/simple/b.js:1032-1048 | diffing the same attributes a second time makes no calls and leaves the cache as it is |
| Attributes.NullWrittenTwice | packages/omio/examples/simple/b.js:1037-1045 | an attribute newly given `null` is cleared to `undefined` and then written `null`, in two calls |
| Attributes.AttrCache.constructor | packages/omio/examples/simple/b.js:1032 | the prop cache starts as given |
| Attributes.AttrCache.DiffAttributes | packages/omio/examples/simple/b.js:1032-1048 | the cache becomes the diffed cache, and the `setAccessor` calls are exactly the specified clears and writes, one per name |
| Attributes.AttrCache.ClearStale | packages/omio/examples/simple/b.js:1036-1040 | the first loop clears exactly the stale, non-nullish names, one call each |
| Attributes.AttrCache.ApplyNew | packages/omio/examples/simple/b.js:1043-1047 | the second loop writes exactly the new or changed names, one call each, comparing `value` and `checked` with the element |
| Attributes.ClearStep | packages/omio/examples/simple/b.js:1036-1040 | each name is cleared at most once and keeps its value until its turn |
| Attributes.ClearedAll | packages/omio/examples/simple/b.js:1036-1040 | once every name has been visited, the cache and calls are the specified ones, whatever the visiting order |
| Attributes.Record | packages/omio/examples/simple/b.js:1038 | recording one call per visited name keeps the call names distinct |
| Attributes.AppliedStep | packages/omio/examples/simple/b.js:1043-1047 | a name not yet visited is compared with its value from before the loop |
| Attributes.CacheStep | packages/omio/examples/simple/b.js:1045 | visiting one name writes at most that name |
| Attributes.CallsStep | packages/omio/examples/simple/b.js:1045 | visiting one name adds at most its own call |
| Attributes.AppliedAll | packages/omio/examples/simple/b.js:1043-1047 | once every new name has been visited, the cache and calls are the specified ones, whatever the visiting order |
| Styles.StyleName | packages/omio/examples/simple/b.js:629 | generated style names are `s` followed by digits |
| Styles.StyleNameInjective | packages/omio/examples/simple/b.js:629-631 | different counter values give different style names |
| Styles.StyleRegistry.constructor | packages/omio/examples/simple/b.js:31-35 | the style cache and static mapping start empty |
| Styles.StyleRegistry.GetCtorName | packages/omio/examples/simple/b.js:620-634 | A constructor seen before gets its recorded name back and nothing changes. A new one gets `s<styleId>`, appended to the cache. Each constructor keeps a single entry. |
| Styles.StyleRegistry.AddStyleToHead | packages/omio/examples/simple/b.js:710-720 | a sheet is injected for a name only the first time that name is seen, scoped or not, and the name is then recorded |
| Styles.CtorNamesDistinct | packages/omio/examples/simple/b.js:620-634 | no two cache entries share a style name |
| Scheduler.RenderQueue.constructor | packages/omio/examples/simple/b.js:358 | the render queue starts empty |
| Scheduler.RenderQueue.EnqueueRender | packages/omio/examples/simple/b.js:360-364 | a component is appended, and a rerender is scheduled exactly when the queue was empty |
| Scheduler.RenderQueue.EnqueueAll | packages/omio/examples/simple/b.js:360-364 | enqueuing several components appends them in order, and schedules one rerender exactly when the queue was empty and something was enqueued |
| Scheduler.RenderQueue.Rerender | packages/omio/examples/simple/b.js:367-372 | The queue is drained from its end until it is empty, including components enqueued while rendering. One further rerender is scheduled each time a render enqueues into the queue it has just emptied. |
| Scheduler.FlushSchedulesBound | packages/omio/examples/simple/b.js:360-372 | a flush schedules at most one further rerender per render that enqueues something |
| Scheduler.QuietFlushSchedulesNothing | packages/omio/examples/simple/b.js:360-372 | a flush whose renders enqueue nothing schedules no further rerender |
| Scheduler.RenderOrderRendersAll | packages/omio/examples/simple/b.js:367-372 | each enqueued component, and each one enqueued during the drain, is rendered once per enqueue |
| Scheduler.RenderOrderWithoutSpawns | packages/omio/examples/simple/b.js:369 | without re-enqueuing, the queue renders in reverse order of enqueuing |
| Scheduler.RenderedTwice | packages/omio/examples/simple/b.js:360-372 | a component enqueued again while rendering is rendered twice, because the queue does not deduplicate |
| Scheduler.Ids | packages/omio/examples/simple/b.js:758 | the mounted components, in order |
| Scheduler.StaysRegistered | packages/omio/examples/simple/b.js:758-763 | a style registered for an earlier mount with truthy CSS stays registered |
| Scheduler.MountQueue.constructor | packages/omio/examples/simple/b.js:744 | the mount queue starts empty |
| Scheduler.MountQueue.Unshift | packages/omio/examples/simple/b.js:1497 | a newly mounted component goes to the front |
| Scheduler.MountQueue.FlushMounts | packages/omio/examples/simple/b.js:756-765 | Mounts are installed from the back of the queue, so in the order they were queued, and the queue ends empty. Every mounted component whose CSS is truthy (present and non-empty) has its style registered. |
| Pool.LastMatch | packages/omio/examples/simple/b.js:1077-1083 | the search from the end finds the last pooled instance of the same constructor, or reports that there is none |
| Pool.TakeExact | packages/omio/examples/simple/b.js:1063-1084 | Taking from the pool returns an instance of exactly the requested constructor, if any. Only that name's list changes, and it loses just that instance. |
| Pool.CollectThenTake | packages/omio/examples/simple/b.js:1057-1084 | a collected component is the one taken back next, and the pool returns to its previous state |
| Pool.SharedNameNotConfused | packages/omio/examples/simple/b.js:1078 | a pooled instance of another constructor with the same name is never reused |
| Pool.ComponentPool.constructor | packages/omio/examples/simple/b.js:1054 | the pool starts empty |
| Pool.ComponentPool.CollectComponent | packages/omio/examples/simple/b.js:1057-1059 | a collected component is appended to the list for its constructor's name |
| Pool.ComponentPool.CreateComponent | packages/omio/examples/simple/b.js:1062-1086 | The new instance has the constructor, and its own render exactly when the constructor has one. It takes the vnode's `css`. It inherits `nextBase` from the pooled instance it replaces, which leaves the pool. |
| Lifecycle.FillDefaults | packages/omio/examples/simple/b.js:420-426 | a default is used only where the prop is `undefined` |
| Lifecycle.GetNodeProps | packages/omio/examples/simple/b.js:415-429 | props are the vnode's attributes plus its children, with the constructor's defaults filling only the undefined ones |
| Lifecycle.FillDefaultsIdempotent | packages/omio/examples/simple/b.js:420-426 | filling defaults twice changes nothing |
| Lifecycle.ShallowComparison | packages/omio/examples/simple/b.js:1344-1367 | the loops report a difference exactly when the specification predicate does |
| Lifecycle.SamePrimitivePropsDoNotDiffer | packages/omio/examples/simple/b.js:1344-1367 | childless props holding only primitives do not differ from themselves |
| Lifecycle.LooseEqualsReflexive | packages/omio/examples/simple/b.js:1362 | `==` on a primitive is reflexive |
| Lifecycle.ObjectPropAlwaysDiffers | packages/omio/examples/simple/b.js:1359-1361 | a new prop that is an object, function or `null` always counts as a change |
| Lifecycle.LooseEqualityHidesTypeChange | packages/omio/examples/simple/b.js:1362 | changing a prop from `"1"` to `1` is not seen as a change |
| Lifecycle.StripRefKey | packages/omio/examples/simple/b.js:1310-1311 | `ref` and `key` are removed from the props exactly when they are truthy; the rest is kept |
| Lifecycle.Dispatch | packages/omio/examples/simple/b.js:1333-1339 | `NO_RENDER` renders nothing. A mounted component is enqueued exactly when `syncComponentUpdates` is `false` and the mode is not `SYNC_RENDER`. Otherwise it renders synchronously. |
| Lifecycle.Component.constructor | packages/omio/examples/simple/b.js:1607-1616 | a new component starts unmounted, enabled, with no previous state and no pending callbacks |
| Lifecycle.Component.SetComponentProps | packages/omio/examples/simple/b.js:1306-1342 | A disabled component is left alone. Otherwise the new props (less a truthy ref and key) are installed. The previous props and context are remembered once. The install or receive hooks fire, then the render mode and the ref. |
| Lifecycle.Component.AcceptProps | packages/omio/examples/simple/b.js:1308-1341 | the enabled case of `setComponentProps` |
| Lifecycle.Component.AdoptContext | packages/omio/examples/simple/b.js:1323-1326 | a new truthy context replaces the old one, which is remembered if none was |
| Lifecycle.Component.RenderComponent | packages/omio/examples/simple/b.js:1375-1521 | A disabled component is left alone. An update is skipped exactly when there is no store, no `FORCE_RENDER` and no shallow difference. New mounts are queued at the front. The previous-state fields are cleared, while props, state, context, `_disable`, `__ref` and `__key` are kept. `beforeUpdate`, `render` and `updated` fire as specified, then the render callbacks from last to first. |
| Lifecycle.Component.ShouldSkip | packages/omio/examples/simple/b.js:1394-1405 | the skip decision is the specification's |
| Lifecycle.Component.DrainRenderCallbacks | packages/omio/examples/simple/b.js:1514-1518 | the callbacks are called from the last registered to the first, the list ends empty, and no other field changes |
| Lifecycle.CallbacksOf | packages/omio/examples/simple/b.js:1516 | each callback becomes one event, in order |
| Lifecycle.ChangedPropRenders | packages/omio/examples/simple/b.js:1357-1365 | an update in which some prop other than `children` now holds a primitive not `==` its previous value is never skipped |
| Lifecycle.DroppedPropRenders | packages/omio/examples/simple/b.js:1347-1351 | an update in which a prop that held a value is now missing is never skipped |
| Lifecycle.SamePropsSkip | packages/omio/examples/simple/b.js:1394-1405 | an update with the same childless, primitive props is skipped |
| Helpers.Join | packages/omio/examples/simple/b.js:1735 | joining nothing gives the empty string; joining one item gives that item |
| Helpers.JoinAppend | packages/omio/examples/simple/b.js:1735 | joining two lists is joining each, with the separator between them |
| Helpers.TruthyKeys | packages/omio/examples/simple/b.js:1726-1731 | an object contributes only keys whose values are truthy |
| Helpers.ClassesAppend | packages/omio/examples/simple/b.js:1713-1733 | the classes of concatenated arguments are the concatenated classes |
| Helpers.FalsyArgumentIgnored | packages/omio/examples/simple/b.js:1715 | a falsy argument contributes nothing |
| Helpers.NestedArrayFlattens | packages/omio/examples/simple/b.js:1721-1725 | a non-empty nested array contributes its own class names in place |
| Helpers.ClassNamesExample | packages/omio/examples/simple/b.js:1710-1736 | `classNames('a', {b: true, c: false}, ['d', null], 0, 7)` is `"a b d 7"` |
| Helpers.ExtractClass | packages/omio/examples/simple/b.js:1738-1755 | a class object is returned exactly when arguments remain or the props have a truthy `class` or `className`; without props, nothing is removed |
| Helpers.ClassBeforeClassName | packages/omio/examples/simple/b.js:1744-1750 | a truthy `class` wins over `className`: only `class` is removed and put first |
| Helpers.ReplaceAll | packages/omio/examples/simple/b.js:1780 | a global replace leaves no occurrence of the replaced character and adds nothing else |
| Helpers.EncodeEntities | packages/omio/examples/simple/b.js:1779-1781 | encoded text contains no `<`, `>` or `"` |
| Helpers.ReplaceAllAppend | packages/omio/examples/simple/b.js:1780 | a global replace works piece by piece |
| Helpers.EncodeIsPerCharacter | packages/omio/examples/simple/b.js:1779-1781 | the four chained replaces escape each character on its own, with `&` escaped first |
| Helpers.EscapeOne | packages/omio/examples/simple/b.js:1780 | on a single character the chained replaces give its escape |
| Helpers.ReplaceAllFree | packages/omio/examples/simple/b.js:1780 | replacing a character that does not occur changes nothing |
| Helpers.EncodeDecode | packages/omio/examples/simple/b.js:1779-1781 | decoding the four entities recovers the original text |
| Helpers.DecodeEscaped | packages/omio/examples/simple/b.js:1779-1781 | the escaping is reversible character by character |
| Helpers.Split | packages/omio/examples/simple/b.js:1243 | `split` yields at least one part and no part contains the separator |
| Helpers.SplitJoin | packages/omio/examples/simple/b.js:1243 | joining the parts with the separator restores the path |
| Helpers.GetRootName | packages/omio/examples/simple/b.js:1239-1244 | at the root path the prop is its own root name; any other root name found contains no `-` |
| Helpers.RootOfNestedPath | packages/omio/examples/simple/b.js:1239-1244 | for a path `#-root-...` the root name is `root` |
| Helpers.IsInArray | packages/omio/examples/simple/b.js:1228-1233 | found exactly when some element is `===` the item |
| Helpers.CombineShift | packages/omio/examples/simple/b.js:1140-1145 | collecting listeners can be regrouped step by step |
| Helpers.NotifyHandlers | packages/omio/examples/simple/b.js:1137-1146 | An unchanged value calls no handler. Otherwise the handlers called are the listeners, in order. The loop throws exactly when some handler's test reaches `indexOf` on a missing root name. |
| Helpers.AllHandlersHear | packages/omio/examples/simple/b.js:1142 | a handler registered for all changes is always called |
| Helpers.ListenersFrom | packages/omio/examples/simple/b.js:1140-1145 | the same holds from any starting handler |

## Notes on the source

Where the behaviour described for the library and the code differ, the
model follows the code:

- **Mount order.** `renderComponent` queues new mounts with `unshift` and
  `flushMounts` takes them with `pop`, so `installed` runs in the order
  the components were queued.
- **Render callbacks.** `_renderCallbacks` are drained with `pop`, from the
  last registered to the first.
- **`attributes.children` in `h`.** It is used and deleted only when it
  is not nullish. A `children: null` stays in the stored attributes.
- **Duplicate keys.** When two live children share a key, `keyedLen`
  counts both, but only the later one is filed. The earlier one is never
  matched and never recycled (`NodeMatch.FilingCount`, `NodeMatch.ShadowedDuplicate`).
- **`min` and `childrenLen`.** Taking the last remaining unkeyed slot can
  leave `min` one past `childrenLen` (`NodeMatch.MinPassesChildrenLen`).
  The cleanup loop `while (min <= childrenLen)` then does nothing, which
  is harmless.
- **Attributes set to `null`.** An attribute whose new value is `null`
  gets two `setAccessor` calls: first a clear to `undefined`, then a write
  of `null` (`Attributes.NullWrittenTwice`).
- **The render queue.** It does not deduplicate: a component enqueued
  twice renders twice (`Scheduler.RenderedTwice`).
- **`shallowComparison`.** It compares primitive props with `==`, so a
  prop that changes from `"1"` to `1` does not cause a re-render
  (`Lifecycle.LooseEqualityHidesTypeChange`). When no difference is found
  it returns `undefined`, which the model reads as `false`.
- **`onPropertyChanged`.** When the path has no second segment, the root
  name is `undefined`. The filter then throws on `rootName.indexOf`,
  unless a handler listens to all changes or lists `undefined`. The model
  reports this as `threw`.

## Left out

- `setAccessor` and the DOM writes it makes (events, styles, SVG, `innerHTML`) are not modelled. `diffAttributes` records each call as a `Call` value instead.
- `idiff`, `diff`, `buildComponentFromVNode` and the rest of the recursive element diff are not modelled. `innerDiffNode` takes the outcome of `idiff` for each vchild as parameters (`effects`, `created`), and `renderComponent` takes the new base as `newBase`. The outcome is one of three effects: the node was kept; it was replaced in place; or its component was unmounted, which detaches it.
- `ChildDiff.ParentNode.InnerDiffNode`: every node `idiff` creates is taken to be fresh, in neither the original children nor the other created nodes. `createComponent` can hand back a pooled `nextBase` (packages/omio/examples/simple/b.js:1063-1084), such as the base of a component unmounted earlier in the same pass. That reuse is not modelled.
- `ChildDiff.ParentNode.InnerDiffNode`: every virtual child must be non-nullish, and the same requirement sits on `MatchAndPlace`, `PlaceAll`, `Turn` and the matcher (`NodeMatch.VKey`, `NodeMatch.IsSameNodeType`, `NodeMatch.MatchAll`, `NodeMatch.Matches`). In the source a `null` or `undefined` virtual child makes `vchild.key` (packages/omio/examples/simple/b.js:942) throw a `TypeError` part-way through the second loop. Such a child can get there when `diff` wraps an array vnode in a `span` (b.js:784-789), because those children skip the `null`-to-`''` conversion of `h` (b.js:113). The throw, and the partly placed list it leaves behind, are not modelled.
- `Lifecycle.Component.constructor`: `props` and `data` are parameters. The source computes them as `assign(nProps(ctor.props), ctor.defaultProps, props)` and `ctor.data || this.data || {}` (packages/omio/examples/simple/b.js:1610-1612). `nProps` and the prototype lookup are not modelled.
- Component `render` and the user hooks (`install`, `beforeUpdate`, `updated`, `receiveProps`, `uninstall`, `options.afterMount` and the like) are foreign code. They appear as `Event` values in the order the source calls them, and their effects are not modelled.
- `options.vnode`, `options.beforeUnmount`, `options.afterUpdate` and `options.componentChange` hooks are not modelled.
- The scheduling of `rerender` through `defer` or `options.debounceRendering` is asynchronous. The model counts the scheduled rerenders (`scheduled`) instead of running them.
- `rerender` re-enqueues made by rendering are taken as a parameter (`script`). The rendering itself is not modelled.
- The `diffLevel` condition under which `renderComponent` calls `flushMounts` is not modelled. `FlushMounts` is a separate operation.
- CSS handling is not modelled: `scoper`, `parseCSSText`, `rpx`, the `<style>` element I/O of `addStyle`, and `addScopedAttrStatic`. A sheet injection is recorded as an `Injection` value. A `css` given as a function is not modelled; it is taken as a string.
- The `obaa` observer's accessor installation, the array method mocking, `watch` and `proxyUpdate` are not modelled. Only the change filter of `onPropertyChanged` is.
- `renderToString` is not modelled, apart from its `encodeEntities` helper.
- `String(x)` is modelled for numbers only. Objects' `toString`, floating-point numbers and `NaN` are not modelled: numbers are integers.
- `==` between a primitive and an object would call the object's conversion methods; the model treats that comparison as unequal.
- Inherited (prototype) properties are not modelled. Every property is an own property.
- The order of `for...in` is not modelled. The loops over maps visit names in an arbitrary order, and every contract holds for any order.
- `classNames` objects keep their key order as a sequence of fields.
- The `Object.assign`/`extend` polyfills, `cloneElement`, `render`, `define`, `createRef`, `getHost` and `Component.prototype.fire`/`update` are outside the modelled core.
- `Helpers.GetRootName`: it does not state the value of the second segment for every path. `Helpers.RootOfNestedPath` states it for paths of the form `#-root-...`.
- `Scheduler.MountQueue.FlushMounts`: it states that each mounted component's style is registered, but not the exact injected sheets. `Styles.StyleRegistry.AddStyleToHead` states those.
- `JsValues.ToLower`: ASCII case folding only. JavaScript's `toLowerCase` also lowers non-ASCII capitals (such as `Ä`), which the model keeps as they are, because Unicode case tables are not modelled.
- `Hyperscript.H`: the flattening in `h` (packages/omio/examples/simple/b.js:105) treats any truthy child that has a `pop` property as an array, including array-like objects and objects with a `pop` method. The model flattens arrays (`Arr`) only, because objects carry no methods here.
- `JsValues.StrictEquals`: virtual nodes (`Node` values) compare by value, while `===` compares vnode objects by identity. For a vnode-valued attribute, `Attributes` therefore skips a `setAccessor` call when a structurally equal but distinct vnode replaces the old one. Vnodes carry no identity in this model.
- Hooks a component may or may not define are recorded at their call site whether or not they are defined: `Install`, `BeforeUpdate`, `Updated` and the `installed` list of `FlushMounts` (packages/omio/examples/simple/b.js:760, 1314-1315, 1400, 1508). Only `receiveProps` is gated, by `receivesProps`, because when it is undefined the whole branch does nothing.
