# learn-react: a verified model of a tiny fiber renderer

The repository builds a small React-like renderer in two copies. `src/index.js` is the
reference. `src/own/simple-react.js` is a retyped copy that differs in a few places. Both
copies do the same work:

- `createElement` builds element descriptions.
- `render` starts a work-in-progress root fiber.
- An idle-time `workLoop` calls `performUnitOfWork` fiber by fiber. Each call creates the
  fiber's DOM node and reconciles its children against the fibers of the previous render
  (`reconcileChildren`), tagging them PLACEMENT, UPDATE or DELETION.
- When no unit is pending, `commitRoot` and `commitWork` apply the tags to the DOM.
  `updateDom` diffs the old props against the new ones.

The model is in Dafny. Both copies are modelled, selected by a `Variant`
(`Reference` or `Own`):

- **Fibers** live in an arena, a `seq<Fiber>` whose links (`child`, `sibling`, `parent`,
  `alternate`) are indices. `Ordered` says child and sibling links point forward and parent
  and alternate links point backward.
- **The DOM** is a `Host` object. It records every call made on it (`Mutation`) and counts
  its nodes: the nodes that exist before the program runs, the container among them, have
  the ids below the count it starts with, and each created node gets the next id.
- **A JavaScript exception** (a property read on `null`, a stack overflow) is a `Fault`. After
  a fault the model stops, with the state as it was when the exception was raised.
- **The module variables** (`nextUnitOfWork`, `wipRoot`, `currentRoot`, `deletions`) are
  fields of the `Engine` class, as is the `requestIdleCallback` registration (`scheduled`).
  Its methods are proved against closed-form functions of the pure modules.

Modules:

- `Elements` covers element construction.
- `DomDiff` covers the props predicates and the call sequence of `updateDom`.
- `Fibers` covers the arena, sibling chains, the pre-order walk and the
  next-unit-of-work step.
- `Reconciliation` gives the closed form of `reconcileChildren`.
- `Pass` gives the invariant of a render pass.
- `Commit` covers the calls `commitWork` and `commitRoot` make.
- `Engine` holds the classes.

`reconcileChildren` in both copies raises an exception in one case: when the previous
render's chain of children is at least two longer than the new elements. Once the elements
run out, `prevSibling` becomes `null`, and the next old fiber makes
`prevSibling.sibling = newFiber` fail. The model keeps this behaviour as the
`NullPrevSibling` fault. `Reconciliation.ThrowAfterPush` states what the loop has done by
then.

## Model

| member | source | states |
|---|---|---|
| Elements.CreateTextElement | src/index.js:13-21 | a `TEXT_ELEMENT` whose `nodeValue` is the text and whose children are the empty array |
| Elements.CreateElement | src/index.js:1-11 | the element keeps its type and every prop but `children`; its children array has one entry per argument, the argument itself for an object and its text element for a primitive |
| Elements.OwnCreateElement | src/own/simple-react.js:1-11 | as CreateElement, except that a primitive child becomes a text element whose `nodeValue` is the whole children argument list |
| Elements.CreateElementCopiesAgreeOnlyOnObjects | src/own/simple-react.js:6-8 | the two copies of createElement build the same element exactly when every child is an object |
| Elements.Put | src/index.js:4-8 | adding `children` to a props object sets that key, leaves every other key, and adds the key at the end only when it was absent |
| DomDiff.EventType | src/index.js:112 | the event name of a listener prop is the prop name after `on`, lower-cased: same length, no upper-case letter left, and each letter equal to the key's up to case |
| DomDiff.OwnEventType | src/own/simple-react.js:166 | simple-react's event name is the prop name after `on`, upper-cased: same length, no lower-case letter left, and each letter equal to the key's up to case |
| DomDiff.DeltaOfEqualPropsIsEmpty | src/index.js:106-140 | updateDom between equal props makes no call |
| DomDiff.DeltaRemovesStaleListeners | src/index.js:108-114 | a listener is removed exactly for an `on` prop of the old props that is gone or changed, with the old handler |
| DomDiff.DeltaClearsGoneProperties | src/index.js:117-122 | a property is cleared exactly when it is a non-`children`, non-event key of the old props missing from the new |
| DomDiff.DeltaSetsChangedProperties | src/index.js:125-130 | a property is set exactly when it is a non-`children`, non-event key of the new props whose value changed, to the new value |
| DomDiff.DeltaAddsNewListeners | src/index.js:132-139 | a listener is added exactly for an `on` prop of the new props whose value changed, with the new handler |
| DomDiff.DeltaOnlyTouchesProps | src/index.js:106-140 | every call of updateDom is on the given node, is a listener or property call, and never sets or clears `children` |
| DomDiff.DeltaPhaseOrder | src/index.js:106-140 | the calls come in the order: listener removals, property clears, property sets, listener additions |
| DomDiff.OwnDeltaPhaseOrder | src/own/simple-react.js:160-192 | simple-react's calls come in the order: removals, additions, clears, sets |
| DomDiff.CreationDelta | src/index.js:30 | the updateDom of createDom, from `{}`, sets every defined property and adds every defined listener |
| DomDiff.OwnDeltaRemovesEveryListener | src/own/simple-react.js:162-168 | simple-react removes the listener of every `on` prop of the old props, changed or not |
| DomDiff.OwnDeltaAddsOnlyChangedListeners | src/own/simple-react.js:171-177 | simple-react adds (with `addEvent`) only listeners whose handler changed, and never calls `addEventListener` |
| DomDiff.OwnDeltaOfEqualPropsDropsHandlers | src/own/simple-react.js:162-177 | between equal props simple-react's updateDom only removes listeners, and it removes each one |
| Fibers.ChainFacts | src/index.js:72-74 | a sibling chain is strictly increasing, stays in the arena, and links each fiber to the next by `sibling` |
| Fibers.WalkInArena | src/index.js:152-165 | the pre-order walk from a fiber stays in the arena, at or after its start |
| Fibers.UpInArena | src/index.js:219-225 | the next unit of work (child, else the nearest sibling up the parent chain) is null or a fiber of the arena |
| Fibers.TraceFollowsWalk | src/index.js:219-225 | following the next-unit step from a fiber visits exactly its pre-order walk, then continues above it |
| Fibers.SuccessorEnumeratesPreOrder | src/index.js:187-196 | from a root with no parent and no sibling, the next-unit steps visit the pre-order walk and then reach null |
| Fibers.WalkHasNoRepeats | src/index.js:152-165 | the pre-order walk visits no fiber twice |
| Fibers.PreOrderVisitsEachFiberOnce | src/index.js:201-226 | the units of a pass are the root's walk, each fiber once, each below the root |
| Fibers.SetDomKeepsOrder | src/index.js:207 | giving a fiber its node keeps the arena's links well formed |
| Reconciliation.OldChain | src/index.js:37 | the alternate's children chain is increasing and in the arena |
| Reconciliation.OldChainSiblings | src/index.js:72-74 | each old fiber's sibling is the next of the chain, the last has none |
| Reconciliation.ReconcileStep | src/index.js:40-94 | one iteration of the loop is the step from the first i iterations to the first i+1 |
| Reconciliation.ArenaIsReconciled | src/index.js:40-94 | the arena built iteration by iteration equals the closed form after the same number of iterations |
| Reconciliation.DeletionsAfterAppendsDoomed | src/index.js:67-71 | `deletions` after i iterations is the old list followed by the old fibers of unmatched type among the first i, in order |
| Reconciliation.ReconciledAt | src/index.js:44-92 | after i iterations an old fiber keeps all its fields except the parent's `child` link and `effectTag`, and the new fibers are those the loop built |
| Reconciliation.ReconciledTagAt | src/index.js:67-71 | an old fiber's tag becomes DELETION exactly when it was pushed to `deletions` |
| Reconciliation.ReconciledShape | src/index.js:35-95 | reconciling keeps the arena's links well formed and consistent |
| Reconciliation.DoomedFacts | src/index.js:67-71 | an old fiber is pushed exactly when it was visited and its type does not match; the pushed list is increasing and no longer than the iterations |
| Reconciliation.NewChildChain | src/index.js:84-92 | after the loop the parent's `child` starts the chain of the new fibers, one per element, in element order |
| Reconciliation.FinalNewFibers | src/index.js:47-65 | once every element has its fiber, the new fibers carry the elements' types and props, have the parent as `parent` and no child, and each one's sibling is the next |
| Reconciliation.EveryOldFiberReusedOrDeleted | src/index.js:44-71 | every old fiber of the chain is either the alternate of the new fiber at its position (same type) or tagged DELETION and pushed, never both |
| Reconciliation.NewFibersClassified | src/index.js:44-66 | a new fiber is an UPDATE sharing the old fiber's node and pointing to it as alternate when the types match, else a PLACEMENT with no node and no alternate |
| Reconciliation.ThrowAfterPush | src/index.js:84-90 | with two or more extra old fibers the loop raises after the second extra one has been tagged and pushed, and later old fibers are untouched |
| Pass.ReconcileKeepsEpoch | src/index.js:35-95 | reconciling a fiber of the pass keeps old fibers below the root and tags no fiber of the pass DELETION |
| Pass.WalkAfterReconcile | src/index.js:215-216 | reconciling the pending unit puts its new children right after it in the pass's pre-order walk |
| Pass.PassStart | src/index.js:167-180 | render's root starts a pass whose walk is the root alone and whose pending unit is the root |
| Pass.SetDomKeepsPass | src/index.js:207 | giving the pending unit its node keeps the pass invariant and the old children chain |
| Pass.PassStep | src/index.js:201-226 | a unit that raises nothing keeps the pass invariant, with the unit appended to the performed prefix and its successor pending |
| Pass.PassComplete | src/index.js:193 | when nothing is pending, the performed units are the whole walk of the root, each once, each with a node, covering every fiber of the pass |
| Commit.RunConcat | src/index.js:163-164 | committing two runs of fibers is committing the first and then, unless it raised, the second |
| Commit.ReferenceCommitOfCleanFibers | src/index.js:152-165 | committing fibers that each have a parent node, a node, no DELETION tag and an alternate when UPDATE raises nothing and makes exactly the intended calls |
| Commit.IntendedRunRemovesNothing | src/index.js:155-158 | such a commit removes no node |
| Commit.IntendedRunAppends | src/index.js:155-156 | it appends a node exactly for a PLACEMENT fiber, to its parent's node |
| Commit.IntendedRunIncludesEach | src/index.js:157-158 | every call of an UPDATE fiber's updateDom is among its calls |
| Commit.OwnCommitAppendsAgain | src/own/simple-react.js:202-215 | simple-react appends a PLACEMENT fiber's node twice and an UPDATE fiber's node after its diff, where src/index.js appends the PLACEMENT once and the UPDATE not at all |
| Commit.RemovalsRemoveEach | src/index.js:159-160 | removing deleted fibers that have a parent node and a node removes each from its parent's node, in order, raising nothing |
| Commit.LiteralCommitRootOverflows | src/index.js:143-144 | commitRoot as written overflows the stack whenever `deletions` is not empty, however deep the stack, and reaches the commit only when it is empty |
| Commit.WorkRunSplit | src/index.js:152-165 | commitWork of a fiber is its own effect, then commitWork of its child, then of its sibling |
| Commit.RemovalsConcat | src/index.js:144 | removing two lists of fibers is removing the first and then, unless it raised, the second |
| Commit.CompletedPassCommitsCleanly | src/index.js:143-149 | at the end of a pass every fiber below the root can be committed, so commitWork(wipRoot.child) raises nothing and makes exactly the intended calls in pre-order |
| Engine.Host.Each | src/index.js:108-139 | one `Object.keys(...).filter(...).forEach(...)` chain appends the calls of each key in key order |
| Engine.Host.UpdateDom | src/index.js:106-140 | updateDom appends the calls of the chosen copy's diff and creates no node |
| Engine.Host.ReferenceUpdateDom | src/index.js:106-140 | src/index.js's four passes append exactly Delta |
| Engine.Host.OwnUpdateDom | src/own/simple-react.js:160-192 | simple-react's four passes append exactly OwnDelta |
| Engine.Host.CreateDom | src/index.js:23-32 | createDom creates the next node (a text node for `TEXT_ELEMENT`), then sets its props from `{}` |
| Engine.RootFiber | src/index.js:170-176 | the root fiber has the container as its node, the element as its only child, the current root as alternate, and no links or tag |
| Engine.WithDom | src/index.js:207 | giving fiber x the next node id, only when it had none, changes nothing else and keeps the arena well formed |
| Engine.UnitKeepsPass | src/index.js:201-226 | a unit of work that raises nothing, node creation included, keeps the pass invariant |
| Engine.Engine.constructor | src/index.js:181-198 | at load time every module variable is null and workLoop is registered |
| Engine.Engine.Render | src/index.js:167-180 | render, given an existing node as the container, appends the root fiber, makes it the work-in-progress root and the pending unit, and empties `deletions` |
| Engine.Engine.PerformUnitOfWork | src/index.js:201-226 | the fiber gets a node when it had none; its children are reconciled as in the closed form, with the old fibers pushed to `deletions`; it returns the next unit in pre-order; it raises exactly when the children are not an array or the old chain is two longer than the elements |
| Engine.Engine.NextUnit | src/index.js:219-225 | the unit returned after a fiber is its pre-order successor: its child, else the sibling of the nearest of it and its ancestors that has one, else none |
| Engine.Engine.ReconcileChildren | src/index.js:35-95 | the loop leaves the arena and `deletions` as the closed form after its iterations, and raises exactly when the old chain is two longer than the elements |
| Engine.Engine.ReconcileLoop | src/index.js:40-94 | run from the old chain's first fiber, the loop leaves the arena and `deletions` as the closed form after its iterations, and throws at `prevSibling.sibling` exactly when the old chain is two longer than the elements |
| Engine.Engine.ReconcileOne | src/index.js:41-93 | one iteration takes the arena to the loop body applied to it, pushes the old fiber to `deletions` when it has no same-type partner, and throws at `prevSibling.sibling` exactly when the index is past the element after the last one, where `prevSibling` is null |
| Engine.Engine.PushFiber | src/index.js:44-74 | the fiber for the element reuses the old fiber's type and node when the types agree (UPDATE) and is a fresh PLACEMENT otherwise; an old fiber without a partner is tagged DELETION and pushed; the old cursor moves to its sibling |
| Engine.Engine.PerformUnits | src/index.js:188-192 | units are performed while one is pending, and the loop stops after the first unit whose deadline answer says to yield; every raise-free unit is appended to the performed units; the pass invariant holds throughout and the roots do not change |
| Engine.Engine.PerformNext | src/index.js:190 | a unit that raises nothing moves the pending unit to its successor and appends it to the performed units; one that raises ends the scheduling |
| Engine.Engine.WorkLoop | src/index.js:187-196 | units run until the first yield answer, then src/index.js commits a completed pass through the corrected commitRoot (CommitRoot): the deletions are removed, then exactly the intended calls of the pass are made in pre-order and the root becomes current; simple-react never commits a pass in progress; workLoop stays registered exactly when nothing was raised |
| Engine.Engine.CommitRoot | src/index.js:143-149 | the deleted fibers' nodes are removed, then commitWork runs from the root's child and the root becomes current; null `deletions` or `wipRoot` raises |
| Engine.Engine.CommitDeletions | src/index.js:144 | the deleted fibers are removed in order, stopping at the first that raises |
| Engine.Engine.CommitDeletion | src/index.js:159-160 | one deleted fiber's node is removed from its parent's node, raising on a missing parent, parent node or node |
| Engine.Engine.CommitWork | src/index.js:152-165 | commitWork appends exactly the effects of the fibers of the walk, in pre-order, stopping at the first that raises |
| Engine.Engine.CommitEffect | src/index.js:153-161 | one fiber's effect: append a PLACEMENT, diff an UPDATE against its alternate, remove a DELETION; simple-react appends again afterwards |
| Engine.Engine.CommitTag | src/index.js:154-161 | the effect-tag branch of commitWork: append a PLACEMENT with a node, diff an UPDATE with a node against its alternate, remove a DELETION, and raise on the null it reads |
| Engine.Engine.CommitRootAsWritten | src/index.js:143-149 | commitRoot as written changes nothing and overflows with any deletion pending, and commits as CommitRoot with none |

## Left out

- The browser is left out. `document`, real nodes, `requestIdleCallback`'s timing and `console.log` become the `Host` log.
- The JSX demo and driver code are left out: src/index.js:228-277 and src/own/simple-react.js:217-250.
- `deadline.timeRemaining() < 1` is a sequence of answers, one per unit performed. Past its end the idle period is over.
- `props.children` that is not an array makes the unit raise (`MissingChildren`). `null` children, holes and non-element objects are not modelled.
- JavaScript values are reduced to what the code compares. Numbers are not floating point. `Object.keys` follows insertion order, without the integer-key ordering. `in` ignores the prototype chain.
- Fibers are arena indices. Old fibers are never freed, so the arena only grows. Object identity and garbage collection are not modelled.
- DomDiff.EventType: `toLowerCase` is modelled for the letters A-Z only (JavaScript also maps, for example, "onÉvent" to "évent"), and `substring` counts characters of the model's strings, not UTF-16 code units.
- DomDiff.OwnEventType: `toUpperCase` is modelled for the letters a-z only, with the same `substring` simplification as EventType.
- simple-react calls `dom.addEvent`, which the model records as its own call `AddEvent`. Whether the host provides such a method is not modelled.
- Engine.Engine.PerformUnitOfWork: requires `deletions` to be a list. In the program a unit can only run after `render` has set it.
- Engine.Engine.WorkLoop: commits through the corrected CommitRoot. As written, src/index.js:144 re-enters commitRoot and overflows whenever `deletions` is non-empty; that exception also skips `requestIdleCallback(workLoop)` at src/index.js:195, so scheduling stops (CommitRootAsWritten models this). It gives the calls of a src/index.js commit in terms of the removals of `deletions`. It does not prove that those removals raise nothing, which would need an invariant carried from the previous pass's fibers.
- Engine.Engine.CommitRoot: removes each deleted fiber's node once, as commitRoot evidently intends. The literal re-entrant call is CommitRootAsWritten (see Findings).

## Findings

| source | as written | input that shows it | evidently intended | confidence | as-written member | corrected member |
|---|---|---|---|---|---|---|
| src/index.js:143-144 | `deletions.forEach(commitRoot)` calls commitRoot again, which meets the same non-empty list | render `<div><p/></div>`, then render `<div/>`: the `p` fiber is pushed to `deletions` and commitRoot recurses until the stack overflows | remove each deleted fiber's node from its parent's node, then commit the root | high, not executed | Commit.LiteralCommitRootOverflows | Commit.RemovalsRemoveEach |
| src/own/simple-react.js:7 | `createTextElement(children)` passes the whole argument list | `createElement("h1", {}, "Hello")` gives a text element whose `nodeValue` is `["Hello"]` | `createTextElement(child)`, as src/index.js:7 | high, not executed | Elements.CreateElementCopiesAgreeOnlyOnObjects | Elements.CreateElement |
| src/own/simple-react.js:164 | `isNew(prevProps, nextProps)` is a function, so the filter keeps every listener | prev = next = `{onClick: h}`: the listener is removed and never added back | remove only gone or changed listeners, as src/index.js:110 | high, not executed | DomDiff.OwnDeltaOfEqualPropsDropsHandlers | DomDiff.DeltaOfEqualPropsIsEmpty |
| src/own/simple-react.js:60 | the commit guard tests `!wipRoot` | `render(element, container)`, then idle periods until the pass ends: nothing is ever committed | commit when no unit is pending and a root is in progress, as src/index.js:193 | high, not executed | Engine.Engine.WorkLoop | Commit.CompletedPassCommitsCleanly |
| src/own/simple-react.js:212 | `domParent.appendChild(fiber.dom)` runs for every fiber after its effect | a PLACEMENT fiber is appended twice; an UPDATE fiber's node is appended again | append only PLACEMENT fibers, once, as src/index.js:155-161 | high, not executed | Commit.OwnCommitAppendsAgain | Commit.ReferenceCommitOfCleanFibers |
