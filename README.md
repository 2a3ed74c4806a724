# Medusa target manager, modelled in Dafny

Medusa is a browser library that manages named *targets*. A target pairs
an id with an ordered list of observed DOM elements and an
`IntersectionObserver`. Its configuration adds a mode: `DEFAULT`, `ONCE`
(fire-once) or `BYPIXELS`.

The `Medusa` class stores every target in a registry (`internalTargets`)
and every id it has accepted in a list (`idList`). It edits both in place
through six operations:

- `addTarget` registers targets.
- `removeTarget` tears a target down.
- `pushToTarget` and `pullFromTarget` add and remove elements. Each element
  is stamped with a `medusaId` tag.
- `createInternalTarget` builds a target record.
- The batch callback built by `createObserver` dispatches an event per
  entry. It runs the user callback for intersecting entries. In fire-once
  mode it also removes the element and, once no element is left,
  unregisters the target.

The model keeps the source's shape:

- The manager is the class `Lifecycle.Medusa`. Its fields are
  `internalTargets`, `idList`, the `medusaId` tags written so far (`tags`),
  a fresh-tag counter (`nextTag`), the log of dispatched events and
  callback runs (`effects`) and the `console.warn` output (`diagnostics`).
- A target record is the class `Declarations.InternalTarget`. Its fields
  `observedElements` and `observer` are edited in place. This is needed
  because the observer's callback closes over the record, and the record
  can outlive its registry entry.
- Each `forEach` loop of the source is a `while` loop with invariants, and
  each loop is proved against a specification function:
  - `TagAll` for tagging;
  - `AcceptedCount` and `RegisterEach` for the array form of `addTarget`;
  - `OddIndexed` and `EvenIndexed` for `removeTarget`;
  - `NotifyBatch` for the callback.
- The registry invariant `Medusa.Valid` is established by the constructor
  and kept by every operation. It says:
  - `idList` has no duplicates;
  - every registered id is in `idList`;
  - registered ids are distinct;
  - every observed element is tagged;
  - tags are distinct and below the counter.
- An operation's `modifies` clause states what it leaves untouched:
  - only `addTarget` and its helpers write `idList`;
  - `removeTarget`, `pushToTarget` and `pullFromTarget` write only the
    target they find by id (`TargetsNamed`);
  - the callback never writes `idList`.

The code has several quirks. The model follows them and proves each one:

- **`removeTarget` keeps half the elements.** It splices inside a
  `forEach`, so it unobserves only the even-indexed elements and keeps the
  odd-indexed ones, floor(n/2) of them. The target is unregistered only
  when none remain.
- **`removeTarget` never frees the id.** The `idList.filter` result is
  discarded, so the removed id stays taken and cannot be added again.
- **Array-form `pullFromTarget` never removes anything.** It reads the
  `medusaId` of the array, not of each element, so no element matches and
  each item only warns.
- **A second fire-once entry for the same element splices the wrong
  thing.** The fire-once removal searches by reference, finds -1, and
  `splice(-1, 1)` removes the last element. If the target has already
  collapsed, the same happens to the last registered target.
- **A fire-once entry for an element held twice leaves one copy that is
  no longer observed.** The splice removes one copy, but `unobserve`
  stops watching the element altogether.
- **`pullFromTarget` never collapses a target.** There is no empty
  check after its splice (src/index.ts:158-163). Pulling a target's only
  element leaves it registered, with no elements and a live observer, as
  the `PullFromTarget` contract and its frame state.
- **Events do not name their target.** `new CustomEvent(name, init)`
  keeps only the `detail` member of `init`. The `id` and `isIn` members
  the code passes are dropped, so a listener sees only the entry.
- **The event name keeps the source's spelling**, `intesectionTriggered`.

## Model

| member | source | states |
|---|---|---|
| Sequences.IndexOf | src/index.ts:68 | `findIndex` by reference: the first position holding the element, or -1 exactly when it is absent |
| Sequences.RemoveAt | src/index.ts:162 | `splice(k, 1)` inside the sequence: one shorter, the prefix before `k` kept, the rest shifted down by one |
| Sequences.SpliceIndex | src/index.ts:213 | the position `splice(start, 1)` removes: `start` inside the sequence, the last position for -1, never past the end |
| Sequences.Splice | src/index.ts:219 | `splice(start, 1)`: removes position `start`, or the last element for -1, and removes nothing past the end |
| Sequences.AlternatingStep | src/index.ts:97-100 | one `forEach` step that splices at its own index visits the next even-indexed element of the original, and the loop state stays in its alternating form |
| Sequences.AlternatingDone | src/index.ts:97-100 | when that `forEach` stops, exactly the odd-indexed elements remain and every even-indexed one was visited |
| Sequences.OddIndexed | src/index.ts:97-100 | the elements left by `removeTarget`'s loop: floor(n/2) of them, the element at 2k+1 at position k |
| Sequences.EvenIndexed | src/index.ts:97-100 | the elements `removeTarget`'s loop unobserves: ceil(n/2) of them, the element at 2k at position k |
| Sequences.RemoveFirst | src/index.ts:155-162 | the single pull's result: an absent element leaves the list alone, a present one is removed once, the list shrinking by one and losing one copy |
| Sequences.SpliceKeepsMembers | src/index.ts:213 | splicing never introduces an element |
| Declarations.OptionsFor | src/index.ts:174-179 | `rootMargin` is the offsets; the threshold is `thresholdsByPixels()` exactly when the mode is `BYPIXELS`, otherwise the configured ratios (a definition) |
| Declarations.InternalTarget.constructor | src/index.ts:170-184 | the record copies id, container, options, emit flag, mode and callback from the configuration and starts with no elements and no observer |
| Identity.TagOf | src/index.ts:144 | an element's `medusaId` is defined exactly when it was tagged, and is then its tag (a definition) |
| Identity.TagAll | src/index.ts:237-243 | tagging a sequence in order tags exactly its elements, keeps other tags, and hands out tags from the counter's range |
| Identity.TagAllIsLastOccurrence | src/index.ts:120 | an element pushed twice keeps the tag of its last occurrence |
| Identity.TagAllKeepsIdentity | src/index.ts:240 | tagging from the counter keeps every tag below the counter and no two elements sharing a tag |
| Identity.TagAllConcat | src/index.ts:119-124 | tagging one sequence then another is tagging their concatenation |
| Identity.IndexOfTag | src/index.ts:156 | `findIndex` by `medusaId`: the first element whose tag equals the key, or -1 when none does |
| Identity.UntaggedKeyIsNotFound | src/index.ts:144-145 | when every element is tagged, the undefined key of an array argument matches none of them |
| Identity.TagLookupIsReferenceLookup | src/index.ts:155-156 | with distinct tags and every element tagged, look-up by `medusaId` finds the same position as look-up by reference, and an untagged element is not found |
| Registry.IndexOfId | src/index.ts:90 | `findIndex` by target id: the first target with the id, or -1 exactly when no target has it |
| Registry.IndexOfIdFindsItself | src/index.ts:218 | with distinct ids, a registered target is found at its own position |
| Registry.RemovalKeepsDistinctIds | src/index.ts:105 | splicing a target out of the registry keeps its ids distinct and adds no target |
| Registry.InitialElements | src/index.ts:186-197 | the elements a configuration starts with: the array itself, the selector's matches, or none (a definition) |
| Registry.NodeWarning | src/index.ts:198-199 | at most one warning, exactly for a node value that is neither array nor string, naming the configuration's id |
| Registry.RegisterOne | src/index.ts:69-70 | registering one configuration appends its id to `idList`, logs at most one warning after the earlier ones, and advances the counter by the number of its initial elements |
| Registry.RegisterOneKeepsIdentity | src/index.ts:68-70 | registering one configuration keeps tags below the counter and distinct, and keeps `idList` duplicate-free when the id was new |
| Registry.RegisterEach | src/index.ts:65-74 | registering configurations in order extends `idList` by one id each, only ever extends the warnings, and never moves the counter back |
| Registry.RegisterEachKeepsIdentity | src/index.ts:65-74 | registering configurations in order keeps tags below the counter and distinct |
| Registry.AcceptedCount | src/index.ts:64-74 | how many array items `addTarget` registers, never more than the array holds |
| Registry.AcceptedCountIsFirstDuplicate | src/index.ts:65-73 | the registered items are exactly those before the first item whose id is already in `idList` as extended by the earlier items; that item's id is taken |
| Registry.AcceptedIdsStayDistinct | src/index.ts:68-70 | the ids one array call accepts repeat neither each other nor the ids already in `idList` |
| Registry.RegisterEachLogs | src/index.ts:69-70 | registering configurations in order appends their ids to `idList`, and their node-list warnings to the diagnostics, in the same order |
| Registry.RegisterEachTags | src/index.ts:186-197 | registering configurations in order tags all their initial elements as one sequence and advances the counter by its length |
| Notification.NotifyBatchEffects | src/index.ts:207-232 | whatever the mode, a batch appends exactly its entries' events and callback runs to the log |
| Notification.EntryEffectsShape | src/index.ts:223-231 | one entry yields one event carrying it, then one callback run if and only if it intersects |
| Notification.BatchEffectsAreEvents | src/index.ts:207 | a batch dispatches one event per entry, in delivery order |
| Notification.BatchEffectsRunCallbacks | src/index.ts:231 | the user callback runs for exactly the intersecting entries, in delivery order |
| Declarations.Observer.Observe | src/index.ts:242 | `observe(node)`: the observer watches the element as well (a definition) |
| Declarations.Observer.Unobserve | src/index.ts:209 | `unobserve(node)`: the observer no longer watches the element (a definition) |
| Notification.Unobserve | src/index.ts:209 | `observer.unobserve` through the possibly released handle: a released observer stays released, a live one stops watching the element |
| Notification.EventTargetOf | src/index.ts:223 | the event goes to the window exactly when the target emits globally, otherwise to its container |
| Notification.EntryEffects | src/index.ts:223-231 | one entry yields the event first, then a callback run exactly when it intersects |
| Notification.OnceRemoval | src/index.ts:209-220 | the fire-once removal leaves the log alone and removes one element whenever there is one: the entry's at its first position when held. The observer loses the element and is released exactly when the list ends empty, and only then is the registry spliced at the id's position |
| Notification.OnceRemovalOfUnheldDropsLast | src/index.ts:211-213 | for an element the target does not hold, the -1 position makes the splice drop the last element |
| Notification.NotifyEntry | src/index.ts:207-232 | one entry appends its effects to the log; outside fire-once mode, or for a non-intersecting entry, nothing else changes |
| Notification.NotifyBatch | src/index.ts:206-233 | a batch never adds elements or registry entries, only extends the log, and never brings back a released observer |
| Notification.BatchEffectsCarryTarget | src/index.ts:223-231 | every event goes to the window when the target emits globally, else to its container, and carries the event name and one of the batch's entries as detail; every callback run is the target's callback on an intersecting entry of the batch |
| Notification.GlobalEventsDoNotNameTheTarget | src/index.ts:224-228 | two targets with different ids that both emit on the window dispatch the same event for the same entry |
| Notification.ContinuousModeKeepsState | src/index.ts:208 | outside fire-once mode the callback never changes the elements, the observer or the registry |
| Notification.Without | src/index.ts:211-213 | the elements left after fire-once removals: exactly those not removed |
| Notification.WithoutNoDuplicates | src/index.ts:211-213 | filtering keeps a duplicate-free element list duplicate-free |
| Notification.RemoveFromWithout | src/index.ts:211-213 | when elements are distinct, splicing out an element at its reference position is the same as filtering it out |
| Notification.OnceRemovesIntersecting | src/index.ts:208-221 | fire-once mode, for a batch whose intersecting entries report distinct observed elements: exactly those are unobserved and removed, the rest keep their order, and the observer is released and the target's registry position spliced out exactly when no element is left |
| Notification.DuplicateEntryDropsUnreportedElement | src/index.ts:211-213 | a second intersecting entry for an element already removed finds -1 and splices out the target's last element, which was never reported and stays observed |
| Notification.RepeatedElementSplicedOnce | src/index.ts:209-213 | an element held twice and reported once loses one copy, while the observer stops watching it altogether |
| Notification.LateEntryRemovesAnotherTarget | src/index.ts:218-219 | an entry for a target that has already collapsed finds its id at -1 and splices out the registry's last target instead |
| Lifecycle.Medusa.Empty | src/index.ts:23-25 | a new manager has an empty registry, id list, tag map and logs, and satisfies the registry invariant |
| Lifecycle.Medusa.Create | src/index.ts:27-61 | `new Medusa(options)` with the prototype patch of lines 47-58 taken as absent (the real one throws there): `options.targets` registered into an empty manager, giving the accepted prefix's ids in order, each target as built from its configuration, a throw on the first repeated id, a warning for a non-object, and no events |
| Lifecycle.Medusa.AddTarget | src/index.ts:63-87 | a non-object only warns. Otherwise the items before the first taken id are registered in order: targets appended as built, ids appended to `idList`, elements tagged, warnings logged. The call ends by throwing on the first taken id, and a single object with a taken id changes nothing |
| Lifecycle.Medusa.RegisterAll | src/index.ts:64-74 | the array form: items are registered in order until the first id already in the extended `idList`, where the call throws |
| Lifecycle.Medusa.RegisterNext | src/index.ts:68-70 | registering one more array item extends the registered prefix by one and appends its id |
| Lifecycle.Medusa.RegisterNew | src/index.ts:78-80 | a configuration with an untaken id appends one fresh target, built from it, to the registry, then its id to `idList` |
| Lifecycle.Medusa.CreateInternalTarget | src/index.ts:169-203 | the record as configured, holding the array's elements or the selector's matches, each tagged and observed by a new observer; any other node value warns and leaves no elements and no observer |
| Lifecycle.Medusa.CreateObserver | src/index.ts:235-243 | a new observer watching exactly the target's elements, each tagged in order from the counter, with the registry invariant kept |
| Lifecycle.Medusa.RemoveTarget | src/index.ts:89-110 | an unknown id only warns. Otherwise the even-indexed elements are unobserved and the odd-indexed ones remain. The target is disconnected and spliced out of the registry exactly when at most one element was held. `idList` is untouched |
| Lifecycle.Medusa.UnobserveEach | src/index.ts:97-100 | the `forEach`-with-splice leaves the odd-indexed elements and unobserves the even-indexed ones |
| Lifecycle.Medusa.RemoveThenReAdd | src/index.ts:107 | after a target is removed, adding a configuration with its id throws and leaves `idList` unchanged |
| Lifecycle.Medusa.PushOne | src/index.ts:126-129 | one element is freshly tagged, observed and appended to the target |
| Lifecycle.Medusa.PushAll | src/index.ts:119-124 | the array's elements are appended in order, each observed and tagged from the counter in order |
| Lifecycle.Medusa.PushToTarget | src/index.ts:112-132 | an unknown id only warns and tags nothing. Otherwise every given element, in order, is tagged afresh, observed and appended to the target with that id, and no other target changes |
| Lifecycle.Medusa.PullByKey | src/index.ts:155-163 | the first element whose tag equals the key is unobserved and spliced out; with no match the target is untouched and a warning is logged |
| Lifecycle.Medusa.Withdraw | src/index.ts:161-162 | unobserving an element and splicing a position keeps the registry invariant |
| Lifecycle.Medusa.PullFromTarget | src/index.ts:134-167 | an unknown id only warns. A single element is removed at its first occurrence and unobserved, keeping the others in order, or a warning is logged when it is not held. The array form changes nothing and warns once per item |
| Lifecycle.Medusa.PullCarryingTag | src/index.ts:134-163 | a single argument carrying a `medusaId`: the first element with that tag is spliced out and the argument is unobserved, so an element taken out for a distinct argument stays observed; no match, or an unknown id, only warns |
| Lifecycle.Medusa.PullOne | src/index.ts:155-163 | look-up by the element's own `medusaId` removes exactly its first occurrence |
| Lifecycle.Medusa.PullEach | src/index.ts:143-153 | each item looks up the array's undefined `medusaId`, finds nothing and warns |
| Lifecycle.Medusa.Notify | src/index.ts:206-233 | the callback on a batch leaves the target, the registry and the log as `NotifyBatch` computes them, and keeps the registry invariant |
| Lifecycle.Medusa.NotifyOne | src/index.ts:207-232 | the callback's work for one entry is `NotifyEntry` |
| Lifecycle.Medusa.Emit | src/index.ts:223-231 | one event for the entry, then the user callback if it intersects, appended to the log |
| Lifecycle.Medusa.RemoveOnce | src/index.ts:208-221 | the fire-once removal: unobserve, splice at the reference position, and release and unregister when empty, keeping the invariant |
| Lifecycle.Medusa.Unregister | src/index.ts:219 | `internalTargets.splice(index, 1)` keeps the registry invariant |

## Left out

- The patch to the DOM element prototype (src/index.ts:47-58) is not
  modelled. Its descriptor gives both `value`/`writable` and `get`/`set`,
  which `Object.defineProperty` rejects with a `TypeError`. So the real
  constructor throws at src/index.ts:47 and never reaches `addTarget`
  (src/index.ts:60). `Create` models the constructor as if the patch were
  absent. A `medusaId` is a map from element to tag, and an element
  missing from the map has an undefined `medusaId`.
- Random ids (`crypto.randomBytes`) are a counter, `nextTag`. The
  invariant that every tag is below the counter stands for the freshness
  random ids give only with high probability.
- `IntersectionObserver` internals are not modelled:
  - an observer is the set of elements it watches;
  - disconnecting it and nulling the field are one step, `None`;
  - a batch of notifications is an input sequence of (element,
    isIntersecting) entries given to `Notify`;
  - only the `observe`, `unobserve` and `disconnect` calls are modelled.
- `querySelectorAll` is not evaluated: a selector configuration carries
  the elements it matches.
- Entry details other than the target and `isIntersecting` are left out.
- `CustomEvent` and `dispatchEvent`, and the user callback, are records
  appended to `effects`. A `Dispatched` record holds the event target,
  the event name and the `detail`, which is all the event keeps of its
  init object. The callback's own effects, and any re-entrant
  call it makes into the manager, are not modelled.
- `console.warn` is a record appended to `diagnostics`, and the thrown
  `Error` of `addTarget` is the `DuplicateId` outcome. `DuplicateId`
  carries the id, but the code's message names it only for an array item:
  for a single object the message interpolates the object itself
  (src/index.ts:82), which prints as `[object Object]`.
- `addTarget(null)` passes the `typeof === 'object'` test and crashes on
  `target.id` (src/index.ts:75-78). `NotAnObject` stands only for
  arguments that are not objects, and the model has no `null` argument.
- `thresholdsByPixels()` is kept as an opaque value. `utils` is not part
  of this model, and no floating-point values are computed.
- Option defaults (src/index.ts:28-41) are not modelled. Merging
  `{...defaults, ...options}` only picks `options.targets` or the single
  default target, so `Create` takes the resulting targets argument
  directly.
- Lifecycle.Medusa.PullFromTarget: the single argument's `medusaId` is
  the tag the manager wrote on it. In the code `medusaId` is a plain
  property, so a caller can pass a distinct object carrying a copied
  `medusaId`. The code then splices out the element with that tag but
  unobserves the argument (src/index.ts:156-162), and the element leaves
  the list while staying observed. `PullCarryingTag` models that call
  with the key given separately.
- The caller's array is not aliased by the target's element list
  (src/index.ts:187). The model copies the sequence, so two effects of
  the sharing are not seen:
  - later edits to the caller's array;
  - the effect across targets. Two configurations given the same `nodes`
    array share one `observedElements` array, so a fire-once splice or a
    pull in one target also removes the element from the other's list.
- The observer's `root` is always `null` and is not represented.
- Lifecycle.Medusa.RemoveTarget: requires the target's observer to be
  live, because the source dereferences `null` for a target whose node
  list was invalid.
- Lifecycle.Medusa.PushToTarget: has the same `null`-observer
  precondition. For a non-empty argument the source crashes on that
  `null`, after it has already tagged the first element. For an empty
  array it does nothing, a call the precondition also excludes.
- Lifecycle.Medusa.RemoveThenReAdd: has the same `null`-observer
  precondition, since it calls `RemoveTarget`.
- Lifecycle.Medusa.Notify: requires the observer to be live, since a
  disconnected observer delivers no batches, and requires the target's
  elements to be tagged. Any target that has an observer meets both,
  registered or not: a target the late-entry splice dropped from the
  registry keeps its observer and still receives batches. A target built
  from an invalid node list has no observer, so no callback exists for it.
- Lifecycle.Medusa.AddTarget: states that each new target is built from
  its configuration but not that it is a fresh object. Freshness is stated
  by `RegisterNew` and `CreateInternalTarget`.
- Notification.OnceRemovesIntersecting: states the fire-once outcome only
  for a target whose element list has no repeated element, and for
  batches whose intersecting entries name distinct elements the target
  holds. The other cases are covered by lemmas on concrete inputs:
  - a repeated element: `RepeatedElementSplicedOnce`;
  - the splice(-1) behaviour: `OnceRemovalOfUnheldDropsLast`,
    `DuplicateEntryDropsUnreportedElement` and
    `LateEntryRemovesAnotherTarget`.
