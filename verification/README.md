# Custom Elements polyfill core, modelled in Dafny

This project models the engine of a Custom Elements polyfill: the registry
behind `window.customElements` (`define`, `get`, `whenDefined`), the upgrade
algorithm, the base-element constructor with its construction-stack
rendezvous, the mutation-observer dispatch that turns DOM changes into
lifecycle reactions, the intercepted `document.createElement`, and the small
DOM helpers they share. The engine follows the Custom Elements section of the
HTML Living Standard (4.13.3 valid custom element names, 4.13.4
`define`/`get`/`whenDefined`, 4.13.5 upgrades, 4.13.6 reactions) as the
polyfill implements it, quirks included.

The model is one explicit state machine. A `State` holds what the polyfill
spreads over its registry object and its closures:

- the name, constructor and definition collections, and the pending
  `whenDefined` promises;
- every element's custom element state and recorded definition;
- the construction stacks;
- the microtask queue and the tasks already run;
- a snapshot of the host tree.

Each operation is a pure function from a state to a `Step`: the state it
leaves, paired with how it completed (a value, or a thrown `Exception`). A
throw travels with its post-state, because the source never rolls back what
it already changed. An example is `define`, which throws after publishing
when an upgrade in its scan throws.

Application code is abstract. A constructor is a `Behaviour`: it may throw
before calling `super()`, return another object without calling it, or call
it and then return its result, throw, or return another object. Lifecycle
callbacks are opaque ids: the model records that a reaction was queued or
run, never what it does. Deferred work (`queueMicroTask`) is an append to an
explicit FIFO queue.

Files, one module each:

| file | module | models |
|---|---|---|
| common.dfy | `Common` | ids, `Option`, the exceptions, `Completion` |
| names.dfy | `Names` | reserved names, the name pattern, ASCII lower-casing |
| dom.dfy | `Dom` | the tree, `findNodeRoot`, `isConnected`, attributes, host `createElement`, `querySelectorAll` |
| engine.dfy | `Engine` | the state, its invariant, `_getState`, `isCustom`, `_lookupByConstructor`, `_getElementDefinition`, `_callbackReaction`, `_tryUpgradeElement` |
| construction.dfy | `Construction` | the base-element constructor and application constructor outcomes |
| upgrade.dfy | `Upgrade` | `_upgradeElement` |
| registry.dfy | `Registration` | `get`, `whenDefined`, `define` |
| observer.dfy | `Observer` | the tree observer's per-record dispatch |
| create_element.dfy | `Creation` | the intercepted `document.createElement` |
| tasks.dfy | `Microtasks` | draining the microtask queue |
| findings.dfy | `Findings` | `_getElementDefinition` as written and its callers, next to the corrected lookup |

## Model

| member | source | states |
|---|---|---|
| `Names.IsValidCustomElementName` | src/custom-elements-registry.js:64-70 | each of the eight reserved names is rejected; an accepted name ends in a character of `[-.0-9a-z_]` and contains a hyphen, because the pattern is anchored at the end |
| `Names.TestValidNameRegex` | src/custom-elements-registry.js:57 | decides the unanchored pattern in one backward pass: true exactly when some index holds a lower-case letter, every later character is in `[-.0-9a-z_]` and one of them is `-` |
| `Names.MatchWitness` | src/custom-elements-registry.js:57 | a lower-case letter followed only by class characters, one of them a hyphen, is a match of the pattern |
| `Names.ReservedNameMatchesPattern` | src/custom-elements-registry.js:45-69 | each of the eight reserved names matches the pattern, and the reserved-list check still makes it invalid |
| `Names.ValidNameShape` | src/custom-elements-registry.js:64-70 | every valid name contains a hyphen and a lower-case letter |
| `Names.RegexIgnoresPrefix` | src/custom-elements-registry.js:57 | the pattern is not anchored at the start: any prefix before a matching string still matches |
| `Names.UnanchoredStartAccepted` | src/custom-elements-registry.js:57 | `1x-y`, `-a-b` and `X-x-y` are valid names, although none starts with a lower-case letter |
| `Names.AsciiLower` | src/custom-elements-registry.js:179 | lower-casing keeps the length, maps each upper-case ASCII letter to its lower-case counterpart (code point plus 32), and leaves every other character in place |
| `Names.AsciiLowerIdempotent` | src/custom-elements-registry.js:179 | lower-casing an already lower-cased name changes nothing |
| `Names.CaseSensitivityGap` | src/custom-elements-registry.js:142-146 | `x-Foo` is invalid for `whenDefined`, which does not lower-case, while `define` lower-cases it to the valid `x-foo` |
| `Dom.FindNodeRoot` | src/dom-utils.js:25-31 | the root is an ancestor-or-self of the node and has no parent |
| `Dom.RootIsOnlyParentlessAncestor` | src/dom-utils.js:25-31 | any parentless ancestor-or-self of a node is its root, so the root is unique |
| `Dom.RootOfChild` | src/dom-utils.js:25-31 | a node has the same root as its parent |
| `Dom.FindShadowInclusiveRoot` | src/dom-utils.js:39-41 | the shadow-inclusive root is the plain root |
| `Dom.ConnectedIffDocumentAncestor` | src/dom-utils.js:48-50 | a node is connected exactly when a parentless ancestor-or-self of it is a document |
| `Dom.IsConnected` | src/dom-utils.js:48-50 | a parentless node is connected exactly when it is a document, and any other node exactly when its parent is connected |
| `Dom.GetAttribute` | src/custom-elements-registry.js:391 | no value exactly when no attribute has the name; otherwise the value of the first attribute with that name |
| `Dom.SetAttribute` | src/create-element.js:46 | afterwards the name reads back the new value, every other name reads as before, and at most one attribute is added |
| `Dom.SetNodeAttribute` | src/create-element.js:46 | only the target element's attribute list changes; its local name, every other node, the parent relation and document order stay |
| `Dom.HostCreateElement` | src/create-element.js:25 | the host returns a fresh, parentless element with the lower-cased local name and no attributes |
| `Dom.FreshElementDisconnected` | src/create-element.js:25 | a freshly created element is not connected |
| `Dom.QuerySelectorAll` | src/custom-elements-registry.js:285-295 | the query for `localName` or `localName[is="name"]`, with the selector read as a test on the local name and the `is` value (text with CSS-special characters is under "## Left out"): the candidates are the elements of `window.document` whose local name matches, with the `is` attribute equal to the name when the definition extends; they are the document-order list filtered, so `Dom.FilterMatchingAppend` fixes their order and multiplicity |
| `Dom.MatchesSelector` | src/custom-elements-registry.js:288-295 | the selector read as a local-name test, which is what its text means when the name has no CSS-special character (the others are under "## Left out"): a match is an element whose root is `window.document` (so it is connected), with the selector's local name ignoring ASCII case, and with the `is` value when the selector has one |
| `Dom.FilterMatching` | src/custom-elements-registry.js:295 | keeps exactly the matching nodes of the list and never more nodes than the list has; a one-node list is kept exactly when its node matches |
| `Dom.FilterMatchingAppend` | src/custom-elements-registry.js:295 | the matches of `a + b` are the matches of `a` followed by the matches of `b`, so the result keeps each matching node as often and in the order it occurs |
| `Engine.Initial` | src/custom-elements-registry.js:73-121 | a fresh registry has no definitions, no element has a state, the queue is empty, and the invariant holds |
| `Engine.GetState` | src/custom-elements-registry.js:473-475 | an element has a state exactly when one was recorded for it, and it is the recorded one; an element never recorded reads as unset |
| `Engine.IsCustomOnlyForCustom` | src/dom-utils.js:56-58 | an unset or failed element is not custom |
| `Engine.IsCustom` | src/dom-utils.js:56-58 | an element is custom exactly when its recorded state is custom; unset and failed are not |
| `Engine.LookupByConstructor` | src/custom-elements-registry.js:406-418 | a definition found holds the constructor and is the one registered under its own name |
| `Engine.LookupByConstructorComplete` | src/custom-elements-registry.js:406-418 | the lookup succeeds exactly for registered constructors, and finds the definition that holds the constructor |
| `Engine.LastWithConstructor` | src/custom-elements-registry.js:409-415 | the key scan finds only definitions holding the constructor, and finds none only when no scanned key holds it |
| `Engine.LastWithConstructorFinds` | src/custom-elements-registry.js:409-415 | scanning the keys in order and keeping the last match finds the one definition with that constructor |
| `Engine.DefinitionKey` | src/custom-elements-registry.js:390-395 | the key is the `is` attribute's value when the element has one, whatever its case; otherwise the lower-cased local name, with no upper-case letter |
| `Engine.GetElementDefinition` | src/custom-elements-registry.js:389-398 | a definition is found exactly when the key (the `is` value, else the lower-cased local name) is a registered name; it is that name's definition |
| `Engine.ElementDefinitionByIsThenLocalName` | src/custom-elements-registry.js:389-398 | an element with an `is` attribute is looked up by that value alone, whatever its local name; one without is looked up by its lower-cased local name |
| `Engine.CallbackFor` | src/custom-elements-registry.js:450 | each reaction kind reads its own callback: connected, disconnected, adopted or attribute-changed |
| `Engine.CallbackReaction` | src/custom-elements-registry.js:446-465 | throws, changing nothing, exactly when the element has no definition; otherwise queues one callback task exactly when the callback exists and, for an attribute change, the attribute is observed |
| `Engine.CallbackReactionDrops` | src/custom-elements-registry.js:452-460 | a reaction without a callback, or an attribute change of an unobserved attribute, leaves the state as it was |
| `Engine.NoAttributeCallbackNoAttributeReaction` | src/custom-elements-registry.js:452-460 | without an attribute-changed callback no attribute reaction is queued, whatever the attribute |
| `Engine.TryUpgradeElement` | src/custom-elements-registry.js:426-436 | queues one deferred upgrade with the element's definition exactly when one is found; no upgrade runs now and nothing else changes |
| `Construction.CreateDirectly` | src/element-constructor.js:39-48 | a fresh element of the definition's local name is created, marked custom and given the prototype; the stacks, the registry and every older node stay |
| `Construction.HandOutTop` | src/element-constructor.js:50-63 | handing out the top of the stack changes neither the tree nor any node state, and a throw changes nothing |
| `Construction.ElementConstructor` | src/element-constructor.js:21-64 | the base constructor keeps the registry, the queue and every existing node's state; when it throws it changes nothing |
| `Construction.NoDefinitionThrows` | src/element-constructor.js:23-27 | an unregistered constructor throws before anything changes |
| `Construction.AutonomousNeedsHtmlElement` | src/element-constructor.js:30-32 | an autonomous definition with a wrapper built without the HTMLElement flag throws a TypeError and changes nothing |
| `Construction.DirectConstruction` | src/element-constructor.js:39-48 | with an empty stack the constructor returns a fresh custom element of the definition's local name, with the prototype attached, and the stack stays empty |
| `Construction.MarkerOnTopThrows` | src/element-constructor.js:50-54 | with the already-constructed marker on top the constructor throws; the marker is never returned as an element |
| `Construction.RendezvousHandsOutPending` | src/element-constructor.js:50-63 | with a pending element on top, the constructor returns exactly that element, attaches the prototype and replaces the entry with the marker |
| `Construction.HandOutKeepsStackShape` | src/element-constructor.js:56-63 | the hand-out keeps the stack's length, puts the marker on top, leaves the entries below and every other stack untouched, and changes no node state |
| `Construction.Construct` | src/custom-elements-registry.js:357-359 | each outcome of the application constructor: a throw before `super()` or a return without it changes nothing; after `super()`, the base constructor's state stays and its result is returned, replaced or turned into the application's throw |
| `Upgrade.AttributeReplay` | src/custom-elements-registry.js:334-343 | one attribute-changed reaction per attribute, in attribute order, with `[name, null, value, namespace]` |
| `Upgrade.EnqueueReactions` | src/custom-elements-registry.js:334-348 | without a definition, the first reaction throws and nothing changes; with one, the queue gains exactly the admitted reactions' callbacks, in order |
| `Upgrade.PushPending` | src/custom-elements-registry.js:351 | the element is pushed on its definition's stack; other stacks stay |
| `Upgrade.PopStack` | src/custom-elements-registry.js:361 | the top entry of the stack is removed; other stacks stay |
| `Upgrade.FinishUpgrade` | src/custom-elements-registry.js:357-378 | a constructor throw marks the element failed and rethrows with the stack entry left in place; a return pops the stack; another object throws an invalid-state error without marking the element; the element itself makes it custom and records the definition |
| `Upgrade.ReplayReactions` | src/custom-elements-registry.js:334-348 | replaying the attributes and then, when connected, the connected reaction is queueing the whole replay sequence in one go |
| `Upgrade.ConstructAndFinish` | src/custom-elements-registry.js:351-378 | the push, the construction and the finish leave the queue alone and change the state of no other node |
| `Upgrade.UpgradeElement` | src/custom-elements-registry.js:321-381 | a custom or failed element is left exactly as it was; otherwise only that element's state may change, the registry stays, the tree only grows and no task already run is forgotten |
| `Upgrade.UpgradeQueuesReplayFirst` | src/custom-elements-registry.js:334-351 | the replay is queued before the push: the queue gains exactly the admitted replay reactions; a replay whose lookup fails throws before the push and changes nothing |
| `Upgrade.UpgradeAppendsCallbacks` | src/custom-elements-registry.js:321-381 | an upgrade only appends to the queue, and only callback tasks for the element it upgrades |
| `Upgrade.UpgradeAfterReplay` | src/custom-elements-registry.js:334-351 | past a replay that cannot fail, the upgrade is steps 5-12 on a state that differs only in its queue |
| `Upgrade.ConstructAndFinishWellBehaved` | src/custom-elements-registry.js:351-378 | with a well-behaved constructor the element ends custom, with its definition and prototype, and the stack is back to its length before the push |
| `Upgrade.ConstructAndFinishThrowsBeforeBase` | src/custom-elements-registry.js:357-367 | a throw before `super()` marks the element failed, rethrows, and leaves the pending entry on the stack |
| `Upgrade.ConstructAndFinishThrowsAfterBase` | src/custom-elements-registry.js:357-367 | a throw after `super()` marks the element failed, rethrows, and leaves the already-constructed marker on the stack |
| `Upgrade.ConstructAndFinishIdentityMismatch` | src/custom-elements-registry.js:370-372 | a constructor returning another object throws an invalid-state error, pops the stack, and leaves the element unset |
| `Upgrade.ConstructAndFinishAutonomousRefused` | src/element-constructor.js:30-32 | an autonomous definition's `super()` throws a TypeError without the HTMLElement flag, and the upgrade marks the element failed |
| `Upgrade.UpgradeSettlesOnlyByOutcome` | src/custom-elements-registry.js:364-375 | the state only moves from unset: to custom with the definition recorded on a normal return, to failed only with a throw |
| `Upgrade.ConstructAndFinishSettles` | src/custom-elements-registry.js:351-378 | starting from unset, a normal return leaves the element custom with the definition recorded, and a failed element implies a throw |
| `Upgrade.UpgradeWellBehavedSucceeds` | src/custom-elements-registry.js:321-381 | a well-behaved upgrade returns normally with the element custom, its definition recorded, its prototype attached and the stack restored |
| `Upgrade.UpgradeThrowsBeforeBase` | src/custom-elements-registry.js:357-367 | a throw before `super()` fails the element, propagates, and leaves the stack one pending entry longer |
| `Upgrade.UpgradeThrowsAfterBase` | src/custom-elements-registry.js:357-367 | a throw after `super()` fails the element, propagates, and leaves the stack one marker longer |
| `Upgrade.UpgradeIdentityMismatch` | src/custom-elements-registry.js:370-372 | an identity mismatch throws, the element stays unset and the stack is restored |
| `Upgrade.UpgradeAutonomousRefused` | src/element-constructor.js:30-32 | without the HTMLElement flag, upgrading with an autonomous definition fails the element with a TypeError |
| `Registration.Get` | src/custom-elements-registry.js:129-134 | returns a constructor exactly for a defined name, and it is that definition's constructor |
| `Registration.WhenDefined` | src/custom-elements-registry.js:142-169 | rejects an invalid name and resolves a defined one, changing nothing; otherwise returns the name's pending promise: an existing entry is handed out again unchanged, a missing one is created unresolved, and no other name's entry or resolved promise changes; definitions never change |
| `Registration.WhenDefinedShared` | src/custom-elements-registry.js:156-168 | asking twice for the same name returns the same promise and changes nothing the second time |
| `Registration.Extends` | src/custom-elements-registry.js:207 | an absent or empty `extends` option means no extension; any other value is kept |
| `Registration.NewDefinition` | src/custom-elements-registry.js:203-276 | the record holds the name, the constructor and the prototype's callbacks; its local name is the `extends` value when one is given and the name otherwise; without an attribute-changed callback it observes no attribute |
| `Registration.Publish` | src/custom-elements-registry.js:278-282 | the definition is added under its name, and the name and the constructor join their sets; the invariant holds after |
| `Registration.PublishKeepsNames` | src/custom-elements-registry.js:278-280 | filing a new name keeps the names, the definitions' keys and the key order in agreement, with the order still free of repeats |
| `Registration.PublishKeepsCtors` | src/custom-elements-registry.js:278-281 | adding a constructor not yet registered keeps every registered constructor owned by one definition and the constructors distinct |
| `Registration.UpgradeAll` | src/custom-elements-registry.js:297-299 | upgrading the candidates in turn keeps the registry, keeps every state already set and only grows the tree |
| `Registration.ResolveWhenDefined` | src/custom-elements-registry.js:301-311 | the name's pending promise, if any, is resolved and its entry deleted; every other pending promise stays pending; the definitions stay |
| `Registration.Candidates` | src/custom-elements-registry.js:287-295 | every upgrade candidate is an element of the tree; the selector is read as a local-name test, as under `Dom.MatchesSelector` |
| `Registration.CheckDefine` | src/custom-elements-registry.js:181-229 | the checks pass exactly when the definition may be published |
| `Registration.PublishAndUpgrade` | src/custom-elements-registry.js:278-311 | publication, the scan and the resolution keep the invariant |
| `Registration.Define` | src/custom-elements-registry.js:178-312 | keeps the invariant; when a check fails it throws and changes nothing |
| `Registration.PublishAndUpgradeSteps` | src/custom-elements-registry.js:278-311 | the definition is published before the scan; a throwing upgrade aborts the scan and is returned as is; otherwise the promise for the name is resolved |
| `Registration.UpgradeAllAppend` | src/custom-elements-registry.js:297-299 | scanning `a + b` scans `a` and then, unless that threw, `b` |
| `Registration.UpgradeCompletesSettled` | src/custom-elements-registry.js:370-375 | an upgrade that returns normally leaves the element with a state, custom when it was unset |
| `Registration.UpgradeAllSettles` | src/custom-elements-registry.js:297-299 | a scan that returns normally leaves every candidate with a state, custom when it was unset |
| `Registration.DefineChecksInOrder` | src/custom-elements-registry.js:181-229 | the checks run in source order: non-function constructor, invalid lower-cased name, duplicate name, duplicate constructor, `extends` a valid custom name, prototype not an object, null prototype; each throws its own error and changes nothing |
| `Registration.DefinitionShape` | src/custom-elements-registry.js:203-276 | the local name is the `extends` value when given, otherwise the name; observed attributes are empty without an attribute-changed callback and read off the constructor with one |
| `Registration.DefinePublishes` | src/custom-elements-registry.js:278-282 | after a define whose checks pass, the lower-cased name and the constructor are recorded and `get` of that name returns the constructor, even when the scan threw |
| `Registration.RedefineFails` | src/custom-elements-registry.js:194-196 | defining the same lower-cased name again throws the duplicate-name error and changes nothing |
| `Registration.ConstructorReuseFails` | src/custom-elements-registry.js:199-201 | defining another name with a registered constructor throws the duplicate-constructor error and changes nothing |
| `Registration.DefineResolvesWhenDefined` | src/custom-elements-registry.js:301-311 | a define that completes resolves and deletes the name's pending promise, keeps the others pending, and afterwards `whenDefined` of the name resolves at once |
| `Registration.DefineAbortSkipsResolution` | src/custom-elements-registry.js:297-311 | a define that throws, before or after publication, resolves and deletes no promise |
| `Registration.MixedCasePromiseNeverResolved` | src/custom-elements-registry.js:301-311 | a pending promise under a name with an upper-case letter is never resolved by any define, which only ever resolves lower-cased names |
| `Observer.AddNode` | src/tree-observer.js:54-68 | only appends to the queue; a non-element changes nothing |
| `Observer.RemoveNode` | src/tree-observer.js:75-82 | only appends to the queue; anything but a custom element changes nothing |
| `Observer.AttributeChange` | src/tree-observer.js:89-105 | only appends to the queue; a non-custom target changes nothing |
| `Observer.AddNodes` | src/tree-observer.js:33-34 | handling the added nodes only appends to the queue |
| `Observer.RemoveNodes` | src/tree-observer.js:36-37 | handling the removed nodes only appends to the queue |
| `Observer.ProcessRecord` | src/tree-observer.js:32-41 | handling a record only appends to the queue |
| `Observer.ProcessRecords` | src/tree-observer.js:31-43 | the observer callback only appends to the queue |
| `Observer.AddNodeMeetsReference` | src/tree-observer.js:54-68 | an added custom element gets its connected reaction, and every added element with a definition a deferred upgrade, never an upgrade run now; it throws, changing nothing, exactly when a custom element's lookup fails |
| `Observer.AddNodesMeetReference` | src/tree-observer.js:33-34 | the added nodes queue their tasks in order, and the batch throws exactly when some node's lookup fails |
| `Observer.RemoveNodeMeetsReference` | src/tree-observer.js:75-82 | a removed custom element gets a disconnected reaction and nothing else does; it throws exactly when that element's lookup fails |
| `Observer.RemoveNodesMeetReference` | src/tree-observer.js:36-37 | the removed nodes queue their tasks in order, and the batch throws exactly when some node's lookup fails |
| `Observer.AttributeChangeMeetsReference` | src/tree-observer.js:89-105 | a custom target gets an attribute-changed reaction with `[name, oldValue, current value, namespace]`; nothing else does |
| `Observer.ProcessRecordOrder` | src/tree-observer.js:32-41 | within a record, the added nodes' tasks come first, then the removed nodes', then the attribute change's, all read off the state before the record |
| `Observer.ProcessRecordsMeetReference` | src/tree-observer.js:31-43 | the records queue their tasks in order, and the callback throws exactly when some record meets a failing lookup |
| `Creation.HostCreate` | src/create-element.js:25 | the host's element is fresh, has no state and no attributes, and nothing the state held before changes |
| `Creation.WriteIs` | src/create-element.js:44-47 | the `is` attribute reads back the option's value and only the new element's node changes |
| `Creation.CreateElement` | src/create-element.js:24-51 | a normal return is exactly the element the host created, fresh and of the lower-cased local name; the registry and every older node's state stay |
| `Creation.FreshElementLookup` | src/create-element.js:25-32 | the new element is looked up under its lower-cased local name and has nothing to replay |
| `Creation.CreateElementWithoutDefinition` | src/create-element.js:32-37 | with no definition under the local name, an `is` option throws whatever definition it names, and without one the host's element is returned plain with nothing queued |
| `Creation.CreateElementUpgradesSynchronously` | src/create-element.js:39-50 | with a definition, the element is upgraded before the call returns: custom, with the definition recorded, nothing queued, and the `is` attribute written afterwards only when the option is given |
| `Creation.CreateElementUpgradeThrows` | src/create-element.js:39-47 | a constructor that throws before `super()` makes the call throw its error, leaves the element failed, and the `is` attribute is never written |
| `Creation.CreateElementThrowsAfterBase` | src/create-element.js:39-47 | a constructor that throws after `super()` makes the call throw its error, leaves the element failed, and the `is` attribute is never written |
| `Creation.CreateElementIdentityMismatch` | src/create-element.js:39-47 | a constructor that returns another object makes the call throw an invalid-state error, and the element stays unset, not failed, with no `is` attribute written |
| `Creation.CreateElementAutonomousRefused` | src/create-element.js:39-47 | an autonomous definition's `super()` without the HTMLElement flag makes the call throw a TypeError, and the element is left failed with no `is` attribute written |
| `Microtasks.RunNextTask` | src/custom-elements-registry.js:432-434 | the oldest task runs and joins the tasks run; everything queued behind it keeps its place, and a deferred upgrade only appends callback tasks for its element; a callback task only consumes itself |
| `Microtasks.RunTasks` | src/custom-elements-registry.js:38 | the queue is first in, first out: running `k` tasks runs exactly the `k` oldest, in queue order, whatever they queue while running |
| `Findings.LookupAsWritten` | src/custom-elements-registry.js:397 | the plain-object read finds an own definition exactly for registered names, and an inherited property exactly for `Object.prototype` names that are not registered |
| `Findings.LookupsAgreeOffInheritedNames` | src/custom-elements-registry.js:389-398 | the own-property lookup and the plain read agree on every key except inherited names without a definition |
| `Findings.CreateElementAsWritten` | src/create-element.js:24-51 | `createElement` with the plain read keeps the invariant |
| `Findings.CreateElementAsWrittenAgrees` | src/create-element.js:25-42 | off the inherited names, `createElement` with the plain read behaves exactly as with the own-property lookup |
| `Findings.ConstructorElementThrowsAsWritten` | src/custom-elements-registry.js:351 | as written, `document.createElement("constructor")` throws a TypeError at the construction-stack push |
| `Findings.ConstructorElementIsPlain` | src/create-element.js:32-50 | with the own-property lookup, `document.createElement("constructor")` returns the host's plain element, with no state and nothing queued |
| `Findings.CallbackReactionAsWritten` | src/custom-elements-registry.js:446-465 | with the plain read, `_callbackReaction` throws, changing nothing, exactly when the read finds no own definition |
| `Findings.CallbackReactionAsWrittenAgrees` | src/custom-elements-registry.js:446-465 | `_callbackReaction` behaves identically under either lookup: an inherited property has no `lifecycleCallbacks`, so it throws as `undefined` does |
| `Findings.TryUpgradeAsWritten` | src/custom-elements-registry.js:426-437 | as written, a deferred upgrade is queued unless the read is `undefined`, and for an inherited name it is an upgrade with the inherited property |
| `Findings.AddNodeAsWritten` | src/tree-observer.js:54-68 | `_addNode` with the plain read only appends to the queue |
| `Findings.AddNodeAsWrittenAgrees` | src/tree-observer.js:54-68 | unless the element is keyed on an inherited name that is no definition, `_addNode` with the plain read completes and queues exactly as the model's `_addNode` |
| `Findings.RunInheritedUpgrade` | src/custom-elements-registry.js:321-351 | the deferred `_upgradeElement` with an inherited property changes no element's state, and throws exactly when the element is still unset |
| `Findings.InsertedConstructorElementAsWritten` | src/custom-elements-registry.js:426-437 | as written, inserting an unset element keyed on `"constructor"` queues an upgrade with the inherited property, which throws when it runs and changes nothing |
| `Findings.InsertedConstructorElementIsPlain` | src/tree-observer.js:54-68 | with the own-property lookup the same insertion queues nothing and changes nothing |

## Left out

- Real promise and microtask scheduling: `queueMicroTask` is an append to the `tasks` queue, and promises are ids that are pending until they are resolved.
- Callback bodies: application lifecycle callbacks are opaque, and running one only records that it ran.
- Subscribing the `MutationObserver` (src/tree-observer.js:44-46): mutation records are taken as input.
- Bootstrap and global patching (src/custom-elements.js, src/patches/*.js). These only install the pieces modelled here. The HTMLElement flag that src/patches/constructors.js:21 never passes is kept as the state field `isHtmlElement`.
- Feature detection (src/support.js): it depends on the host environment.
- `Reflect.construct` and `Reflect.setPrototypeOf`: the first is the abstract constructor `Behaviour`, the second a record in `prototypes`.
- Unicode case mapping: `toLowerCase` is modelled on ASCII letters only, and the name pattern is the ASCII pattern the source uses.
- Host name validation: the host's `document.createElement` can reject a malformed local name. The model always creates the element.
- Selector syntax: the source pastes the local name and the name unescaped into the selector text `localName[is="name"]` (src/custom-elements-registry.js:288-295), while the model reads that text as a test on the local name and the `is` attribute. The two agree only when the name and the `extends` value contain no character that CSS treats specially. A name the pattern accepts can still hold such characters. `1x-y` makes an invalid selector, so `querySelectorAll` throws after publication. `x-y.z` means "an `x-y` element with class `z`", `div,x-y` means every `<div>` as well as every `<x-y>`, and `{extends: "*"}` means any element with that `is` attribute. For these the source picks different upgrade candidates from the model. The model always returns the candidates it describes.
- Non-function callback values and property getters on the prototype: a callback is present or absent, and reading it has no side effects.
- `observedAttributes` string conversion (`String(attr)`): observed attributes are taken as strings.
- `Construction.CreateDirectly`: models the host's `createElement` for the direct `new` path. The source calls `document.createElement` there (src/element-constructor.js:40), and after bootstrap that is the intercepted one. The two differ only when the lower-cased local name is a registered name or an inherited name. An autonomous definition's local name is registered, but with the shipped bootstrap its constructor throws before reaching that call.
- Shadow roots are not followed, as in the source.
- Attribute prefixes: an attribute has one name, which stands for both its local name (the upgrade replay at src/custom-elements-registry.js:338 and `mutation.attributeName` at src/tree-observer.js:96) and its qualified name (`getAttribute` at src/custom-elements-registry.js:391 and src/tree-observer.js:102). For a prefixed attribute such as `xlink:href` the two differ, and the source then reads the current value as `null` where `Observer.AttributeChange` finds it.
- Several documents: `isConnected` accepts a root that is any document, as in the source, while selector queries search `window.document` only, the tree's `document` node.
- Document order: the tree's `order` list is taken as the host gives it. `Tree.Valid` does not require it to list every node of `window.document` exactly once, or `document` to be a document node of the tree; candidates are the matching entries of the list as it stands.
- Argument types: a `null` options argument is not modelled. The default `options = {}` covers only `undefined`, so `define(name, C, null)` throws a TypeError at src/custom-elements-registry.js:207, after checks 1-6 and with nothing changed. `createElement(tag, null)` throws at src/create-element.js:28, after the host has created the element. Options are `Option<string>` values, where `None` is an absent `extends` or `is`. A name that is not a string (the `toLowerCase` call at src/custom-elements-registry.js:179) is not modelled either.

## Findings

| source | as written | input that shows it | evidently intended | confidence | as-written member | corrected member |
|---|---|---|---|---|---|---|
| src/custom-elements-registry.js:397 | `_getElementDefinition` reads `this._definitions[name]` on a plain object, so a key naming an `Object.prototype` property yields that property instead of `undefined` | `document.createElement("constructor")`; no definition of that name can exist, since it has no hyphen. The inherited `Object` is passed to `_upgradeElement`, whose `constructionStack.push` (line 351) throws a TypeError. | an own-property lookup, as `get` (line 131) and `whenDefined` (line 149) use, so the call returns a plain element | not executed; high | `Findings.ConstructorElementThrowsAsWritten` | `Findings.ConstructorElementIsPlain` |
| src/custom-elements-registry.js:397 | the same read, reached through `_tryUpgradeElement` (line 431) from the tree observer's `_addNode`: an inherited property is not `null`, so a deferred upgrade is queued with it | insert `<div is="constructor">`, or any unset element keyed on `"constructor"`, into the document. The deferred `_upgradeElement(element, Object)` throws a TypeError when it runs, in the replay's `_callbackReaction` (line 450) or at the push (line 351), and changes nothing | an own-property lookup, so nothing is queued | not executed; high | `Findings.InsertedConstructorElementAsWritten` | `Findings.InsertedConstructorElementIsPlain` |
