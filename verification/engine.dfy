/** The polyfill's mutable state, made explicit, and the registry's lookups
    and reaction enqueueing (src/custom-elements-registry.js,
    src/dom-utils.js:56-58).

    One `State` value holds what the source spreads over the registry object
    (`_names`, `_constructors`, `_definitions`, `_whenDefined`,
    `_customElementState`, `_customElementDefinition`), the per-definition
    construction stacks, the microtask queue and the host tree. Deferred work
    (`queueMicroTask`) is an append to `tasks`; promises are ids that are
    pending until they enter `resolved`.
 */
module Engine {
  import opened Common
  import opened Dom
  import Names

  /** The lifecycle callbacks read off a prototype; `None` is the source's
      `null` (the prototype had no such property, or it was `undefined`/`null`). */
  datatype Callbacks = Callbacks(
    connected: Option<FnId>,
    disconnected: Option<FnId>,
    adopted: Option<FnId>,
    attributeChanged: Option<FnId>)

  /** A lifecycle reaction together with its arguments. `AttributeChanged`
      carries `[name, oldValue, newValue, namespace]`; JavaScript `null` is `None`. */
  datatype Reaction =
    | Connected
    | Disconnected
    | Adopted
    | AttributeChanged(name: string, oldValue: Option<string>, newValue: Option<string>, namespace: Option<string>)

  datatype Definition = Definition(
    name: string,
    localName: string,
    ctor: CtorId,
    observedAttributes: seq<string>,
    callbacks: Callbacks)

  /** An entry of a construction stack. */
  datatype Entry = PendingElement(element: NodeId) | AlreadyConstructedMarker

  /** A node's custom element state; a node missing from the map is unset. */
  datatype ElementState = Custom | Failed

  /** A queued microtask: a lifecycle callback bound to its element and
      arguments, or a deferred upgrade. */
  datatype Task =
    | RunCallback(element: NodeId, callback: FnId, reaction: Reaction)
    | RunUpgrade(element: NodeId, definition: Definition)

  /** The registry proper: what `define`, `get` and `whenDefined` read and
      write. Definitions are only ever added. */
  datatype Registry = Registry(
    names: set<string>,
    ctors: set<CtorId>,
    definitions: map<string, Definition>,
    definitionOrder: seq<string>,       // key order of `_definitions`
    whenDefined: map<string, PromiseId>,
    nextPromise: PromiseId,
    resolved: set<PromiseId>)

  datatype State = State(
    registry: Registry,
    elementStates: map<NodeId, ElementState>,
    elementDefinitions: map<NodeId, Definition>,
    prototypes: map<NodeId, string>,    // elements whose prototype was swapped, by definition name
    stacks: map<string, seq<Entry>>,    // construction stacks, by definition name
    tasks: seq<Task>,                   // the microtask queue, oldest first
    ran: seq<Task>,                     // microtasks already run, oldest first
    tree: Tree,
    isHtmlElement: bool)                // the flag the base-constructor wrapper was built with

  /** The result of an operation: the state it leaves and how it completed. */
  datatype Step<+T> = Step(state: State, result: Completion<T>)

  /** A freshly bootstrapped polyfill over a given document. */
  function Initial(t: Tree, isHtmlElement: bool): (s: State)
    requires t.Valid()
    ensures s.registry.definitions == map[] && s.tasks == [] && s.elementStates == map[]
    ensures forall n :: GetState(s, n).None?
    ensures Valid(s)
  {
    State(Registry({}, {}, map[], [], map[], 0, {}), map[], map[], map[], map[], [], [], t, isHtmlElement)
  }

  /** The invariant the registry keeps: the name set, the constructor set,
      the definition map and its key order describe the same definitions;
      constructors are unique; pending promises are distinct, handed out and
      unresolved; every node with a state is an element of the tree. */
  predicate Valid(s: State) {
    && RegistryValid(s.registry)
    && s.tree.Valid()
    && (forall n | n in s.elementStates :: s.tree.IsElement(n))
  }

  predicate RegistryValid(g: Registry) {
    NamesValid(g) && CtorsValid(g) && PromisesValid(g)
  }

  /** The name set, the definition map and its key order list the same
      names, each once, and every definition is filed under its own name. */
  predicate NamesValid(g: Registry) {
    && g.names == g.definitions.Keys
    && (forall k | k in g.definitions :: g.definitions[k].name == k)
    && (forall k | k in g.definitionOrder :: k in g.definitions)
    && (forall k | k in g.definitions :: k in g.definitionOrder)
    && (forall i, j | 0 <= i < j < |g.definitionOrder| :: g.definitionOrder[i] != g.definitionOrder[j])
  }

  /** The constructor set holds exactly the definitions' constructors, and no
      two definitions share one. */
  predicate CtorsValid(g: Registry) {
    && (forall c | c in g.ctors :: exists k | k in g.definitions :: g.definitions[k].ctor == c)
    && (forall k | k in g.definitions :: g.definitions[k].ctor in g.ctors)
    && (forall k1, k2 | k1 in g.definitions && k2 in g.definitions && k1 != k2 ::
          g.definitions[k1].ctor != g.definitions[k2].ctor)
  }

  /** Pending promises are distinct, handed out and unresolved. */
  predicate PromisesValid(g: Registry) {
    && (forall k | k in g.whenDefined :: g.whenDefined[k] < g.nextPromise && g.whenDefined[k] !in g.resolved)
    && (forall k1, k2 | k1 in g.whenDefined && k2 in g.whenDefined && k1 != k2 :: g.whenDefined[k1] != g.whenDefined[k2])
    && (forall p | p in g.resolved :: p < g.nextPromise)
  }

  /** `d` is the definition the registry holds under its name. */
  predicate Registered(s: State, d: Definition) {
    d.name in s.registry.definitions && s.registry.definitions[d.name] == d
  }

  /** `_getState`: the state recorded for the node; one never recorded reads
      as `undefined`. */
  function GetState(s: State, n: NodeId): (r: Option<ElementState>)
    ensures r.Some? <==> n in s.elementStates
    ensures r.Some? ==> r.value == s.elementStates[n]
  {
    if n in s.elementStates then Some(s.elementStates[n]) else None
  }

  /** `isCustom` (src/dom-utils.js:56-58): the state is exactly custom. */
  function IsCustom(s: State, n: NodeId): (r: bool)
    ensures r <==> n in s.elementStates && s.elementStates[n] == Custom
  {
    GetState(s, n) == Some(Custom)
  }

  /** Unset and failed are both not custom. */
  lemma IsCustomOnlyForCustom(s: State, n: NodeId)
    ensures GetState(s, n).None? ==> !IsCustom(s, n)
    ensures GetState(s, n) == Some(Failed) ==> !IsCustom(s, n)
    ensures IsCustom(s, n) <==> n in s.elementStates && s.elementStates[n] == Custom
  {
  }

  /** The construction stack of the definition named `name`. */
  function StackOf(s: State, name: string): seq<Entry> {
    if name in s.stacks then s.stacks[name] else []
  }

  /** `_lookupByConstructor`: visit the definitions in key order and keep the
      last one whose constructor is `c`. */
  function LookupByConstructor(s: State, c: CtorId): (r: Option<Definition>)
    ensures r.Some? ==> r.value.ctor == c && r.value in s.registry.definitions.Values
    ensures r.Some? && Valid(s) ==> Registered(s, r.value)
  {
    LastWithConstructor(s, s.registry.definitionOrder, c)
  }

  /** In a valid registry the lookup succeeds exactly for registered
      constructors, and finds the definition that holds the constructor. */
  lemma LookupByConstructorComplete(s: State, c: CtorId)
    requires Valid(s)
    ensures LookupByConstructor(s, c).Some? <==> c in s.registry.ctors
    ensures forall k | k in s.registry.definitions && s.registry.definitions[k].ctor == c ::
      LookupByConstructor(s, c) == Some(s.registry.definitions[k])
  {
    forall k | k in s.registry.definitions && s.registry.definitions[k].ctor == c
      ensures LookupByConstructor(s, c) == Some(s.registry.definitions[k])
    {
      LastWithConstructorFinds(s, s.registry.definitionOrder, c, k);
    }
    if c in s.registry.ctors {
      var k :| k in s.registry.definitions && s.registry.definitions[k].ctor == c;
      LastWithConstructorFinds(s, s.registry.definitionOrder, c, k);
    }
  }

  /** The scan of `_lookupByConstructor` over `keys`, from the last key
      back: it finds a definition with the constructor exactly when one of
      the keys holds one. */
  function LastWithConstructor(s: State, keys: seq<string>, c: CtorId): (r: Option<Definition>)
    ensures r.Some? ==> r.value.ctor == c && r.value in s.registry.definitions.Values
    ensures r.None? ==> forall i | 0 <= i < |keys| && keys[i] in s.registry.definitions ::
      s.registry.definitions[keys[i]].ctor != c
  {
    if |keys| == 0 then None
    else
      var k := keys[|keys| - 1];
      if k in s.registry.definitions && s.registry.definitions[k].ctor == c then Some(s.registry.definitions[k])
      else LastWithConstructor(s, keys[..|keys| - 1], c)
  }

  /** In a valid registry the scan finds the one definition with that
      constructor. */
  lemma {:induction false} LastWithConstructorFinds(s: State, keys: seq<string>, c: CtorId, k: string)
    requires Valid(s)
    requires k in keys && k in s.registry.definitions && s.registry.definitions[k].ctor == c
    ensures LastWithConstructor(s, keys, c) == Some(s.registry.definitions[k])
    decreases |keys|
  {
    var last := keys[|keys| - 1];
    if last in s.registry.definitions && s.registry.definitions[last].ctor == c {
      assert last == k;
    } else {
      assert k in keys[..|keys| - 1] by {
        var i :| 0 <= i < |keys| && keys[i] == k;
        assert i < |keys| - 1;
        assert keys[..|keys| - 1][i] == k;
      }
      LastWithConstructorFinds(s, keys[..|keys| - 1], c, k);
    }
  }

  /** The name `_getElementDefinition` looks up: the `is` attribute when the
      element has one, otherwise its lower-cased local name. */
  function DefinitionKey(t: Tree, n: NodeId): (r: string)
    requires t.IsElement(n)
    ensures GetAttribute(t.nodes[n].attributes, "is").Some? ==> r == GetAttribute(t.nodes[n].attributes, "is").value
    ensures GetAttribute(t.nodes[n].attributes, "is").None? ==>
      r == Names.AsciiLower(t.nodes[n].localName) && forall i | 0 <= i < |r| :: !('A' <= r[i] <= 'Z')
  {
    match GetAttribute(t.nodes[n].attributes, "is")
    case Some(v) => v
    case None => Names.AsciiLower(t.nodes[n].localName)
  }

  /** `_getElementDefinition`, reading only the registry's own definitions. */
  function GetElementDefinition(s: State, n: NodeId): (r: Option<Definition>)
    requires s.tree.IsElement(n)
    ensures r.Some? <==> DefinitionKey(s.tree, n) in s.registry.definitions
    ensures r.Some? ==> r.value == s.registry.definitions[DefinitionKey(s.tree, n)]
    ensures r.Some? && Valid(s) ==> r.value.name == DefinitionKey(s.tree, n)
  {
    var key := DefinitionKey(s.tree, n);
    if key in s.registry.definitions then Some(s.registry.definitions[key]) else None
  }

  /** An element with an `is` attribute is looked up by that value alone; one
      without is looked up by its lower-cased local name. */
  lemma ElementDefinitionByIsThenLocalName(s: State, n: NodeId)
    requires Valid(s) && s.tree.IsElement(n)
    ensures var isAttr := GetAttribute(s.tree.nodes[n].attributes, "is");
      && (isAttr.Some? ==> (GetElementDefinition(s, n).Some? <==> isAttr.value in s.registry.definitions))
      && (isAttr.None? ==> (GetElementDefinition(s, n).Some? <==>
                         Names.AsciiLower(s.tree.nodes[n].localName) in s.registry.definitions))
      && (GetElementDefinition(s, n).Some? ==>
            GetElementDefinition(s, n).value.name == (if isAttr.Some? then isAttr.value else Names.AsciiLower(s.tree.nodes[n].localName)))
  {
  }

  /** The callback a reaction of this kind would invoke: each kind reads its
      own property of `lifecycleCallbacks`. */
  function CallbackFor(cbs: Callbacks, rx: Reaction): (r: Option<FnId>)
    ensures rx.Connected? ==> r == cbs.connected
    ensures rx.Disconnected? ==> r == cbs.disconnected
    ensures rx.Adopted? ==> r == cbs.adopted
    ensures rx.AttributeChanged? ==> r == cbs.attributeChanged
  {
    match rx
    case Connected => cbs.connected
    case Disconnected => cbs.disconnected
    case Adopted => cbs.adopted
    case AttributeChanged(_, _, _, _) => cbs.attributeChanged
  }

  /** The definition would run a reaction: it has the callback and, for an
      attribute change, observes the attribute. */
  predicate Admits(d: Definition, rx: Reaction) {
    && CallbackFor(d.callbacks, rx).Some?
    && (rx.AttributeChanged? ==> rx.name in d.observedAttributes)
  }

  /** `_callbackReaction`: look up the element's definition (throwing when
      there is none, as reading a property of `undefined` does), drop the
      reaction when the callback is absent or the attribute unobserved, and
      otherwise queue the callback. */
  function CallbackReaction(s: State, n: NodeId, rx: Reaction): (r: Step<()>)
    requires s.tree.IsElement(n)
    ensures r.result.Throw? <==> GetElementDefinition(s, n).None?
    ensures r.result.Throw? ==> r.result.error == MissingDefinition && r.state == s
    ensures r.state == s.(tasks := r.state.tasks)
    ensures var d := GetElementDefinition(s, n);
      if d.Some? && Admits(d.value, rx)
      then r.state.tasks == s.tasks + [RunCallback(n, CallbackFor(d.value.callbacks, rx).value, rx)]
      else r.state.tasks == s.tasks
  {
    match GetElementDefinition(s, n)
    case None => Step(s, Throw(MissingDefinition))
    case Some(d) =>
      match CallbackFor(d.callbacks, rx)
      case None => Step(s, Normal(()))
      case Some(f) =>
        if rx.AttributeChanged? && rx.name !in d.observedAttributes then Step(s, Normal(()))
        else Step(s.(tasks := s.tasks + [RunCallback(n, f, rx)]), Normal(()))
  }

  /** A reaction is dropped when its callback is absent, or when it is an
      attribute change for an attribute the definition does not observe. */
  lemma CallbackReactionDrops(s: State, n: NodeId, rx: Reaction)
    requires s.tree.IsElement(n) && GetElementDefinition(s, n).Some?
    requires var d := GetElementDefinition(s, n).value;
      CallbackFor(d.callbacks, rx).None? || (rx.AttributeChanged? && rx.name !in d.observedAttributes)
    ensures CallbackReaction(s, n, rx) == Step(s, Normal(()))
  {
  }

  /** Without an attribute-changed callback no attribute reaction is ever
      queued, whatever the attribute. */
  lemma NoAttributeCallbackNoAttributeReaction(s: State, n: NodeId, name: string, oldValue: Option<string>, newValue: Option<string>, ns: Option<string>)
    requires s.tree.IsElement(n) && GetElementDefinition(s, n).Some?
    requires GetElementDefinition(s, n).value.callbacks.attributeChanged.None?
    ensures CallbackReaction(s, n, AttributeChanged(name, oldValue, newValue, ns)).state == s
  {
  }

  /** `_tryUpgradeElement`: queue an upgrade when the element has a
      definition; no upgrade runs now and no node state changes. */
  function TryUpgradeElement(s: State, n: NodeId): (s': State)
    requires s.tree.IsElement(n)
    ensures s' == s.(tasks := s'.tasks)
    ensures GetElementDefinition(s, n).Some? ==>
      s'.tasks == s.tasks + [RunUpgrade(n, GetElementDefinition(s, n).value)]
    ensures GetElementDefinition(s, n).None? ==> s'.tasks == s.tasks
  {
    match GetElementDefinition(s, n)
    case Some(d) => s.(tasks := s.tasks + [RunUpgrade(n, d)])
    case None => s
  }

  /** Concatenating task sequences associates; stated once so that proofs
      about queues can cite it instead of rediscovering it. */
  lemma AppendAssociative(a: seq<Task>, b: seq<Task>, c: seq<Task>)
    ensures (a + b) + c == a + (b + c)
  {
  }

  /** Changing only the queue keeps the invariant. */
  lemma TasksOnlyKeepValid(s: State, s': State)
    requires Valid(s) && s' == s.(tasks := s'.tasks)
    ensures Valid(s')
  {
  }

  /** Nothing of the registry proper changes: names, constructors,
      definitions, pending `whenDefined` promises and the wrapper flag. */
  predicate RegistryUnchanged(s: State, s': State) {
    s'.registry == s.registry && s'.isHtmlElement == s.isHtmlElement
  }

  /** The tree only gains fresh nodes: existing nodes, the parent relation
      and document order are as they were. */
  predicate TreeGrows(t: Tree, t': Tree) {
    && t'.Valid()
    && t.nodes.Keys <= t'.nodes.Keys
    && (forall m | m in t.nodes :: t'.nodes[m] == t.nodes[m])
    && (forall m | m in t.rank :: m in t'.rank && t'.rank[m] == t.rank[m])
    && t'.parent == t.parent
    && t'.order == t.order
    && t'.document == t.document
    && t.next <= t'.next
  }

  /** Custom and failed are terminal: every state already set stays as it is. */
  predicate StatesKept(s: State, s': State) {
    forall m | m in s.elementStates :: m in s'.elementStates && s'.elementStates[m] == s.elementStates[m]
  }

  /** No node of the tree `s` had gains, loses or changes its state. */
  predicate TreeStatesKept(s: State, s': State) {
    forall m | m in s.tree.nodes :: GetState(s', m) == GetState(s, m)
  }

  /** Of the nodes of the tree `s` holds, only `n` may have changed state. */
  predicate OthersKept(s: State, s': State, n: NodeId) {
    forall m | m in s.tree.nodes && m != n :: GetState(s', m) == GetState(s, m)
  }

  /** What any step other than `define` leaves alone: the invariant holds,
      the registry is as it was, the tree only grows, no state already set
      changes and no task already run is forgotten. The queue may change. */
  predicate Evolves(s: State, s': State) {
    && Valid(s')
    && RegistryUnchanged(s, s')
    && StatesKept(s, s')
    && TreeGrows(s.tree, s'.tree)
    && s'.ran == s.ran
  }

  lemma EvolvesTransitive(s1: State, s2: State, s3: State)
    requires Evolves(s1, s2) && Evolves(s2, s3)
    ensures Evolves(s1, s3)
  {
  }

  /** What an upgrade of `n` leaves alone: besides evolving, no other node of
      the tree changes state. */
  predicate UpgradeFrame(s: State, s': State, n: NodeId) {
    Evolves(s, s') && OthersKept(s, s', n)
  }

  /** Upgrade frames compose. */
  lemma UpgradeFrameTransitive(s1: State, s2: State, s3: State, n: NodeId)
    requires UpgradeFrame(s1, s2, n) && UpgradeFrame(s2, s3, n)
    ensures UpgradeFrame(s1, s3, n)
  {
  }

  /** Changing only the queue, the construction stacks or the recorded
      definitions stays within an upgrade's frame. */
  lemma BookkeepingOnlyUpgradeFrame(s: State, s': State, n: NodeId)
    requires Valid(s)
    requires s' == s.(tasks := s'.tasks, stacks := s'.stacks, elementDefinitions := s'.elementDefinitions)
    ensures UpgradeFrame(s, s', n)
  {
  }

  /** Settling an unset element's state, together with bookkeeping changes,
      stays within that element's upgrade frame. */
  lemma SettleUpgradeFrame(s: State, s': State, n: NodeId, st: ElementState)
    requires Valid(s) && s.tree.IsElement(n) && GetState(s, n).None?
    requires s' == s.(elementStates := s.elementStates[n := st], stacks := s'.stacks, elementDefinitions := s'.elementDefinitions)
    ensures UpgradeFrame(s, s', n)
  {
  }

  /** Roots, and so connectedness, of existing nodes survive tree growth. */
  lemma {:induction false} RootStable(t: Tree, t': Tree, n: NodeId)
    requires t.Valid() && TreeGrows(t, t') && n in t.nodes
    ensures FindNodeRoot(t', n) == FindNodeRoot(t, n)
    ensures IsConnected(t', n) == IsConnected(t, n)
    decreases t.rank[n]
  {
    if n in t.parent {
      RootStable(t, t', t.parent[n]);
    }
  }

  lemma TreeGrowsTransitive(t1: Tree, t2: Tree, t3: Tree)
    requires TreeGrows(t1, t2) && TreeGrows(t2, t3)
    ensures TreeGrows(t1, t3)
  {
  }

  /** The invariant survives any step that leaves the registry alone, only
      grows the tree, and gives states to elements only. */
  lemma ValidFrame(s: State, s': State)
    requires Valid(s) && RegistryUnchanged(s, s') && TreeGrows(s.tree, s'.tree)
    requires forall n | n in s'.elementStates :: s'.tree.IsElement(n)
    ensures Valid(s')
  {
  }

  /** The invariant survives any step that changes neither the registry,
      the tree nor the node states. */
  lemma ValidKeptOnSameTree(s: State, s': State)
    requires Valid(s) && RegistryUnchanged(s, s') && s'.tree == s.tree && s'.elementStates == s.elementStates
    ensures Valid(s')
  {
  }
}
