/** `_getElementDefinition` as written (src/custom-elements-registry.js:389-398)
    indexes the plain object `_definitions` directly, so a key that is not a
    definition can still find a property inherited from `Object.prototype`.
    `get` and `whenDefined` guard the same object with `hasOwnProperty`; the
    lookup evidently means the same own-property test, which is what
    `Engine.GetElementDefinition` models and the rest of the model uses.

    This module keeps the lookup as written beside it for every caller of
    `_getElementDefinition` and shows where the two part:
    - `_callbackReaction` (:446-465) never does: reading a callback off an
      inherited property throws the same TypeError as reading it off
      `undefined`;
    - `document.createElement("constructor")` throws instead of returning a
      plain element;
    - the tree observer's `_addNode` for an inserted element keyed on
      `"constructor"` (`<div is="constructor">`, say) queues, through
      `_tryUpgradeElement` (:426-437), a deferred upgrade with the inherited
      property, and that upgrade throws when it runs.
    `define`'s scan hands its own definition to `_upgradeElement`, so it is
    reached only through `_callbackReaction`.
 */
module Findings {
  import opened Common
  import opened Dom
  import opened Engine
  import opened Construction
  import opened Upgrade
  import opened Creation
  import Observer
  import Names

  /** The properties every plain object inherits from `Object.prototype`. */
  const InheritedNames: set<string> := {
    "constructor", "__proto__", "hasOwnProperty", "isPrototypeOf",
    "propertyIsEnumerable", "toLocaleString", "toString", "valueOf",
    "__defineGetter__", "__defineSetter__", "__lookupGetter__", "__lookupSetter__"}

  /** What `_definitions[key]` yields: an own definition, a non-null
      inherited property that is no definition, or `undefined`. */
  datatype Lookup = Own(definition: Definition) | Inherited | Missing

  /** `this._definitions[name]` on the plain object: own keys first, then
      the prototype chain. */
  function LookupAsWritten(g: Registry, key: string): (r: Lookup)
    ensures r.Own? <==> key in g.definitions
    ensures r.Own? ==> r.definition == g.definitions[key]
    ensures r.Inherited? <==> key !in g.definitions && key in InheritedNames
  {
    if key in g.definitions then Own(g.definitions[key])
    else if key in InheritedNames then Inherited
    else Missing
  }

  /** The own-property lookup and the plain lookup agree except on inherited
      names that are not definitions. */
  lemma LookupsAgreeOffInheritedNames(s: State, n: NodeId)
    requires s.tree.IsElement(n)
    ensures var key := DefinitionKey(s.tree, n);
      && (GetElementDefinition(s, n).Some? <==> LookupAsWritten(s.registry, key).Own?)
      && (LookupAsWritten(s.registry, key).Inherited? <==>
            GetElementDefinition(s, n).None? && key in InheritedNames)
  {
  }

  /** `document.createElement` with the lookup as written. An inherited
      property is not `null`, so it is passed to `_upgradeElement` as a
      definition; the fresh element has nothing to replay, so the first step
      that touches it is step 5, `definition.constructionStack.push`, and
      `constructionStack` is `undefined` there: a TypeError. */
  function CreateElementAsWritten(s: State, localName: string, isOption: Option<string>, b: Behaviour): (r: Step<NodeId>)
    requires Valid(s)
    ensures Valid(r.state)
  {
    var (s1, e) := HostCreate(s, localName);
    match LookupAsWritten(s1.registry, DefinitionKey(s1.tree, e))
    case Inherited => Step(s1, Throw(NoConstructionStack))
    case _ => CreateElement(s, localName, isOption, b)
  }

  /** Off the inherited names the lookup as written changes nothing. */
  lemma CreateElementAsWrittenAgrees(s: State, localName: string, isOption: Option<string>, b: Behaviour)
    requires Valid(s) && Names.AsciiLower(localName) !in InheritedNames
    ensures CreateElementAsWritten(s, localName, isOption, b) == CreateElement(s, localName, isOption, b)
  {
    FreshElementLookup(s, localName);
  }

  /** The input that shows it: with no definition named "constructor" (none
      can exist, the name has no hyphen), `createElement("constructor")` as
      written throws a TypeError. */
  lemma ConstructorElementThrowsAsWritten(s: State, b: Behaviour)
    requires Valid(s) && "constructor" !in s.registry.definitions
    ensures CreateElementAsWritten(s, "constructor", None, b).result == Throw(NoConstructionStack)
  {
    LowerConstructor();
    FreshElementLookup(s, "constructor");
  }

  /** With the own-property lookup the same call returns a plain element:
      no state, nothing queued, exactly what the host created. */
  lemma ConstructorElementIsPlain(s: State, b: Behaviour)
    requires Valid(s) && "constructor" !in s.registry.definitions
    ensures var r := CreateElement(s, "constructor", None, b);
      var (s1, e) := HostCreate(s, "constructor");
      && r == Step(s1, Normal(e))
      && GetState(r.state, e).None?
      && r.state.tasks == s.tasks
  {
    LowerConstructor();
    CreateElementWithoutDefinition(s, "constructor", None, b);
  }

  lemma LowerConstructor()
    ensures Names.AsciiLower("constructor") == "constructor"
  {
    var r := Names.AsciiLower("constructor");
    assert forall i | 0 <= i < |r| :: r[i] == "constructor"[i];
  }

  /** `_callbackReaction` with the lookup as written. */
  function CallbackReactionAsWritten(s: State, n: NodeId, rx: Reaction): (r: Step<()>)
    requires s.tree.IsElement(n)
    ensures r.result.Throw? <==> !LookupAsWritten(s.registry, DefinitionKey(s.tree, n)).Own?
    ensures r.result.Throw? ==> r.state == s
  {
    match LookupAsWritten(s.registry, DefinitionKey(s.tree, n))
    case Own(d) =>
      (match CallbackFor(d.callbacks, rx)
       case None => Step(s, Normal(()))
       case Some(f) =>
         if rx.AttributeChanged? && rx.name !in d.observedAttributes then Step(s, Normal(()))
         else Step(s.(tasks := s.tasks + [RunCallback(n, f, rx)]), Normal(())))
    case Inherited => Step(s, Throw(MissingDefinition))   // `lifecycleCallbacks` is undefined
    case Missing => Step(s, Throw(MissingDefinition))     // the definition is undefined
  }

  /** `_callbackReaction` is the same under either lookup, so every path
      through it (the observer's reactions, the replay of an upgrade) is
      modelled exactly by `Engine.CallbackReaction`. */
  lemma CallbackReactionAsWrittenAgrees(s: State, n: NodeId, rx: Reaction)
    requires s.tree.IsElement(n)
    ensures CallbackReactionAsWritten(s, n, rx) == CallbackReaction(s, n, rx)
  {
    LookupsAgreeOffInheritedNames(s, n);
  }

  /** A queue entry as written: a task of the model, or a deferred
      `_upgradeElement(element, inherited)` that the model has no task for. */
  datatype QueuedAsWritten = Modelled(task: Task) | InheritedUpgrade(element: NodeId)

  /** The model's tasks as queue entries. */
  function Lift(ts: seq<Task>): (r: seq<QueuedAsWritten>)
    ensures |r| == |ts|
    ensures forall i | 0 <= i < |ts| :: r[i] == Modelled(ts[i])
  {
    seq(|ts|, i requires 0 <= i < |ts| => Modelled(ts[i]))
  }

  lemma LiftAppend(a: seq<Task>, b: seq<Task>)
    ensures Lift(a + b) == Lift(a) + Lift(b)
  {
    assert forall i | 0 <= i < |a + b| :: Lift(a + b)[i] == (Lift(a) + Lift(b))[i];
  }

  /** `_tryUpgradeElement` as written: the entry it queues, if any. An
      inherited property is not `null`, so it is queued as a definition. */
  function TryUpgradeAsWritten(s: State, n: NodeId): (r: seq<QueuedAsWritten>)
    requires s.tree.IsElement(n)
    ensures |r| <= 1
    ensures r == [] <==> LookupAsWritten(s.registry, DefinitionKey(s.tree, n)).Missing?
    ensures LookupAsWritten(s.registry, DefinitionKey(s.tree, n)).Inherited? ==> r == [InheritedUpgrade(n)]
  {
    match LookupAsWritten(s.registry, DefinitionKey(s.tree, n))
    case Own(d) => [Modelled(RunUpgrade(n, d))]
    case Inherited => [InheritedUpgrade(n)]
    case Missing => []
  }

  /** `_addNode` as written: how it completes and the whole queue it
      leaves. */
  function AddNodeAsWritten(s: State, n: NodeId): (r: (Completion<()>, seq<QueuedAsWritten>))
    ensures Lift(s.tasks) <= r.1
  {
    if !s.tree.IsElement(n) then (Normal(()), Lift(s.tasks))
    else
      var c := if IsCustom(s, n) then CallbackReactionAsWritten(s, n, Connected) else Step(s, Normal(()));
      CallbackReactionAsWrittenAgrees(s, n, Connected);
      Observer.CallbackReactionQueues(s, n, Connected);
      LiftAppend(s.tasks, c.state.tasks[|s.tasks|..]);
      assert s.tasks + c.state.tasks[|s.tasks|..] == c.state.tasks;
      if c.result.Throw? then (c.result, Lift(c.state.tasks))
      else (Normal(()), Lift(c.state.tasks) + TryUpgradeAsWritten(c.state, n))
  }

  /** Unless the element is keyed on an inherited name that is no
      definition, `_addNode` as written does what the model's does. */
  lemma AddNodeAsWrittenAgrees(s: State, n: NodeId)
    requires s.tree.IsElement(n) ==>
      DefinitionKey(s.tree, n) !in InheritedNames || DefinitionKey(s.tree, n) in s.registry.definitions
    ensures var r := Observer.AddNode(s, n);
      AddNodeAsWritten(s, n) == (r.result, Lift(r.state.tasks))
  {
    if s.tree.IsElement(n) {
      var c := if IsCustom(s, n) then CallbackReaction(s, n, Connected) else Step(s, Normal(()));
      CallbackReactionAsWrittenAgrees(s, n, Connected);
      if c.result.Normal? {
        var t := TryUpgradeElement(c.state, n);
        LookupsAgreeOffInheritedNames(c.state, n);
        assert TryUpgradeAsWritten(c.state, n) == Lift(t.tasks[|c.state.tasks|..]);
        LiftAppend(c.state.tasks, t.tasks[|c.state.tasks|..]);
        assert c.state.tasks + t.tasks[|c.state.tasks|..] == t.tasks;
      }
    }
  }

  /** A deferred `_upgradeElement(element, inherited)` when it runs. A custom
      or failed element returns at steps 1-2. Otherwise the replay goes
      through `_callbackReaction`, the same under either lookup, and then
      step 5 reads `constructionStack` off the inherited property, which has
      none: a TypeError. Either way no element changes state. */
  function RunInheritedUpgrade(s: State, n: NodeId): (r: Step<()>)
    requires Valid(s) && s.tree.IsElement(n)
    ensures r.state == s.(tasks := r.state.tasks)
    ensures r.result.Throw? <==> GetState(s, n).None?
  {
    if GetState(s, n).Some? then Step(s, Normal(()))
    else
      var q := ReplayReactions(s, n);
      if q.result.Throw? then q else Step(q.state, Throw(NoConstructionStack))
  }

  /** The input that shows it on the observer path: an unset element keyed
      on `"constructor"` is inserted. As written `_addNode` queues a deferred
      upgrade with the inherited property; run while the element is still
      keyed so, it throws without changing anything. */
  lemma InsertedConstructorElementAsWritten(s: State, n: NodeId)
    requires Valid(s) && s.tree.IsElement(n) && GetState(s, n).None?
    requires DefinitionKey(s.tree, n) == "constructor" && "constructor" !in s.registry.definitions
    ensures AddNodeAsWritten(s, n) == (Normal(()), Lift(s.tasks) + [InheritedUpgrade(n)])
    ensures var r := RunInheritedUpgrade(s, n);
      r.result.Throw? && r.state == s
  {
    assert !IsCustom(s, n);
    assert GetElementDefinition(s, n).None?;
  }

  /** With the own-property lookup the same insertion queues nothing. */
  lemma InsertedConstructorElementIsPlain(s: State, n: NodeId)
    requires Valid(s) && s.tree.IsElement(n) && GetState(s, n).None?
    requires DefinitionKey(s.tree, n) == "constructor" && "constructor" !in s.registry.definitions
    ensures Observer.AddNode(s, n) == Step(s, Normal(()))
  {
    assert !IsCustom(s, n);
  }
}
