/** The construction rendezvous (src/element-constructor.js) and the
    application constructor that reaches it.

    The base constructor finds the active definition by the constructor being
    run. With an empty construction stack it creates a fresh element (direct
    construction, `new C()`); otherwise it hands out the element an upgrade
    pushed and replaces that stack entry with the already-constructed marker.

    The application's own constructor is opaque; it is modelled by what it
    does with respect to the base constructor (`Behaviour`).
 */
module Construction {
  import opened Common
  import opened Dom
  import opened Engine

  /** What the application constructor does after `super()` returned. */
  datatype AfterBase =
    | ReturnsBaseResult           // finishes normally: `new` yields the base result
    | ThrowsAfterBase(code: nat)  // throws after `super()`
    | ReturnsOther(other: NodeId) // returns some other object

  /** The application constructor as an abstract outcome. */
  datatype Behaviour =
    | ThrowsBeforeBase(code: nat)        // throws before calling `super()`
    | ReturnsWithoutBase(other: NodeId)  // returns an object without calling `super()`
    | CallsBase(after: AfterBase)

  /** A constructor that calls `super()` and returns normally. */
  const WellBehaved: Behaviour := CallsBase(ReturnsBaseResult)

  /** What every construction step leaves alone: the registry, existing
      node states, the queue and the existing tree. */
  predicate ConstructionFrame(s: State, s': State) {
    && Valid(s')
    && RegistryUnchanged(s, s')
    && StatesKept(s, s')
    && TreeStatesKept(s, s')
    && TreeGrows(s.tree, s'.tree)
    && s'.tasks == s.tasks
    && s'.ran == s.ran
  }

  /** A construction step is within any upgrade's frame. */
  lemma ConstructionWithinUpgradeFrame(s: State, s': State, n: NodeId)
    requires ConstructionFrame(s, s')
    ensures UpgradeFrame(s, s', n) && s'.tasks == s.tasks
  {
  }

  /** The direct-construction path (an empty construction stack): a fresh
      element of the definition's local name, its prototype attached, its
      state custom. */
  function CreateDirectly(s: State, d: Definition): (r: Step<NodeId>)
    requires Valid(s)
    ensures ConstructionFrame(s, r.state) && r.state.stacks == s.stacks
    ensures r.result.Normal? && r.result.value !in s.tree.nodes
    ensures r.result.value in r.state.tree.nodes
    ensures r.state.tree.nodes[r.result.value] == Element(Names.AsciiLower(d.localName), [])
    ensures IsCustom(r.state, r.result.value)
    ensures r.state.prototypes == s.prototypes[r.result.value := d.name]
  {
    var (t', e) := HostCreateElement(s.tree, d.localName);
    var s' := s.(tree := t', prototypes := s.prototypes[e := d.name], elementStates := s.elementStates[e := Custom]);
    ValidFrame(s, s');
    Step(s', Normal(e))
  }

  /** The state after the rendezvous: the top entry replaced by the marker
      and the pending element's prototype attached; nothing else changes. */
  function AfterHandOut(s: State, d: Definition, e: NodeId): State
    requires |StackOf(s, d.name)| > 0
  {
    var stack := StackOf(s, d.name);
    s.(stacks := s.stacks[d.name := stack[..|stack| - 1] + [AlreadyConstructedMarker]],
       prototypes := s.prototypes[e := d.name])
  }

  /** The rendezvous path: the top of a non-empty stack is handed out, unless
      it is the already-constructed marker. */
  function HandOutTop(s: State, d: Definition): (r: Step<NodeId>)
    requires Valid(s) && |StackOf(s, d.name)| > 0
    ensures ConstructionFrame(s, r.state)
    ensures r.state.tree == s.tree && r.state.elementStates == s.elementStates
    ensures r.result.Throw? ==> r.state == s
  {
    var stack := StackOf(s, d.name);
    match stack[|stack| - 1]
    case AlreadyConstructedMarker => Step(s, Throw(AlreadyConstructed))
    case PendingElement(e) =>
      var s' := AfterHandOut(s, d, e);
      ValidKeptOnSameTree(s, s');
      Step(s', Normal(e))
  }

  /** The function returned by `ElementConstructor(registry, isHtmlElement)`,
      invoked for the application constructor `c`: find the definition, refuse
      an autonomous definition unless built for `HTMLElement`, then construct
      directly or hand out the pending element. */
  function ElementConstructor(s: State, c: CtorId): (r: Step<NodeId>)
    requires Valid(s)
    ensures ConstructionFrame(s, r.state)
    ensures r.result.Throw? ==> r.state == s
  {
    match LookupByConstructor(s, c)
    case None => Step(s, Throw(NoDefinitionForConstructor))
    case Some(d) =>
      if d.localName == d.name && !s.isHtmlElement then Step(s, Throw(AutonomousNotHtmlElement))
      else if |StackOf(s, d.name)| == 0 then CreateDirectly(s, d)
      else HandOutTop(s, d)
  }

  /** Without a definition for the constructor, construction throws. */
  lemma NoDefinitionThrows(s: State, c: CtorId)
    requires Valid(s) && c !in s.registry.ctors
    ensures ElementConstructor(s, c) == Step(s, Throw(NoDefinitionForConstructor))
  {
    LookupByConstructorComplete(s, c);
  }

  /** An autonomous definition (local name equal to its name) cannot be
      constructed through a wrapper built without the `HTMLElement` flag. */
  lemma AutonomousNeedsHtmlElement(s: State, d: Definition)
    requires Valid(s) && Registered(s, d)
    requires d.localName == d.name && !s.isHtmlElement
    ensures ElementConstructor(s, d.ctor) == Step(s, Throw(AutonomousNotHtmlElement))
  {
    LookupByConstructorComplete(s, d.ctor);
  }

  /** The definition `ElementConstructor` works with, when it gets past the
      two refusals. */
  predicate Constructible(s: State, d: Definition) {
    Registered(s, d) && !(d.localName == d.name && !s.isHtmlElement)
  }

  /** With an empty construction stack, `new C()` creates a fresh element of
      the definition's local name, marks it custom and returns it; the stack
      stays empty. */
  lemma {:induction false} DirectConstruction(s: State, d: Definition)
    requires Valid(s) && Constructible(s, d) && StackOf(s, d.name) == []
    ensures var r := ElementConstructor(s, d.ctor);
      && r.result.Normal?
      && r.result.value !in s.tree.nodes
      && r.result.value in r.state.tree.nodes
      && r.state.tree.nodes[r.result.value] == Element(Names.AsciiLower(d.localName), [])
      && IsCustom(r.state, r.result.value)
      && r.state.prototypes[r.result.value] == d.name
      && StackOf(r.state, d.name) == []
  {
    LookupByConstructorComplete(s, d.ctor);
    var r := CreateDirectly(s, d);
    assert ElementConstructor(s, d.ctor) == r;
  }

  /** With the already-constructed marker on top, construction throws and
      changes nothing: the marker is never handed out as an element. */
  lemma MarkerOnTopThrows(s: State, d: Definition)
    requires Valid(s) && Constructible(s, d)
    requires var stack := StackOf(s, d.name); |stack| > 0 && stack[|stack| - 1] == AlreadyConstructedMarker
    ensures ElementConstructor(s, d.ctor) == Step(s, Throw(AlreadyConstructed))
  {
    LookupByConstructorComplete(s, d.ctor);
  }

  /** With a pending element on top, construction returns that element,
      attaches the prototype to it and replaces the entry with the marker. */
  lemma RendezvousHandsOutPending(s: State, d: Definition, e: NodeId)
    requires Valid(s) && Constructible(s, d)
    requires var stack := StackOf(s, d.name); |stack| > 0 && stack[|stack| - 1] == PendingElement(e)
    ensures ElementConstructor(s, d.ctor) == Step(AfterHandOut(s, d, e), Normal(e))
  {
    LookupByConstructorComplete(s, d.ctor);
  }

  /** The rendezvous keeps the stack's length and the entries below the top,
      never changes another definition's stack, and changes no node state. */
  lemma HandOutKeepsStackShape(s: State, d: Definition, e: NodeId)
    requires |StackOf(s, d.name)| > 0
    ensures var stack := StackOf(s, d.name);
      var stack' := StackOf(AfterHandOut(s, d, e), d.name);
      && |stack'| == |stack|
      && stack'[|stack'| - 1] == AlreadyConstructedMarker
      && stack'[..|stack'| - 1] == stack[..|stack| - 1]
      && AfterHandOut(s, d, e).elementStates == s.elementStates
      && (forall other | other != d.name :: StackOf(AfterHandOut(s, d, e), other) == StackOf(s, other))
  {
  }

  /** Running the application constructor `c` (`new c()` or
      `Reflect.construct(c, [])`): without calling `super()` nothing changes;
      otherwise the base constructor's effects stay, whatever the application
      does after it. */
  function Construct(s: State, c: CtorId, b: Behaviour): (r: Step<NodeId>)
    requires Valid(s)
    ensures ConstructionFrame(s, r.state)
    ensures !b.CallsBase? ==> r.state == s
    ensures b.ThrowsBeforeBase? ==> r.result == Throw(AppError(b.code))
    ensures b.ReturnsWithoutBase? ==> r.result == Normal(b.other)
    ensures b.CallsBase? ==> r.state == ElementConstructor(s, c).state
    ensures b.CallsBase? && ElementConstructor(s, c).result.Throw? ==> r.result == ElementConstructor(s, c).result
    ensures b.CallsBase? && ElementConstructor(s, c).result.Normal? ==>
      match b.after
      case ReturnsBaseResult => r.result == ElementConstructor(s, c).result
      case ThrowsAfterBase(code) => r.result == Throw(AppError(code))
      case ReturnsOther(o) => r.result == Normal(o)
  {
    match b
    case ThrowsBeforeBase(code) => Step(s, Throw(AppError(code)))
    case ReturnsWithoutBase(o) => Step(s, Normal(o))
    case CallsBase(after) =>
      var r := ElementConstructor(s, c);
      if r.result.Throw? then r
      else
        match after
        case ReturnsBaseResult => r
        case ThrowsAfterBase(code) => Step(r.state, Throw(AppError(code)))
        case ReturnsOther(o) => Step(r.state, Normal(o))
  }
}
