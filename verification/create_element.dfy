/** The intercepted `document.createElement(localName, options)`
    (src/create-element.js): the host creates the element, the registry looks
    up a definition for it, a definition found upgrades it synchronously, and
    the `is` option is written back as an attribute last.
 */
module Creation {
  import opened Common
  import opened Dom
  import opened Engine
  import opened Construction
  import opened Upgrade
  import Names

  /** Step 1: the host's `createElement` on the state's tree. The element is
      fresh, so it has no state and no attributes and is not connected. */
  function HostCreate(s: State, localName: string): (r: (State, NodeId))
    requires Valid(s)
    ensures var (s1, e) := r;
      && Evolves(s, s1) && TreeStatesKept(s, s1)
      && s1 == s.(tree := s1.tree)
      && e !in s.tree.nodes && s1.tree.IsElement(e)
      && s1.tree.nodes[e] == Element(Names.AsciiLower(localName), [])
      && GetState(s1, e).None?
  {
    var (t, e) := HostCreateElement(s.tree, localName);
    var s1 := s.(tree := t);
    ValidFrame(s, s1);
    (s1, e)
  }

  /** Step 8: write the `is` option back as an attribute of the new element;
      only that element's node changes. */
  function WriteIs(s: State, e: NodeId, value: string): (s': State)
    requires Valid(s) && s.tree.IsElement(e)
    ensures Valid(s') && s' == s.(tree := s'.tree)
    ensures s'.tree.IsElement(e) && s'.tree.nodes[e].localName == s.tree.nodes[e].localName
    ensures GetAttribute(AttributesOf(s'.tree, e), "is") == Some(value)
    ensures s'.tree.nodes.Keys == s.tree.nodes.Keys
    ensures forall m | m in s.tree.nodes && m != e :: s'.tree.nodes[m] == s.tree.nodes[m]
    ensures s'.tree.parent == s.tree.parent && s'.tree.rank == s.tree.rank
    ensures s'.tree.order == s.tree.order && s'.tree.next == s.tree.next && s'.tree.document == s.tree.document
  {
    var s' := s.(tree := SetNodeAttribute(s.tree, e, "is", value));
    SetNodeAttributeKeepsValid(s.tree, e, "is", value);
    ValidKeptOnTree(s, s');
    s'
  }

  /** The invariant depends on the tree only through its validity and which
      nodes are elements. */
  lemma ValidKeptOnTree(s: State, s': State)
    requires Valid(s) && s' == s.(tree := s'.tree) && s'.tree.Valid()
    requires forall m | m in s.tree.nodes && s.tree.IsElement(m) :: s'.tree.IsElement(m)
    ensures Valid(s')
  {
  }

  /** Editing a node created after `s` keeps everything `s` can see. */
  lemma EditFreshNode(s: State, s2: State, s3: State, e: NodeId)
    requires Evolves(s, s2) && TreeStatesKept(s, s2) && e !in s.tree.nodes
    requires Valid(s3) && s3 == s2.(tree := s3.tree)
    requires s3.tree.nodes.Keys == s2.tree.nodes.Keys
    requires forall m | m in s2.tree.nodes && m != e :: s3.tree.nodes[m] == s2.tree.nodes[m]
    requires s3.tree.parent == s2.tree.parent && s3.tree.rank == s2.tree.rank
    requires s3.tree.order == s2.tree.order && s3.tree.next == s2.tree.next && s3.tree.document == s2.tree.document
    ensures Evolves(s, s3) && TreeStatesKept(s, s3)
  {
  }

  /** An upgrade of a node created after `s` keeps everything `s` can see. */
  lemma UpgradeFreshNode(s: State, s1: State, s2: State, e: NodeId)
    requires Evolves(s, s1) && TreeStatesKept(s, s1) && e !in s.tree.nodes
    requires UpgradeFrame(s1, s2, e)
    ensures Evolves(s, s2) && TreeStatesKept(s, s2)
  {
    EvolvesTransitive(s, s1, s2);
  }

  /** `document.createElement(localName, { is })` with the definition's
      constructor behaving as `b`. `isOption` is `None` when the option is
      `null` or absent. The lookup runs on the freshly created element, which
      has no attributes yet, so it is keyed on the lower-cased local name
      whatever `is` says. An upgrade that throws propagates its error, and the
      `is` attribute is then never written. */
  function CreateElement(s: State, localName: string, isOption: Option<string>, b: Behaviour): (r: Step<NodeId>)
    requires Valid(s)
    ensures Evolves(s, r.state)
    ensures TreeStatesKept(s, r.state)
    ensures r.result.Normal? ==> r.result.value == HostCreate(s, localName).1
    ensures r.result.Normal? ==>
      var e := r.result.value;
      && e !in s.tree.nodes
      && r.state.tree.IsElement(e)
      && r.state.tree.nodes[e].localName == Names.AsciiLower(localName)
  {
    var (s1, e) := HostCreate(s, localName);
    var def := GetElementDefinition(s1, e);
    if isOption.Some? && def.None? then
      Step(s1, Throw(NoDefinitionForElement))                  // 5.
    else
      var u := if def.Some? then UpgradeElement(s1, e, def.value, b) else Step(s1, Normal(()));
      UpgradeFreshNode(s, s1, u.state, e);
      if u.result.Throw? then Step(u.state, Throw(u.result.error))
      else if isOption.Some? then
        var s3 := WriteIs(u.state, e, isOption.value);         // 8.
        EditFreshNode(s, u.state, s3, e);
        Step(s3, Normal(e))
      else Step(u.state, Normal(e))                            // 9.
  }

  /** The fresh element is looked up under its lower-cased local name, and an
      upgrade of it has nothing to replay: no attributes, not connected. */
  lemma FreshElementLookup(s: State, localName: string)
    requires Valid(s)
    ensures var (s1, e) := HostCreate(s, localName);
      var key := Names.AsciiLower(localName);
      && DefinitionKey(s1.tree, e) == key
      && GetElementDefinition(s1, e) == (if key in s.registry.definitions then Some(s.registry.definitions[key]) else None)
      && UpgradeReplay(s1.tree, e) == []
  {
    var (s1, e) := HostCreate(s, localName);
    Names.AsciiLowerIdempotent(localName);
    assert FindNodeRoot(s1.tree, e) == e;
  }

  /** Step 5 looks at the local name only: with no definition under the
      lower-cased local name, an `is` option throws, whatever definition it
      names, and without one the result is a plain element with no state and
      nothing queued. */
  lemma CreateElementWithoutDefinition(s: State, localName: string, isOption: Option<string>, b: Behaviour)
    requires Valid(s) && Names.AsciiLower(localName) !in s.registry.definitions
    ensures var r := CreateElement(s, localName, isOption, b);
      var (s1, e) := HostCreate(s, localName);
      && (isOption.Some? ==> r == Step(s1, Throw(NoDefinitionForElement)))
      && (isOption.None? ==> r == Step(s1, Normal(e)) && GetState(r.state, e).None? && r.state.tasks == s.tasks)
  {
    FreshElementLookup(s, localName);
  }

  /** A definition under the lower-cased local name upgrades the new element
      before `createElement` returns: with a well-behaved constructor the
      element comes back custom, with the definition recorded, nothing queued
      (there is nothing to replay), and the `is` option, if any, written as
      an attribute afterwards. */
  lemma CreateElementUpgradesSynchronously(s: State, localName: string, isOption: Option<string>)
    requires Valid(s)
    requires var key := Names.AsciiLower(localName);
      key in s.registry.definitions && Constructible(s, s.registry.definitions[key])
    ensures var r := CreateElement(s, localName, isOption, WellBehaved);
      var d := s.registry.definitions[Names.AsciiLower(localName)];
      && r.result.Normal? && r.result.value !in s.tree.nodes
      && IsCustom(r.state, r.result.value)
      && r.result.value in r.state.elementDefinitions && r.state.elementDefinitions[r.result.value] == d
      && r.state.tasks == s.tasks
      && (isOption.Some? ==> GetAttribute(AttributesOf(r.state.tree, r.result.value), "is") == isOption)
      && (isOption.None? ==> AttributesOf(r.state.tree, r.result.value) == [])
  {
    var (s1, e) := HostCreate(s, localName);
    FreshElementLookup(s, localName);
    var d := s.registry.definitions[Names.AsciiLower(localName)];
    assert Constructible(s1, d);
    UpgradeWellBehavedSucceeds(s1, e, d);
    UpgradeQueuesReplayFirst(s1, e, d, WellBehaved);
    var u := UpgradeElement(s1, e, d, WellBehaved);
    assert AdmittedTasks(d, e, []) == [];
    assert CreateElement(s, localName, isOption, WellBehaved) ==
      (if isOption.Some? then Step(WriteIs(u.state, e, isOption.value), Normal(e)) else Step(u.state, Normal(e)));
  }

  /** A constructor that throws before `super()` makes `createElement`
      throw the same error; the element is left failed and the `is`
      attribute is never written. */
  lemma CreateElementUpgradeThrows(s: State, localName: string, isOption: Option<string>, code: nat)
    requires Valid(s) && Names.AsciiLower(localName) in s.registry.definitions
    ensures var r := CreateElement(s, localName, isOption, ThrowsBeforeBase(code));
      var (s1, e) := HostCreate(s, localName);
      && r.result == Throw(AppError(code))
      && GetState(r.state, e) == Some(Failed)
      && AttributesOf(r.state.tree, e) == []
  {
    var (s1, e) := HostCreate(s, localName);
    FreshElementLookup(s, localName);
    var d := s.registry.definitions[Names.AsciiLower(localName)];
    UpgradeThrowsBeforeBase(s1, e, d, code);
    var u := UpgradeElement(s1, e, d, ThrowsBeforeBase(code));
    assert CreateElement(s, localName, isOption, ThrowsBeforeBase(code)) == Step(u.state, Throw(AppError(code)));
  }

  /** A constructor that throws after `super()` makes `createElement` throw
      the same error; the element is left failed and the `is` attribute is
      never written. */
  lemma CreateElementThrowsAfterBase(s: State, localName: string, isOption: Option<string>, code: nat)
    requires Valid(s) && Names.AsciiLower(localName) in s.registry.definitions
    requires Constructible(s, s.registry.definitions[Names.AsciiLower(localName)])
    ensures var r := CreateElement(s, localName, isOption, CallsBase(ThrowsAfterBase(code)));
      var (s1, e) := HostCreate(s, localName);
      && r.result == Throw(AppError(code))
      && GetState(r.state, e) == Some(Failed)
      && AttributesOf(r.state.tree, e) == []
  {
    var (s1, e) := HostCreate(s, localName);
    FreshElementLookup(s, localName);
    var d := s.registry.definitions[Names.AsciiLower(localName)];
    assert Constructible(s1, d);
    UpgradeThrowsAfterBase(s1, e, d, code);
    var u := UpgradeElement(s1, e, d, CallsBase(ThrowsAfterBase(code)));
    assert CreateElement(s, localName, isOption, CallsBase(ThrowsAfterBase(code))) == Step(u.state, Throw(AppError(code)));
  }

  /** A constructor that returns another object makes `createElement` throw
      an invalid-state error, and the element is left unset rather than
      failed: the identity check lies outside the handler that marks a
      throwing construction failed. */
  lemma CreateElementIdentityMismatch(s: State, localName: string, isOption: Option<string>, other: NodeId)
    requires Valid(s) && Names.AsciiLower(localName) in s.registry.definitions
    requires other != HostCreate(s, localName).1
    ensures var r := CreateElement(s, localName, isOption, ReturnsWithoutBase(other));
      var (s1, e) := HostCreate(s, localName);
      && r.result == Throw(IdentityMismatch)
      && GetState(r.state, e).None?
      && AttributesOf(r.state.tree, e) == []
  {
    var (s1, e) := HostCreate(s, localName);
    FreshElementLookup(s, localName);
    var d := s.registry.definitions[Names.AsciiLower(localName)];
    UpgradeIdentityMismatch(s1, e, d, other);
    var u := UpgradeElement(s1, e, d, ReturnsWithoutBase(other));
    assert CreateElement(s, localName, isOption, ReturnsWithoutBase(other)) == Step(u.state, Throw(IdentityMismatch));
  }

  /** An autonomous definition whose `super()` runs without the HTMLElement
      flag makes `createElement` throw a TypeError, and the element is left
      failed. */
  lemma CreateElementAutonomousRefused(s: State, localName: string, isOption: Option<string>, after: AfterBase)
    requires Valid(s) && Names.AsciiLower(localName) in s.registry.definitions
    requires var d := s.registry.definitions[Names.AsciiLower(localName)]; d.localName == d.name && !s.isHtmlElement
    ensures var r := CreateElement(s, localName, isOption, CallsBase(after));
      var (s1, e) := HostCreate(s, localName);
      && r.result == Throw(AutonomousNotHtmlElement)
      && GetState(r.state, e) == Some(Failed)
      && AttributesOf(r.state.tree, e) == []
  {
    var (s1, e) := HostCreate(s, localName);
    FreshElementLookup(s, localName);
    var d := s.registry.definitions[Names.AsciiLower(localName)];
    assert Registered(s1, d);
    UpgradeAutonomousRefused(s1, e, d, after);
    var u := UpgradeElement(s1, e, d, CallsBase(after));
    assert CreateElement(s, localName, isOption, CallsBase(after)) == Step(u.state, Throw(AutonomousNotHtmlElement));
  }
}
