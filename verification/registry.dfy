/** The public registry operations: `get`, `whenDefined` and `define`
    (src/custom-elements-registry.js:129-312).

    `define` checks its arguments in a fixed order and throws at the first
    failure without changing anything; once the checks pass it publishes the
    definition, upgrades the matching elements already in the document in
    document order, and finally resolves a pending `whenDefined` promise. An
    upgrade failure during that scan propagates out of `define`: the
    definition stays published, the remaining candidates are not upgraded and
    the promise is not resolved.
 */
module Registration {
  import opened Common
  import opened Dom
  import opened Engine
  import opened Construction
  import opened Upgrade
  import Names

  /** What `constructor.prototype` is, as `define` sees it. */
  datatype Prototype =
    | PrototypeObject(callbacks: Callbacks)   // the callbacks it holds (`undefined` reads as absent)
    | NullPrototype                           // `typeof null` is 'object', so it passes the type check
    | NotAnObject                             // any other type

  /** The `constructor` argument of `define`. */
  datatype Constructor =
    | NotAFunction
    | Function(id: CtorId, prototype: Prototype, observedAttributes: Option<seq<string>>)

  /** What `whenDefined` hands back: a rejected promise, an already resolved
      one, or the shared pending promise of the name. */
  datatype Promise = Rejected | Resolved | Pending(id: PromiseId)

  datatype Promised = Promised(state: State, promise: Promise)

  /** `get(name)`: the constructor registered under exactly `name` (no
      lower-casing). */
  function Get(s: State, name: string): (r: Option<CtorId>)
    ensures r.Some? <==> name in s.registry.definitions
    ensures r.Some? ==> r.value == s.registry.definitions[name].ctor
  {
    if name in s.registry.definitions then Some(s.registry.definitions[name].ctor) else None
  }

  /** `whenDefined(name)`, without lower-casing `name`. */
  function WhenDefined(s: State, name: string): (r: Promised)
    requires Valid(s)
    ensures Valid(r.state)
    ensures !Names.IsValidCustomElementName(name) ==> r == Promised(s, Rejected)
    ensures Names.IsValidCustomElementName(name) && name in s.registry.definitions ==> r == Promised(s, Resolved)
    ensures r.promise.Pending? <==> Names.IsValidCustomElementName(name) && name !in s.registry.definitions
    ensures r.promise.Pending? ==>
      && name in r.state.registry.whenDefined && r.state.registry.whenDefined[name] == r.promise.id
      && r.promise.id !in r.state.registry.resolved
    ensures Names.IsValidCustomElementName(name) && name !in s.registry.definitions && name in s.registry.whenDefined ==>
      r == Promised(s, Pending(s.registry.whenDefined[name]))
    ensures r.promise.Pending? ==>
      && r.state.registry.whenDefined == s.registry.whenDefined[name := r.promise.id]
      && r.state.registry.resolved == s.registry.resolved
    ensures r.state == s.(registry := r.state.registry)
    ensures r.state.registry.definitions == s.registry.definitions
  {
    if !Names.IsValidCustomElementName(name) then Promised(s, Rejected)           // 1.
    else if name in s.registry.definitions then Promised(s, Resolved)            // 2.
    else if name in s.registry.whenDefined then                                  // 4.-6.
      Promised(s, Pending(s.registry.whenDefined[name]))
    else
      var g := s.registry;
      var p := g.nextPromise;
      var s' := s.(registry := g.(whenDefined := g.whenDefined[name := p], nextPromise := p + 1));
      Promised(s', Pending(p))
  }

  /** Asking again for a pending name hands out the same promise and changes
      nothing. */
  lemma WhenDefinedShared(s: State, name: string)
    requires Valid(s)
    ensures var r := WhenDefined(s, name);
      WhenDefined(r.state, name) == r
  {
  }

  /** `options.extends || null`: an absent or empty `extends` means none. */
  function Extends(ext: Option<string>): (r: Option<string>)
    ensures r.Some? <==> ext.Some? && ext.value != ""
    ensures r.Some? ==> r == ext
  {
    if ext.Some? && ext.value != "" then ext else None
  }

  /** Every check of steps 1-13.2 passes for the lower-cased name. */
  predicate Publishable(s: State, name: string, ctor: Constructor, ext: Option<string>) {
    && ctor.Function?
    && Names.IsValidCustomElementName(name)
    && name !in s.registry.names
    && ctor.id !in s.registry.ctors
    && (Extends(ext).Some? ==> !Names.IsValidCustomElementName(Extends(ext).value))
    && ctor.prototype.PrototypeObject?
  }

  /** Steps 8-14: the definition record. The local name is the `extends`
      value when there is one; observed attributes are read only when the
      prototype has an attribute-changed callback. */
  function NewDefinition(name: string, ctor: Constructor, ext: Option<string>): (d: Definition)
    requires ctor.Function? && ctor.prototype.PrototypeObject?
    ensures d.name == name && d.ctor == ctor.id && d.callbacks == ctor.prototype.callbacks
    ensures Extends(ext).Some? ==> d.localName == ext.value
    ensures Extends(ext).None? ==> d.localName == name
    ensures ctor.prototype.callbacks.attributeChanged.None? ==> d.observedAttributes == []
  {
    var cbs := ctor.prototype.callbacks;
    var observed :=
      if cbs.attributeChanged.Some? && ctor.observedAttributes.Some? then ctor.observedAttributes.value else [];
    Definition(name, if Extends(ext).Some? then Extends(ext).value else name, ctor.id, observed, cbs)
  }

  /** Step 15: add the definition, its name and its constructor. */
  function Publish(g: Registry, d: Definition): (g': Registry)
    requires RegistryValid(g) && d.name !in g.names && d.ctor !in g.ctors
    ensures RegistryValid(g')
    ensures g'.definitions == g.definitions[d.name := d]
    ensures g'.names == g.names + {d.name} && g'.ctors == g.ctors + {d.ctor}
    ensures g'.whenDefined == g.whenDefined && g'.resolved == g.resolved
  {
    var g' := g.(names := g.names + {d.name}, ctors := g.ctors + {d.ctor},
                 definitions := g.definitions[d.name := d], definitionOrder := g.definitionOrder + [d.name]);
    PublishKeepsValid(g, d, g');
    g'
  }

  lemma PublishKeepsValid(g: Registry, d: Definition, g': Registry)
    requires RegistryValid(g) && d.name !in g.names && d.ctor !in g.ctors
    requires g' == g.(names := g.names + {d.name}, ctors := g.ctors + {d.ctor},
                      definitions := g.definitions[d.name := d], definitionOrder := g.definitionOrder + [d.name])
    ensures RegistryValid(g')
  {
    PublishKeepsNames(g, d, g');
    PublishKeepsCtors(g, d, g');
    assert PromisesValid(g') by {
      assert g'.whenDefined == g.whenDefined && g'.resolved == g.resolved && g'.nextPromise == g.nextPromise;
    }
  }

  /** Publishing files the new definition under its name, at the end of the
      key order. */
  lemma PublishKeepsNames(g: Registry, d: Definition, g': Registry)
    requires NamesValid(g) && d.name !in g.names
    requires g'.names == g.names + {d.name} && g'.definitions == g.definitions[d.name := d]
    requires g'.definitionOrder == g.definitionOrder + [d.name]
    ensures NamesValid(g')
  {
    forall i, j | 0 <= i < j < |g'.definitionOrder|
      ensures g'.definitionOrder[i] != g'.definitionOrder[j]
    {
      assert g'.definitionOrder[i] == g.definitionOrder[i];
      if j == |g.definitionOrder| {
        assert g.definitionOrder[i] in g.definitions;
      } else {
        assert g'.definitionOrder[j] == g.definitionOrder[j];
      }
    }
  }

  /** Publishing a fresh constructor keeps constructors held and distinct. */
  lemma PublishKeepsCtors(g: Registry, d: Definition, g': Registry)
    requires CtorsValid(g) && d.name !in g.definitions && d.ctor !in g.ctors
    requires g'.ctors == g.ctors + {d.ctor} && g'.definitions == g.definitions[d.name := d]
    ensures CtorsValid(g')
  {
    forall c | c in g'.ctors
      ensures exists k | k in g'.definitions :: g'.definitions[k].ctor == c
    {
      if c != d.ctor {
        var k :| k in g.definitions && g.definitions[k].ctor == c;
        assert g'.definitions[k].ctor == c;
      } else {
        assert g'.definitions[d.name].ctor == c;
      }
    }
  }

  /** The behaviour of the application constructor when upgrading `n`;
      well-behaved unless the map says otherwise. */
  function BehaviourOf(app: map<NodeId, Behaviour>, n: NodeId): Behaviour {
    if n in app then app[n] else WellBehaved
  }

  /** Elements of a tree stay elements as it grows. */
  lemma ElementsSurvive(t: Tree, t': Tree, cs: seq<NodeId>)
    requires TreeGrows(t, t') && forall c | c in cs :: t.IsElement(c)
    ensures forall c | c in cs :: t'.IsElement(c)
  {
  }

  /** Step 18: upgrade the candidates in order; the first throw stops the
      scan and propagates. */
  function UpgradeAll(s: State, cs: seq<NodeId>, d: Definition, app: map<NodeId, Behaviour>): (r: Step<()>)
    requires Valid(s) && forall c | c in cs :: s.tree.IsElement(c)
    ensures Evolves(s, r.state)
    decreases |cs|
  {
    if |cs| == 0 then Step(s, Normal(()))
    else
      var u := UpgradeElement(s, cs[0], d, BehaviourOf(app, cs[0]));
      if u.result.Throw? then u
      else
        ElementsSurvive(s.tree, u.state.tree, cs[1..]);
        var r := UpgradeAll(u.state, cs[1..], d, app);
        EvolvesTransitive(s, u.state, r.state);
        r
  }

  /** Step 19: resolve and forget the pending promise of `name`, if any. */
  function ResolveWhenDefined(g: Registry, name: string): (g': Registry)
    requires RegistryValid(g)
    ensures RegistryValid(g')
    ensures name !in g'.whenDefined
    ensures name in g.whenDefined ==> g.whenDefined[name] in g'.resolved
    ensures forall k | k in g.whenDefined && k != name ::
      k in g'.whenDefined && g'.whenDefined[k] == g.whenDefined[k] && g'.whenDefined[k] !in g'.resolved
    ensures g'.definitions == g.definitions && g'.names == g.names && g'.ctors == g.ctors
  {
    if name in g.whenDefined then
      g.(resolved := g.resolved + {g.whenDefined[name]}, whenDefined := g.whenDefined - {name})
    else g
  }

  /** Step 17: the elements the selector `localName`, or
      `localName[is="name"]` when there is an `extends`, finds in the
      document. */
  function Candidates(t: Tree, d: Definition, ext: Option<string>): (cs: seq<NodeId>)
    requires t.Valid()
    ensures forall c | c in cs :: t.IsElement(c)
  {
    QuerySelectorAll(t, d.localName, if Extends(ext).Some? then Some(d.name) else None)
  }

  /** Steps 1-13.4: the first check that fails, in the source's order. */
  function CheckDefine(s: State, name: string, ctor: Constructor, ext: Option<string>): (r: Option<Exception>)
    ensures r.None? <==> Publishable(s, name, ctor, ext)
  {
    if ctor.NotAFunction? then Some(NotAConstructor)                                         // 1.
    else if !Names.IsValidCustomElementName(name) then Some(InvalidName)                   // 3.
    else if name in s.registry.names then Some(DuplicateName)                              // 4.
    else if ctor.id in s.registry.ctors then Some(DuplicateConstructor)                    // 6.
    else if Extends(ext).Some? && Names.IsValidCustomElementName(Extends(ext).value) then
      Some(ExtendsCustomName)                                                              // 10.1.
    else if ctor.prototype.NotAnObject? then Some(PrototypeNotObject)                     // 13.2.
    else if ctor.prototype.NullPrototype? then Some(PrototypeNull)                        // 13.4.1.
    else None
  }

  /** Steps 14-19 for a lower-cased name whose checks passed: publish, scan,
      and resolve the pending promise only if the scan completed. */
  function PublishAndUpgrade(s: State, name: string, ctor: Constructor, ext: Option<string>, app: map<NodeId, Behaviour>): (r: Step<()>)
    requires Valid(s) && Publishable(s, name, ctor, ext)
    ensures Valid(r.state)
  {
    var d := NewDefinition(name, ctor, ext);
    var s1 := s.(registry := Publish(s.registry, d));                                       // 15.
    var u := UpgradeAll(s1, Candidates(s1.tree, d, ext), d, app);                         // 17.-18.
    if u.result.Throw? then u
    else Step(u.state.(registry := ResolveWhenDefined(u.state.registry, name)), u.result)   // 19.
  }

  /** `define(name, constructor, options)` with the `extends` option `ext`,
      and `app` giving the application constructor's behaviour for each
      element the scan upgrades. A failing check throws and changes nothing. */
  function Define(s: State, name: string, ctor: Constructor, ext: Option<string>, app: map<NodeId, Behaviour>): (r: Step<()>)
    requires Valid(s)
    ensures Valid(r.state)
    ensures !Publishable(s, Names.AsciiLower(name), ctor, ext) ==> r.state == s && r.result.Throw?
  {
    var name := Names.AsciiLower(name);
    match CheckDefine(s, name, ctor, ext)
    case Some(e) => Step(s, Throw(e))
    case None => PublishAndUpgrade(s, name, ctor, ext, app)
  }

  /** The published registry and the scan that follows it. */
  lemma PublishAndUpgradeSteps(s: State, name: string, ctor: Constructor, ext: Option<string>, app: map<NodeId, Behaviour>)
    requires Valid(s) && Publishable(s, name, ctor, ext)
    ensures var d := NewDefinition(name, ctor, ext);
      var s1 := s.(registry := Publish(s.registry, d));
      var u := UpgradeAll(s1, Candidates(s1.tree, d, ext), d, app);
      var r := PublishAndUpgrade(s, name, ctor, ext, app);
      && u.state.registry == s1.registry
      && (u.result.Throw? ==> r == u)
      && (u.result.Normal? ==> r.result.Normal? && r.state.registry == ResolveWhenDefined(s1.registry, name))
  {
  }

  /** Scanning `a + b` is scanning `a`, then, unless that threw, `b`: a throw
      stops the scan, and the candidates after it are never looked at. */
  lemma {:induction false} UpgradeAllAppend(s: State, a: seq<NodeId>, b: seq<NodeId>, d: Definition, app: map<NodeId, Behaviour>)
    requires Valid(s) && forall c | c in a + b :: s.tree.IsElement(c)
    ensures var q := UpgradeAll(s, a, d, app);
      && (forall c | c in b :: q.state.tree.IsElement(c))
      && UpgradeAll(s, a + b, d, app) == if q.result.Throw? then q else UpgradeAll(q.state, b, d, app)
    decreases |a|
  {
    assert forall c | c in a :: c in a + b;
    assert forall c | c in b :: c in a + b;
    var q := UpgradeAll(s, a, d, app);
    ElementsSurvive(s.tree, q.state.tree, b);
    if |a| == 0 {
      assert a + b == b;
    } else {
      var ab := a + b;
      ConsAppend(a, b);
      var u := UpgradeElement(s, a[0], d, BehaviourOf(app, a[0]));
      if u.result.Normal? {
        ElementsSurvive(s.tree, u.state.tree, ab[1..]);
        assert UpgradeAll(s, ab, d, app) == UpgradeAll(u.state, ab[1..], d, app);
        assert q == UpgradeAll(u.state, a[1..], d, app);
        UpgradeAllAppend(u.state, a[1..], b, d, app);
      }
    }
  }

  /** The head and tail of a concatenation whose left part is not empty. */
  lemma ConsAppend(a: seq<NodeId>, b: seq<NodeId>)
    requires |a| > 0
    ensures (a + b)[0] == a[0] && (a + b)[1..] == a[1..] + b
  {
  }

  /** An upgrade that completes leaves its element custom or failed, and
      custom when it was unset. */
  lemma UpgradeCompletesSettled(s: State, n: NodeId, d: Definition, b: Behaviour)
    requires Valid(s) && s.tree.IsElement(n)
    ensures var u := UpgradeElement(s, n, d, b);
      u.result.Normal? ==> GetState(u.state, n).Some? && (GetState(s, n).None? ==> IsCustom(u.state, n))
  {
    if GetState(s, n).None? {
      UpgradeSettlesOnlyByOutcome(s, n, d, b);
    }
  }

  /** A scan that completes leaves every candidate custom or failed, and
      every candidate that was unset custom. */
  lemma {:induction false} UpgradeAllSettles(s: State, cs: seq<NodeId>, d: Definition, app: map<NodeId, Behaviour>)
    requires Valid(s) && forall c | c in cs :: s.tree.IsElement(c)
    ensures var r := UpgradeAll(s, cs, d, app);
      r.result.Normal? ==>
        forall c | c in cs :: GetState(r.state, c).Some? && (GetState(s, c).None? ==> IsCustom(r.state, c))
    decreases |cs|
  {
    var r := UpgradeAll(s, cs, d, app);
    if |cs| > 0 && r.result.Normal? {
      var u := UpgradeElement(s, cs[0], d, BehaviourOf(app, cs[0]));
      UpgradeCompletesSettled(s, cs[0], d, BehaviourOf(app, cs[0]));
      ElementsSurvive(s.tree, u.state.tree, cs[1..]);
      assert r == UpgradeAll(u.state, cs[1..], d, app);
      UpgradeAllSettles(u.state, cs[1..], d, app);
      assert StatesKept(u.state, r.state);
      forall c | c in cs
        ensures GetState(r.state, c).Some? && (GetState(s, c).None? ==> IsCustom(r.state, c))
      {
        if c != cs[0] {
          assert c in cs[1..];
          assert OthersKept(s, u.state, cs[0]);
        }
      }
    }
  }

  /** The checks fail in the order the source makes them, each with its own
      error, and a failing check leaves the state as it was. */
  lemma DefineChecksInOrder(s: State, name: string, ctor: Constructor, ext: Option<string>, app: map<NodeId, Behaviour>)
    requires Valid(s)
    ensures var n := Names.AsciiLower(name);
      var r := Define(s, name, ctor, ext, app);
      && (ctor.NotAFunction? ==> r == Step(s, Throw(NotAConstructor)))
      && (ctor.Function? && !Names.IsValidCustomElementName(n) ==> r == Step(s, Throw(InvalidName)))
      && (ctor.Function? && Names.IsValidCustomElementName(n) && n in s.registry.names ==>
            r == Step(s, Throw(DuplicateName)))
      && (ctor.Function? && Names.IsValidCustomElementName(n) && n !in s.registry.names && ctor.id in s.registry.ctors ==>
            r == Step(s, Throw(DuplicateConstructor)))
      && (ctor.Function? && Names.IsValidCustomElementName(n) && n !in s.registry.names && ctor.id !in s.registry.ctors &&
          Extends(ext).Some? && Names.IsValidCustomElementName(Extends(ext).value) ==>
            r == Step(s, Throw(ExtendsCustomName)))
      && (ctor.Function? && ctor.prototype.NotAnObject? && Names.IsValidCustomElementName(n) && n !in s.registry.names &&
          ctor.id !in s.registry.ctors && (Extends(ext).Some? ==> !Names.IsValidCustomElementName(Extends(ext).value)) ==>
            r == Step(s, Throw(PrototypeNotObject)))
      && (ctor.Function? && ctor.prototype.NullPrototype? && Names.IsValidCustomElementName(n) && n !in s.registry.names &&
          ctor.id !in s.registry.ctors && (Extends(ext).Some? ==> !Names.IsValidCustomElementName(Extends(ext).value)) ==>
            r == Step(s, Throw(PrototypeNull)))
  {
  }

  /** The definition record: the local name is the `extends` value exactly
      when one is given, so a definition is autonomous (local name equal to
      name) exactly when it has no `extends`; observed attributes are empty
      without an attribute-changed callback. */
  lemma DefinitionShape(name: string, ctor: Constructor, ext: Option<string>)
    requires ctor.Function? && ctor.prototype.PrototypeObject?
    requires Names.IsValidCustomElementName(name)
    requires Extends(ext).Some? ==> !Names.IsValidCustomElementName(Extends(ext).value)
    ensures var d := NewDefinition(name, ctor, ext);
      && d.name == name && d.ctor == ctor.id && d.callbacks == ctor.prototype.callbacks
      && (Extends(ext).Some? ==> d.localName == ext.value)
      && (d.localName == d.name <==> Extends(ext).None?)
      && (ctor.prototype.callbacks.attributeChanged.None? ==> d.observedAttributes == [])
      && (ctor.prototype.callbacks.attributeChanged.Some? && ctor.observedAttributes.Some? ==>
            d.observedAttributes == ctor.observedAttributes.value)
  {
  }

  /** Once the checks pass the definition is published, whatever the scan
      does: `get` of the lower-cased name returns the constructor, and the
      name and constructor are recorded. */
  lemma DefinePublishes(s: State, name: string, ctor: Constructor, ext: Option<string>, app: map<NodeId, Behaviour>)
    requires Valid(s) && Publishable(s, Names.AsciiLower(name), ctor, ext)
    ensures var n := Names.AsciiLower(name);
      var r := Define(s, name, ctor, ext, app);
      && Get(r.state, n) == Some(ctor.id)
      && r.state.registry.definitions == s.registry.definitions[n := NewDefinition(n, ctor, ext)]
      && r.state.registry.names == s.registry.names + {n}
      && r.state.registry.ctors == s.registry.ctors + {ctor.id}
  {
    PublishAndUpgradeSteps(s, Names.AsciiLower(name), ctor, ext, app);
  }

  /** Defining a name again, in any letter case, fails as a duplicate and
      changes nothing. */
  lemma RedefineFails(s: State, name: string, ctor: Constructor, ext: Option<string>, app: map<NodeId, Behaviour>,
                      name2: string, ctor2: Constructor, ext2: Option<string>, app2: map<NodeId, Behaviour>)
    requires Valid(s) && Publishable(s, Names.AsciiLower(name), ctor, ext)
    requires Names.AsciiLower(name2) == Names.AsciiLower(name) && ctor2.Function?
    ensures var r := Define(s, name, ctor, ext, app);
      Define(r.state, name2, ctor2, ext2, app2) == Step(r.state, Throw(DuplicateName))
  {
    DefinePublishes(s, name, ctor, ext, app);
  }

  /** Registering the same constructor under a second, fresh, valid name
      fails and changes nothing. */
  lemma ConstructorReuseFails(s: State, name: string, ctor: Constructor, ext: Option<string>, app: map<NodeId, Behaviour>,
                              name2: string, ctor2: Constructor, ext2: Option<string>, app2: map<NodeId, Behaviour>)
    requires Valid(s) && Publishable(s, Names.AsciiLower(name), ctor, ext)
    requires ctor2.Function? && ctor2.id == ctor.id
    requires Names.IsValidCustomElementName(Names.AsciiLower(name2)) && Names.AsciiLower(name2) != Names.AsciiLower(name)
    requires Names.AsciiLower(name2) !in s.registry.names
    ensures var r := Define(s, name, ctor, ext, app);
      Define(r.state, name2, ctor2, ext2, app2) == Step(r.state, Throw(DuplicateConstructor))
  {
    var r := Define(s, name, ctor, ext, app);
    DefinePublishes(s, name, ctor, ext, app);
    assert Names.AsciiLower(name2) !in r.state.registry.names;
    assert CheckDefine(r.state, Names.AsciiLower(name2), ctor2, ext2) == Some(DuplicateConstructor);
  }

  /** A `define` whose scan completes resolves the name's pending promise and
      forgets it; every other pending promise stays pending. */
  lemma DefineResolvesWhenDefined(s: State, name: string, ctor: Constructor, ext: Option<string>, app: map<NodeId, Behaviour>)
    requires Valid(s) && Publishable(s, Names.AsciiLower(name), ctor, ext)
    ensures var n := Names.AsciiLower(name);
      var r := Define(s, name, ctor, ext, app);
      r.result.Normal? ==>
        && n !in r.state.registry.whenDefined
        && (n in s.registry.whenDefined ==> s.registry.whenDefined[n] in r.state.registry.resolved)
        && (forall k | k in s.registry.whenDefined && k != n ::
              k in r.state.registry.whenDefined && r.state.registry.whenDefined[k] == s.registry.whenDefined[k])
        && WhenDefined(r.state, n) == Promised(r.state, Resolved)
  {
    PublishAndUpgradeSteps(s, Names.AsciiLower(name), ctor, ext, app);
  }

  /** A `define` whose scan throws leaves every pending promise pending,
      that of the name being defined included. */
  lemma DefineAbortSkipsResolution(s: State, name: string, ctor: Constructor, ext: Option<string>, app: map<NodeId, Behaviour>)
    requires Valid(s)
    ensures var r := Define(s, name, ctor, ext, app);
      r.result.Throw? ==>
        r.state.registry.whenDefined == s.registry.whenDefined && r.state.registry.resolved == s.registry.resolved
  {
    var n := Names.AsciiLower(name);
    if Publishable(s, n, ctor, ext) {
      PublishAndUpgradeSteps(s, n, ctor, ext, app);
      assert Define(s, name, ctor, ext, app) == PublishAndUpgrade(s, n, ctor, ext, app);
    }
  }

  /** `whenDefined` keys a mixed-case name as given, but `define` lower-cases:
      a pending promise under a name with an upper-case letter is never
      resolved by any `define`. */
  lemma MixedCasePromiseNeverResolved(s: State, name: string, ctor: Constructor, ext: Option<string>, app: map<NodeId, Behaviour>, k: string, i: int)
    requires Valid(s) && k in s.registry.whenDefined
    requires 0 <= i < |k| && 'A' <= k[i] <= 'Z'
    ensures var r := Define(s, name, ctor, ext, app);
      && k in r.state.registry.whenDefined
      && r.state.registry.whenDefined[k] == s.registry.whenDefined[k]
      && s.registry.whenDefined[k] !in r.state.registry.resolved
  {
    var n := Names.AsciiLower(name);
    if |n| == |k| {
      assert n[i] != k[i];
    }
    assert k != n;
    if Publishable(s, n, ctor, ext) {
      PublishAndUpgradeSteps(s, n, ctor, ext, app);
    }
  }
}
