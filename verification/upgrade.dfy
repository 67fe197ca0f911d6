/** The upgrade state machine: `_upgradeElement`
    (src/custom-elements-registry.js:321-381).

    An unset element first has its attribute and connected reactions queued,
    then is pushed on the definition's construction stack while the
    application constructor runs, and ends custom, failed, or (when the
    constructor returned another object) still unset.
 */
module Upgrade {
  import opened Common
  import opened Dom
  import opened Engine
  import opened Construction

  /** One attribute-changed reaction per attribute, in attribute-list order,
      as if each attribute had just appeared: `[name, null, value, namespace]`. */
  function AttributeReplay(attrs: seq<Attr>): (rs: seq<Reaction>)
    ensures |rs| == |attrs|
    ensures forall i | 0 <= i < |attrs| ::
      rs[i] == AttributeChanged(attrs[i].name, None, Some(attrs[i].value), attrs[i].namespace)
  {
    seq(|attrs|, i requires 0 <= i < |attrs| =>
      AttributeChanged(attrs[i].name, None, Some(attrs[i].value), attrs[i].namespace))
  }

  /** The tasks a definition would queue for the element, given the reactions
      in order: the admitted ones, each bound to its callback. */
  function AdmittedTasks(d: Definition, n: NodeId, rxs: seq<Reaction>): (ts: seq<Task>)
    ensures |ts| <= |rxs|
    ensures forall t | t in ts :: t.RunCallback? && t.element == n && t.reaction in rxs && Admits(d, t.reaction)
  {
    if |rxs| == 0 then []
    else
      var rest := AdmittedTasks(d, n, rxs[1..]);
      if Admits(d, rxs[0]) then [RunCallback(n, CallbackFor(d.callbacks, rxs[0]).value, rxs[0])] + rest
      else rest
  }

  /** Filtering distributes over concatenation. */
  lemma {:induction false} AdmittedTasksAppend(d: Definition, n: NodeId, a: seq<Reaction>, b: seq<Reaction>)
    ensures AdmittedTasks(d, n, a + b) == AdmittedTasks(d, n, a) + AdmittedTasks(d, n, b)
    decreases |a|
  {
    if |a| > 0 {
      assert (a + b)[1..] == a[1..] + b;
      AdmittedTasksAppend(d, n, a[1..], b);
    } else {
      assert a + b == b;
    }
  }

  /** `_callbackReaction` for each reaction in turn; the first throw stops
      the rest. The element's definition lookup is the same for every
      reaction, so either all are filtered and queued, or (with at least one
      reaction) the first throws and nothing is queued. */
  function EnqueueReactions(s: State, n: NodeId, rxs: seq<Reaction>): (r: Step<()>)
    requires s.tree.IsElement(n)
    ensures r.state == s.(tasks := r.state.tasks)
    ensures GetElementDefinition(s, n).None? ==>
      r == (if |rxs| == 0 then Step(s, Normal(())) else Step(s, Throw(MissingDefinition)))
    ensures GetElementDefinition(s, n).Some? ==>
      && r.result.Normal?
      && r.state.tasks == s.tasks + AdmittedTasks(GetElementDefinition(s, n).value, n, rxs)
    decreases |rxs|
  {
    if |rxs| == 0 then Step(s, Normal(()))
    else
      var r := CallbackReaction(s, n, rxs[0]);
      if r.result.Throw? then r
      else EnqueueReactions(r.state, n, rxs[1..])
  }

  /** The reactions an upgrade replays, in order: the attributes', then a
      connected reaction when the element is connected. */
  function UpgradeReplay(t: Tree, n: NodeId): seq<Reaction>
    requires t.Valid() && t.IsElement(n)
  {
    AttributeReplay(t.nodes[n].attributes) + (if IsConnected(t, n) then [Connected] else [])
  }

  /** Push the element on the definition's construction stack. */
  function PushPending(s: State, d: Definition, n: NodeId): (s': State)
    ensures s' == s.(stacks := s'.stacks)
    ensures StackOf(s', d.name) == StackOf(s, d.name) + [PendingElement(n)]
    ensures forall other | other != d.name :: StackOf(s', other) == StackOf(s, other)
  {
    s.(stacks := s.stacks[d.name := StackOf(s, d.name) + [PendingElement(n)]])
  }

  /** `constructionStack.pop()`: drop the top entry, if there is one. */
  function PopStack(s: State, name: string): (s': State)
    ensures s' == s.(stacks := s'.stacks)
    ensures |StackOf(s, name)| > 0 ==> StackOf(s', name) == StackOf(s, name)[..|StackOf(s, name)| - 1]
    ensures forall other | other != name :: StackOf(s', other) == StackOf(s, other)
  {
    var stack := StackOf(s, name);
    if |stack| == 0 then s else s.(stacks := s.stacks[name := stack[..|stack| - 1]])
  }

  /** Steps 7-12 once the constructor has run: a throw marks the element
      failed and is rethrown with the stack entry left in place; a normal
      return pops the stack, then checks identity and marks the element
      custom. */
  function FinishUpgrade(s: State, n: NodeId, d: Definition, c: Completion<NodeId>): (r: Step<()>)
    requires Valid(s) && s.tree.IsElement(n) && GetState(s, n).None?
    ensures UpgradeFrame(s, r.state, n) && r.state.tasks == s.tasks
    ensures r.state.tree == s.tree && r.state.prototypes == s.prototypes
    ensures c.Throw? ==> r == Step(s.(elementStates := s.elementStates[n := Failed]), Throw(c.error))
    ensures c.Normal? ==> r.state.stacks == PopStack(s, d.name).stacks
    ensures c.Normal? && c.value != n ==> r == Step(PopStack(s, d.name), Throw(IdentityMismatch))
    ensures c.Normal? && c.value == n ==>
      && r.result.Normal?
      && IsCustom(r.state, n)
      && r.state.elementDefinitions == s.elementDefinitions[n := d]
  {
    match c
    case Throw(e) =>
      var s' := s.(elementStates := s.elementStates[n := Failed]);
      SettleUpgradeFrame(s, s', n, Failed);
      Step(s', Throw(e))
    case Normal(obj) =>
      var s3 := PopStack(s, d.name);
      if obj != n then
        BookkeepingOnlyUpgradeFrame(s, s3, n);
        Step(s3, Throw(IdentityMismatch))
      else
        var s' := s3.(elementStates := s3.elementStates[n := Custom], elementDefinitions := s3.elementDefinitions[n := d]);
        SettleUpgradeFrame(s, s', n, Custom);
        Step(s', Normal(()))
  }

  /** Queueing `a + b` is queueing `a`, then, unless that threw, `b`. */
  lemma {:induction false} EnqueueReactionsAppend(s: State, n: NodeId, a: seq<Reaction>, b: seq<Reaction>)
    requires s.tree.IsElement(n)
    ensures var q := EnqueueReactions(s, n, a);
      EnqueueReactions(s, n, a + b) == if q.result.Throw? then q else EnqueueReactions(q.state, n, b)
    decreases |a|
  {
    if |a| > 0 {
      assert (a + b)[0] == a[0];
      assert (a + b)[1..] == a[1..] + b;
      var r := CallbackReaction(s, n, a[0]);
      if r.result.Normal? {
        EnqueueReactionsAppend(r.state, n, a[1..], b);
      }
    } else {
      assert a + b == b;
    }
  }

  /** Steps 3-4: queue the attribute reactions, then the connected reaction
      if the element is connected; the first throw stops the rest. This is
      queueing the whole replay in order. */
  function ReplayReactions(s: State, n: NodeId): (r: Step<()>)
    requires s.tree.Valid() && s.tree.IsElement(n)
    ensures r == EnqueueReactions(s, n, UpgradeReplay(s.tree, n))
  {
    var attrs := AttributeReplay(s.tree.nodes[n].attributes);
    var connected := if IsConnected(s.tree, n) then [Connected] else [];
    var q := EnqueueReactions(s, n, attrs);
    EnqueueReactionsAppend(s, n, attrs, connected);
    if q.result.Throw? then q
    else if IsConnected(q.state.tree, n) then
      assert EnqueueReactions(q.state, n, [Connected]) == CallbackReaction(q.state, n, Connected);
      CallbackReaction(q.state, n, Connected)
    else
      Step(q.state, Normal(()))
  }

  /** Steps 5-12: push the element, run the constructor, finish. */
  function ConstructAndFinish(s: State, n: NodeId, d: Definition, b: Behaviour): (r: Step<()>)
    requires Valid(s) && s.tree.IsElement(n) && GetState(s, n).None?
    ensures UpgradeFrame(s, r.state, n) && r.state.tasks == s.tasks
  {
    var s2 := PushPending(s, d, n);
    BookkeepingOnlyUpgradeFrame(s, s2, n);
    var c := Construct(s2, d.ctor, b);
    ConstructionWithinUpgradeFrame(s2, c.state, n);
    var r := FinishUpgrade(c.state, n, d, c.result);
    UpgradeFrameTransitive(s, s2, c.state, n);
    UpgradeFrameTransitive(s, c.state, r.state, n);
    r
  }

  /** `_upgradeElement(element, definition)` with the application
      constructor behaving as `b`. A custom or failed element is left alone;
      otherwise only the element's own state may change, and only from unset. */
  function UpgradeElement(s: State, n: NodeId, d: Definition, b: Behaviour): (r: Step<()>)
    requires Valid(s) && s.tree.IsElement(n)
    ensures UpgradeFrame(s, r.state, n)
    ensures GetState(s, n).Some? ==> r == Step(s, Normal(()))
  {
    match GetState(s, n)
    case Some(Custom) => Step(s, Normal(()))   // 1.
    case Some(Failed) => Step(s, Normal(()))   // 2.
    case None =>
      var q := ReplayReactions(s, n);
      if q.result.Throw? then q
      else
        BookkeepingOnlyUpgradeFrame(s, q.state, n);
        var r := ConstructAndFinish(q.state, n, d, b);
        UpgradeFrameTransitive(s, q.state, r.state, n);
        r
  }

  /** The replay cannot throw: the element has a definition under its own
      key, or there is nothing to replay. */
  predicate ReplaySucceeds(s: State, n: NodeId)
    requires s.tree.Valid() && s.tree.IsElement(n)
  {
    GetElementDefinition(s, n).Some? || |UpgradeReplay(s.tree, n)| == 0
  }

  /** Steps 3-4 come first: an unset element's replay is queued, exactly the
      admitted reactions in replay order, before anything else happens; a
      replay whose lookup fails throws before the element is pushed, and
      changes nothing. */
  lemma UpgradeQueuesReplayFirst(s: State, n: NodeId, d: Definition, b: Behaviour)
    requires Valid(s) && s.tree.IsElement(n) && GetState(s, n).None?
    ensures var r := UpgradeElement(s, n, d, b);
      && (GetElementDefinition(s, n).Some? ==>
            r.state.tasks == s.tasks + AdmittedTasks(GetElementDefinition(s, n).value, n, UpgradeReplay(s.tree, n)))
      && (!ReplaySucceeds(s, n) ==> r == Step(s, Throw(MissingDefinition)))
  {
    var q := ReplayReactions(s, n);
    if q.result.Normal? {
      BookkeepingOnlyUpgradeFrame(s, q.state, n);
      var r := ConstructAndFinish(q.state, n, d, b);
      assert UpgradeElement(s, n, d, b) == r;
    }
  }

  /** `after` is `before` followed by callback tasks for `n` only. */
  predicate AppendsCallbacksFor(before: seq<Task>, after: seq<Task>, n: NodeId) {
    && before <= after
    && forall i | |before| <= i < |after| :: after[i].RunCallback? && after[i].element == n
  }

  lemma AdmittedTasksAppendCallbacks(before: seq<Task>, d: Definition, n: NodeId, rxs: seq<Reaction>)
    ensures AppendsCallbacksFor(before, before + AdmittedTasks(d, n, rxs), n)
  {
    var extra := AdmittedTasks(d, n, rxs);
    assert forall i | |before| <= i < |before + extra| :: (before + extra)[i] == extra[i - |before|];
  }

  /** An upgrade only appends to the queue, and only callback tasks for the
      element it upgrades: what was queued before keeps its place. */
  lemma UpgradeAppendsCallbacks(s: State, n: NodeId, d: Definition, b: Behaviour)
    requires Valid(s) && s.tree.IsElement(n)
    ensures AppendsCallbacksFor(s.tasks, UpgradeElement(s, n, d, b).state.tasks, n)
  {
    if GetState(s, n).None? {
      UpgradeQueuesReplayFirst(s, n, d, b);
      match GetElementDefinition(s, n)
      case Some(def) =>
        AdmittedTasksAppendCallbacks(s.tasks, def, n, UpgradeReplay(s.tree, n));
      case None =>
        if ReplaySucceeds(s, n) {
          UpgradeAfterReplay(s, n, d, b);
        }
    }
  }

  /** Past a successful replay, the upgrade is steps 5-12 on the state the
      replay left, which differs from the original only in its queue. */
  lemma UpgradeAfterReplay(s: State, n: NodeId, d: Definition, b: Behaviour)
    requires Valid(s) && s.tree.IsElement(n) && GetState(s, n).None? && ReplaySucceeds(s, n)
    ensures var q := ReplayReactions(s, n);
      && q.result.Normal?
      && q.state == s.(tasks := q.state.tasks)
      && UpgradeElement(s, n, d, b) == ConstructAndFinish(q.state, n, d, b)
  {
  }

  /** Steps 5-12 with a constructor that calls `super()` and returns its
      result: the element becomes custom with its definition recorded and its
      prototype attached, and the stack is back as it was. */
  lemma {:induction false} ConstructAndFinishWellBehaved(s: State, n: NodeId, d: Definition)
    requires Valid(s) && s.tree.IsElement(n) && GetState(s, n).None? && Constructible(s, d)
    ensures var r := ConstructAndFinish(s, n, d, WellBehaved);
      && r.result == Normal(())
      && IsCustom(r.state, n)
      && n in r.state.elementDefinitions && r.state.elementDefinitions[n] == d
      && n in r.state.prototypes && r.state.prototypes[n] == d.name
      && StackOf(r.state, d.name) == StackOf(s, d.name)
  {
    var s2 := PushPending(s, d, n);
    BookkeepingOnlyUpgradeFrame(s, s2, n);
    RendezvousHandsOutPending(s2, d, n);
    var c := Construct(s2, d.ctor, WellBehaved);
    assert c == ElementConstructor(s2, d.ctor);
    var stack := StackOf(s, d.name);
    assert StackOf(s2, d.name)[..|stack|] == stack;
  }

  /** Steps 5-9 with a constructor that throws before `super()`: the element
      is failed, the error is rethrown and the pending entry stays on the
      stack. */
  lemma ConstructAndFinishThrowsBeforeBase(s: State, n: NodeId, d: Definition, code: nat)
    requires Valid(s) && s.tree.IsElement(n) && GetState(s, n).None?
    ensures var r := ConstructAndFinish(s, n, d, ThrowsBeforeBase(code));
      && r.result == Throw(AppError(code))
      && GetState(r.state, n) == Some(Failed)
      && StackOf(r.state, d.name) == StackOf(s, d.name) + [PendingElement(n)]
  {
  }

  /** Steps 5-9 with a constructor that throws after `super()`: the element
      is failed, the error is rethrown and the already-constructed marker
      stays on the stack. */
  lemma {:induction false} ConstructAndFinishThrowsAfterBase(s: State, n: NodeId, d: Definition, code: nat)
    requires Valid(s) && s.tree.IsElement(n) && GetState(s, n).None? && Constructible(s, d)
    ensures var r := ConstructAndFinish(s, n, d, CallsBase(ThrowsAfterBase(code)));
      && r.result == Throw(AppError(code))
      && GetState(r.state, n) == Some(Failed)
      && StackOf(r.state, d.name) == StackOf(s, d.name) + [AlreadyConstructedMarker]
  {
    var s2 := PushPending(s, d, n);
    BookkeepingOnlyUpgradeFrame(s, s2, n);
    RendezvousHandsOutPending(s2, d, n);
    var stack := StackOf(s, d.name);
    assert StackOf(s2, d.name)[..|stack|] == stack;
    var c := Construct(s2, d.ctor, CallsBase(ThrowsAfterBase(code)));
    assert c == Step(AfterHandOut(s2, d, n), Throw(AppError(code)));
    assert StackOf(c.state, d.name) == stack + [AlreadyConstructedMarker];
    var r := FinishUpgrade(c.state, n, d, c.result);
    assert ConstructAndFinish(s, n, d, CallsBase(ThrowsAfterBase(code))) == r;
  }

  /** Steps 5-8 and 10 with a constructor that returns another object
      without calling `super()`: the stack is popped back, the upgrade throws,
      and the element stays unset rather than failed. */
  lemma ConstructAndFinishIdentityMismatch(s: State, n: NodeId, d: Definition, other: NodeId)
    requires Valid(s) && s.tree.IsElement(n) && GetState(s, n).None? && other != n
    ensures var r := ConstructAndFinish(s, n, d, ReturnsWithoutBase(other));
      && r.result == Throw(IdentityMismatch)
      && GetState(r.state, n).None?
      && StackOf(r.state, d.name) == StackOf(s, d.name)
  {
    var stack := StackOf(s, d.name);
    assert (stack + [PendingElement(n)])[..|stack|] == stack;
  }

  /** Steps 5-9 when the base constructor refuses an autonomous definition
      (the wrapper was not built for `HTMLElement`): the element is failed
      and the pending entry stays on the stack. */
  lemma ConstructAndFinishAutonomousRefused(s: State, n: NodeId, d: Definition, after: AfterBase)
    requires Valid(s) && s.tree.IsElement(n) && GetState(s, n).None? && Registered(s, d)
    requires d.localName == d.name && !s.isHtmlElement
    ensures var r := ConstructAndFinish(s, n, d, CallsBase(after));
      && r.result == Throw(AutonomousNotHtmlElement)
      && GetState(r.state, n) == Some(Failed)
      && StackOf(r.state, d.name) == StackOf(s, d.name) + [PendingElement(n)]
  {
    var s2 := PushPending(s, d, n);
    BookkeepingOnlyUpgradeFrame(s, s2, n);
    AutonomousNeedsHtmlElement(s2, d);
  }

  /** Whatever the constructor does, an upgrade of an unset element that
      completes normally leaves it custom with the definition recorded, and one
      that leaves it failed has thrown. */
  lemma UpgradeSettlesOnlyByOutcome(s: State, n: NodeId, d: Definition, b: Behaviour)
    requires Valid(s) && s.tree.IsElement(n) && GetState(s, n).None?
    ensures var r := UpgradeElement(s, n, d, b);
      && (r.result.Normal? ==>
            IsCustom(r.state, n) && n in r.state.elementDefinitions && r.state.elementDefinitions[n] == d)
      && (GetState(r.state, n) == Some(Failed) ==> r.result.Throw?)
  {
    if ReplaySucceeds(s, n) {
      UpgradeAfterReplay(s, n, d, b);
      var q := ReplayReactions(s, n);
      BookkeepingOnlyUpgradeFrame(s, q.state, n);
      ConstructAndFinishSettles(q.state, n, d, b);
    } else {
      assert UpgradeElement(s, n, d, b) == ReplayReactions(s, n);
    }
  }

  /** Steps 5-12 settle the element only by their outcome: custom with the
      definition on a normal return, failed only with a throw. */
  lemma ConstructAndFinishSettles(s: State, n: NodeId, d: Definition, b: Behaviour)
    requires Valid(s) && s.tree.IsElement(n) && GetState(s, n).None?
    ensures var r := ConstructAndFinish(s, n, d, b);
      && (r.result.Normal? ==>
            IsCustom(r.state, n) && n in r.state.elementDefinitions && r.state.elementDefinitions[n] == d)
      && (GetState(r.state, n) == Some(Failed) ==> r.result.Throw?)
  {
    var s2 := PushPending(s, d, n);
    BookkeepingOnlyUpgradeFrame(s, s2, n);
    var c := Construct(s2, d.ctor, b);
    ConstructionWithinUpgradeFrame(s2, c.state, n);
    assert ConstructAndFinish(s, n, d, b) == FinishUpgrade(c.state, n, d, c.result);
  }

  /** A well-behaved upgrade: the element ends custom with its definition
      recorded and its prototype attached, and the construction stack is
      back to its length before the push. */
  lemma UpgradeWellBehavedSucceeds(s: State, n: NodeId, d: Definition)
    requires Valid(s) && s.tree.IsElement(n) && GetState(s, n).None? && ReplaySucceeds(s, n)
    requires Constructible(s, d)
    ensures var r := UpgradeElement(s, n, d, WellBehaved);
      && r.result == Normal(())
      && IsCustom(r.state, n)
      && n in r.state.elementDefinitions && r.state.elementDefinitions[n] == d
      && n in r.state.prototypes && r.state.prototypes[n] == d.name
      && StackOf(r.state, d.name) == StackOf(s, d.name)
  {
    UpgradeAfterReplay(s, n, d, WellBehaved);
    var q := ReplayReactions(s, n).state;
    BookkeepingOnlyUpgradeFrame(s, q, n);
    ConstructAndFinishWellBehaved(q, n, d);
  }

  /** A constructor that throws before `super()`: the element becomes failed,
      the error propagates and the pending entry stays on the stack. */
  lemma UpgradeThrowsBeforeBase(s: State, n: NodeId, d: Definition, code: nat)
    requires Valid(s) && s.tree.IsElement(n) && GetState(s, n).None? && ReplaySucceeds(s, n)
    ensures var r := UpgradeElement(s, n, d, ThrowsBeforeBase(code));
      && r.result == Throw(AppError(code))
      && GetState(r.state, n) == Some(Failed)
      && StackOf(r.state, d.name) == StackOf(s, d.name) + [PendingElement(n)]
  {
    UpgradeAfterReplay(s, n, d, ThrowsBeforeBase(code));
    var q := ReplayReactions(s, n).state;
    BookkeepingOnlyUpgradeFrame(s, q, n);
    ConstructAndFinishThrowsBeforeBase(q, n, d, code);
  }

  /** A constructor that throws after `super()`: the element becomes failed,
      the error propagates and the already-constructed marker stays on the
      stack. */
  lemma UpgradeThrowsAfterBase(s: State, n: NodeId, d: Definition, code: nat)
    requires Valid(s) && s.tree.IsElement(n) && GetState(s, n).None? && ReplaySucceeds(s, n)
    requires Constructible(s, d)
    ensures var r := UpgradeElement(s, n, d, CallsBase(ThrowsAfterBase(code)));
      && r.result == Throw(AppError(code))
      && GetState(r.state, n) == Some(Failed)
      && StackOf(r.state, d.name) == StackOf(s, d.name) + [AlreadyConstructedMarker]
  {
    UpgradeAfterReplay(s, n, d, CallsBase(ThrowsAfterBase(code)));
    var q := ReplayReactions(s, n).state;
    BookkeepingOnlyUpgradeFrame(s, q, n);
    ConstructAndFinishThrowsAfterBase(q, n, d, code);
  }

  /** A constructor that returns another object: the upgrade throws, the
      stack is popped back, and the element stays unset, not failed. */
  lemma UpgradeIdentityMismatch(s: State, n: NodeId, d: Definition, other: NodeId)
    requires Valid(s) && s.tree.IsElement(n) && GetState(s, n).None? && ReplaySucceeds(s, n)
    requires other != n
    ensures var r := UpgradeElement(s, n, d, ReturnsWithoutBase(other));
      && r.result == Throw(IdentityMismatch)
      && GetState(r.state, n).None?
      && StackOf(r.state, d.name) == StackOf(s, d.name)
  {
    UpgradeAfterReplay(s, n, d, ReturnsWithoutBase(other));
    var q := ReplayReactions(s, n).state;
    BookkeepingOnlyUpgradeFrame(s, q, n);
    ConstructAndFinishIdentityMismatch(q, n, d, other);
  }

  /** An autonomous definition upgraded through a wrapper built without the
      `HTMLElement` flag: `super()` throws, so the element becomes failed. */
  lemma UpgradeAutonomousRefused(s: State, n: NodeId, d: Definition, after: AfterBase)
    requires Valid(s) && s.tree.IsElement(n) && GetState(s, n).None? && ReplaySucceeds(s, n)
    requires Registered(s, d) && d.localName == d.name && !s.isHtmlElement
    ensures var r := UpgradeElement(s, n, d, CallsBase(after));
      && r.result == Throw(AutonomousNotHtmlElement)
      && GetState(r.state, n) == Some(Failed)
      && StackOf(r.state, d.name) == StackOf(s, d.name) + [PendingElement(n)]
  {
    UpgradeAfterReplay(s, n, d, CallsBase(after));
    var q := ReplayReactions(s, n).state;
    BookkeepingOnlyUpgradeFrame(s, q, n);
    ConstructAndFinishAutonomousRefused(q, n, d, after);
  }
}
