/** The tree observer's dispatch (src/tree-observer.js:32-105).

    The host delivers mutation records; for each record the observer handles
    the added nodes, then the removed nodes, then the attribute change of an
    attribute record. It only queues work: reactions through
    `_callbackReaction` and deferred upgrades through `_tryUpgradeElement`, so
    no node state, definition or tree changes here. A throw from
    `_callbackReaction` (a custom element whose definition can no longer be
    found under its `is` attribute or local name) propagates out of the
    observer callback and the remaining nodes and records are not handled.
 */
module Observer {
  import opened Common
  import opened Dom
  import opened Engine

  /** The attribute part of an `attributes` mutation record. */
  datatype AttributeRecord = AttributeRecord(
    target: NodeId,
    attributeName: string,
    oldValue: Option<string>,
    attributeNamespace: Option<string>)

  /** A mutation record: `childList` records carry added and removed nodes,
      `attributes` records an attribute change. */
  datatype MutationRecord = MutationRecord(
    addedNodes: seq<NodeId>,
    removedNodes: seq<NodeId>,
    attribute: Option<AttributeRecord>)

  /** The part of the invariant the observer relies on: only elements have a
      state. */
  predicate StatesOnElements(s: State) {
    forall n | n in s.elementStates :: s.tree.IsElement(n)
  }

  /** The observer only ever appends to the queue. */
  predicate QueueOnly(s: State, s': State) {
    s' == s.(tasks := s'.tasks) && s.tasks <= s'.tasks
  }

  /** The tasks `_callbackReaction` queues for a reaction, read off `s`. */
  function ReactionTasks(s: State, n: NodeId, rx: Reaction): seq<Task>
    requires s.tree.IsElement(n)
  {
    var d := GetElementDefinition(s, n);
    if d.Some? && Admits(d.value, rx) then [RunCallback(n, CallbackFor(d.value.callbacks, rx).value, rx)] else []
  }

  /** `_callbackReaction` queues exactly the reaction's tasks, or throws and
      changes nothing. */
  lemma CallbackReactionQueues(s: State, n: NodeId, rx: Reaction)
    requires s.tree.IsElement(n)
    ensures var r := CallbackReaction(s, n, rx);
      && QueueOnly(s, r.state)
      && (r.result.Normal? ==> r.state.tasks == s.tasks + ReactionTasks(s, n, rx))
  {
  }

  /** `_addNode`: ignore non-elements; queue a connected reaction for a
      custom element; then try to upgrade every element. */
  function AddNode(s: State, n: NodeId): (r: Step<()>)
    ensures QueueOnly(s, r.state)
    ensures !s.tree.IsElement(n) ==> r == Step(s, Normal(()))
  {
    if !s.tree.IsElement(n) then Step(s, Normal(()))
    else
      var c := if IsCustom(s, n) then CallbackReaction(s, n, Connected) else Step(s, Normal(()));
      if c.result.Throw? then c
      else Step(TryUpgradeElement(c.state, n), Normal(()))
  }

  /** `_removeNode`: only a custom element gets a disconnected reaction. */
  function RemoveNode(s: State, n: NodeId): (r: Step<()>)
    ensures QueueOnly(s, r.state)
    ensures !(s.tree.IsElement(n) && IsCustom(s, n)) ==> r == Step(s, Normal(()))
  {
    if !s.tree.IsElement(n) || !IsCustom(s, n) then Step(s, Normal(()))
    else CallbackReaction(s, n, Disconnected)
  }

  /** `_attributeChange`: only a custom target gets an attribute-changed
      reaction, with the attribute's current value as the new value. */
  function AttributeChange(s: State, a: AttributeRecord): (r: Step<()>)
    requires StatesOnElements(s)
    ensures QueueOnly(s, r.state)
    ensures !IsCustom(s, a.target) ==> r == Step(s, Normal(()))
  {
    if !IsCustom(s, a.target) then Step(s, Normal(()))
    else
      var current := GetAttribute(s.tree.nodes[a.target].attributes, a.attributeName);
      CallbackReaction(s, a.target, AttributeChanged(a.attributeName, a.oldValue, current, a.attributeNamespace))
  }

  /** Each node in turn; the first throw stops the rest. */
  function AddNodes(s: State, ns: seq<NodeId>): (r: Step<()>)
    ensures QueueOnly(s, r.state)
    decreases |ns|
  {
    if |ns| == 0 then Step(s, Normal(()))
    else
      var r := AddNode(s, ns[0]);
      if r.result.Throw? then r else AddNodes(r.state, ns[1..])
  }

  function RemoveNodes(s: State, ns: seq<NodeId>): (r: Step<()>)
    ensures QueueOnly(s, r.state)
    decreases |ns|
  {
    if |ns| == 0 then Step(s, Normal(()))
    else
      var r := RemoveNode(s, ns[0]);
      if r.result.Throw? then r else RemoveNodes(r.state, ns[1..])
  }

  /** One mutation record: added nodes, then removed nodes, then the
      attribute change. */
  function ProcessRecord(s: State, m: MutationRecord): (r: Step<()>)
    requires StatesOnElements(s)
    ensures QueueOnly(s, r.state)
  {
    var a := AddNodes(s, m.addedNodes);
    if a.result.Throw? then a
    else
      var b := RemoveNodes(a.state, m.removedNodes);
      if b.result.Throw? || m.attribute.None? then b
      else AttributeChange(b.state, m.attribute.value)
  }

  /** The observer callback: the records in order; a throw stops the rest. */
  function ProcessRecords(s: State, ms: seq<MutationRecord>): (r: Step<()>)
    requires StatesOnElements(s)
    ensures QueueOnly(s, r.state)
    decreases |ms|
  {
    if |ms| == 0 then Step(s, Normal(()))
    else
      var r := ProcessRecord(s, ms[0]);
      if r.result.Throw? then r else ProcessRecords(r.state, ms[1..])
  }

  /** The reference for one added node: for a custom element its connected
      reaction, then for any element with a definition a deferred upgrade;
      never an upgrade run now. */
  function AddTasks(s: State, n: NodeId): seq<Task> {
    if !s.tree.IsElement(n) then []
    else
      (if IsCustom(s, n) then ReactionTasks(s, n, Connected) else []) +
      (if GetElementDefinition(s, n).Some? then [RunUpgrade(n, GetElementDefinition(s, n).value)] else [])
  }

  /** Handling a node throws when it is a custom element whose definition
      cannot be found. */
  predicate LookupFails(s: State, n: NodeId) {
    s.tree.IsElement(n) && IsCustom(s, n) && GetElementDefinition(s, n).None?
  }

  /** The reference for one removed node: a disconnected reaction for a
      custom element, nothing otherwise. */
  function RemoveTasks(s: State, n: NodeId): seq<Task> {
    if s.tree.IsElement(n) && IsCustom(s, n) then ReactionTasks(s, n, Disconnected) else []
  }

  /** The reference for an attribute change: on a custom target, a reaction
      with `[name, oldValue, current value, namespace]`; nothing otherwise. */
  function AttributeTasks(s: State, a: AttributeRecord): seq<Task>
    requires StatesOnElements(s)
  {
    if IsCustom(s, a.target) then
      ReactionTasks(s, a.target, AttributeChanged(a.attributeName, a.oldValue,
        GetAttribute(s.tree.nodes[a.target].attributes, a.attributeName), a.attributeNamespace))
    else []
  }

  function AddedTasks(s: State, ns: seq<NodeId>): seq<Task>
    decreases |ns|
  {
    if |ns| == 0 then [] else AddTasks(s, ns[0]) + AddedTasks(s, ns[1..])
  }

  function RemovedTasks(s: State, ns: seq<NodeId>): seq<Task>
    decreases |ns|
  {
    if |ns| == 0 then [] else RemoveTasks(s, ns[0]) + RemovedTasks(s, ns[1..])
  }

  predicate SomeLookupFails(s: State, ns: seq<NodeId>) {
    exists i | 0 <= i < |ns| :: LookupFails(s, ns[i])
  }

  /** The references read nothing the observer changes. */
  lemma {:induction false} ReferencesIgnoreQueue(s: State, s': State, ns: seq<NodeId>)
    requires s' == s.(tasks := s'.tasks)
    ensures AddedTasks(s', ns) == AddedTasks(s, ns) && RemovedTasks(s', ns) == RemovedTasks(s, ns)
    decreases |ns|
  {
    if |ns| > 0 {
      ReferencesIgnoreQueue(s, s', ns[1..]);
    }
  }

  /** A lookup fails for some node exactly when it fails for the first or,
      in a state differing only in its queue, for one of the rest. */
  lemma SomeLookupFailsStep(s: State, s': State, ns: seq<NodeId>)
    requires s' == s.(tasks := s'.tasks) && |ns| > 0
    ensures SomeLookupFails(s, ns) <==> LookupFails(s, ns[0]) || SomeLookupFails(s', ns[1..])
  {
    if SomeLookupFails(s', ns[1..]) {
      var i :| 0 <= i < |ns[1..]| && LookupFails(s', ns[1..][i]);
      assert LookupFails(s, ns[i + 1]);
    }
    if SomeLookupFails(s, ns) {
      var i :| 0 <= i < |ns| && LookupFails(s, ns[i]);
      if i != 0 {
        assert LookupFails(s', ns[1..][i - 1]);
      }
    }
  }

  lemma LookupsIgnoreQueue(s: State, s': State, ns: seq<NodeId>)
    requires s' == s.(tasks := s'.tasks)
    ensures SomeLookupFails(s', ns) == SomeLookupFails(s, ns)
    ensures forall n | n in ns :: LookupFails(s', n) == LookupFails(s, n)
  {
  }

  /** `_addNode` against its reference. */
  lemma AddNodeMeetsReference(s: State, n: NodeId)
    ensures var r := AddNode(s, n);
      && (r.result.Throw? <==> LookupFails(s, n))
      && (r.result.Throw? ==> r.state == s)
      && (r.result.Normal? ==> r.state.tasks == s.tasks + AddTasks(s, n))
  {
    if s.tree.IsElement(n) && IsCustom(s, n) {
      CallbackReactionQueues(s, n, Connected);
    }
  }

  /** The added nodes in order against the reference: the queue gains each
      node's tasks in turn, unless some node's lookup fails. */
  lemma {:induction false} AddNodesMeetReference(s: State, ns: seq<NodeId>)
    ensures var r := AddNodes(s, ns);
      && (r.result.Throw? <==> SomeLookupFails(s, ns))
      && (r.result.Normal? ==> r.state.tasks == s.tasks + AddedTasks(s, ns))
    decreases |ns|
  {
    if |ns| > 0 {
      var r := AddNode(s, ns[0]);
      AddNodeMeetsReference(s, ns[0]);
      SomeLookupFailsStep(s, r.state, ns);
      if r.result.Normal? {
        assert AddNodes(s, ns) == AddNodes(r.state, ns[1..]);
        AddNodesMeetReference(r.state, ns[1..]);
        ReferencesIgnoreQueue(s, r.state, ns[1..]);
        AppendAssociative(s.tasks, AddTasks(s, ns[0]), AddedTasks(s, ns[1..]));
      } else {
        assert AddNodes(s, ns) == r;
      }
    }
  }

  /** `_removeNode` against its reference. */
  lemma RemoveNodeMeetsReference(s: State, n: NodeId)
    ensures var r := RemoveNode(s, n);
      && (r.result.Throw? <==> LookupFails(s, n))
      && (r.result.Throw? ==> r.state == s)
      && (r.result.Normal? ==> r.state.tasks == s.tasks + RemoveTasks(s, n))
  {
    if s.tree.IsElement(n) && IsCustom(s, n) {
      CallbackReactionQueues(s, n, Disconnected);
    }
  }

  lemma {:induction false} RemoveNodesMeetReference(s: State, ns: seq<NodeId>)
    ensures var r := RemoveNodes(s, ns);
      && (r.result.Throw? <==> SomeLookupFails(s, ns))
      && (r.result.Normal? ==> r.state.tasks == s.tasks + RemovedTasks(s, ns))
    decreases |ns|
  {
    if |ns| > 0 {
      var r := RemoveNode(s, ns[0]);
      RemoveNodeMeetsReference(s, ns[0]);
      SomeLookupFailsStep(s, r.state, ns);
      if r.result.Normal? {
        assert RemoveNodes(s, ns) == RemoveNodes(r.state, ns[1..]);
        RemoveNodesMeetReference(r.state, ns[1..]);
        ReferencesIgnoreQueue(s, r.state, ns[1..]);
        AppendAssociative(s.tasks, RemoveTasks(s, ns[0]), RemovedTasks(s, ns[1..]));
      } else {
        assert RemoveNodes(s, ns) == r;
      }
    }
  }

  /** `_attributeChange` against its reference. */
  lemma AttributeChangeMeetsReference(s: State, a: AttributeRecord)
    requires StatesOnElements(s)
    ensures var r := AttributeChange(s, a);
      && (r.result.Throw? <==> LookupFails(s, a.target))
      && (r.result.Normal? ==> r.state.tasks == s.tasks + AttributeTasks(s, a))
  {
    if IsCustom(s, a.target) {
      var current := GetAttribute(s.tree.nodes[a.target].attributes, a.attributeName);
      CallbackReactionQueues(s, a.target, AttributeChanged(a.attributeName, a.oldValue, current, a.attributeNamespace));
    }
  }

  /** The reference for one record: its added nodes' tasks, then its removed
      nodes', then its attribute change's. */
  function RecordTasks(s: State, m: MutationRecord): seq<Task>
    requires StatesOnElements(s)
  {
    AddedTasks(s, m.addedNodes) + RemovedTasks(s, m.removedNodes) +
    (if m.attribute.Some? then AttributeTasks(s, m.attribute.value) else [])
  }

  /** Handling the record meets a failing lookup. */
  predicate RecordFails(s: State, m: MutationRecord) {
    || SomeLookupFails(s, m.addedNodes)
    || SomeLookupFails(s, m.removedNodes)
    || (m.attribute.Some? && LookupFails(s, m.attribute.value.target))
  }

  /** Within one record the added nodes come first, then the removed nodes,
      then the attribute change; the whole record's tasks are read off the
      state before it, since handling a record changes only the queue. */
  lemma ProcessRecordOrder(s: State, m: MutationRecord)
    requires StatesOnElements(s)
    ensures var r := ProcessRecord(s, m);
      && (r.result.Throw? <==> RecordFails(s, m))
      && (r.result.Normal? ==> r.state.tasks == s.tasks + RecordTasks(s, m))
  {
    var added := AddedTasks(s, m.addedNodes);
    var removed := RemovedTasks(s, m.removedNodes);
    var attr := if m.attribute.Some? then AttributeTasks(s, m.attribute.value) else [];
    AppendAssociative(s.tasks, added, removed);
    AppendAssociative(s.tasks, added + removed, attr);
    var a := AddNodes(s, m.addedNodes);
    AddNodesMeetReference(s, m.addedNodes);
    if a.result.Normal? {
      var b := RemoveNodes(a.state, m.removedNodes);
      RemoveNodesMeetReference(a.state, m.removedNodes);
      ReferencesIgnoreQueue(s, a.state, m.removedNodes);
      LookupsIgnoreQueue(s, a.state, m.removedNodes);
      if b.result.Normal? && m.attribute.Some? {
        AttributeChangeMeetsReference(b.state, m.attribute.value);
        LookupsIgnoreQueue(s, b.state, [m.attribute.value.target]);
        assert AttributeTasks(b.state, m.attribute.value) == AttributeTasks(s, m.attribute.value);
      }
    }
  }

  /** One record's reference, read off a state that differs only in its
      queue, is the same. */
  lemma RecordIgnoresQueue(s: State, s': State, m: MutationRecord)
    requires StatesOnElements(s) && s' == s.(tasks := s'.tasks)
    ensures RecordTasks(s', m) == RecordTasks(s, m) && RecordFails(s', m) == RecordFails(s, m)
  {
    ReferencesIgnoreQueue(s, s', m.addedNodes);
    ReferencesIgnoreQueue(s, s', m.removedNodes);
    LookupsIgnoreQueue(s, s', m.addedNodes);
    LookupsIgnoreQueue(s, s', m.removedNodes);
    if m.attribute.Some? {
      LookupsIgnoreQueue(s, s', [m.attribute.value.target]);
    }
  }

  /** The reference for a batch of records: each record's tasks in turn, all
      read off the state before the batch. */
  function RecordsTasks(s: State, ms: seq<MutationRecord>): seq<Task>
    requires StatesOnElements(s)
    decreases |ms|
  {
    if |ms| == 0 then [] else RecordTasks(s, ms[0]) + RecordsTasks(s, ms[1..])
  }

  predicate SomeRecordFails(s: State, ms: seq<MutationRecord>) {
    exists i | 0 <= i < |ms| :: RecordFails(s, ms[i])
  }

  lemma {:induction false} RecordsIgnoreQueue(s: State, s': State, ms: seq<MutationRecord>)
    requires StatesOnElements(s) && s' == s.(tasks := s'.tasks)
    ensures RecordsTasks(s', ms) == RecordsTasks(s, ms)
    ensures SomeRecordFails(s', ms) == SomeRecordFails(s, ms)
    decreases |ms|
  {
    forall i | 0 <= i < |ms|
      ensures RecordFails(s', ms[i]) == RecordFails(s, ms[i])
    {
      RecordIgnoresQueue(s, s', ms[i]);
    }
    if |ms| > 0 {
      RecordIgnoresQueue(s, s', ms[0]);
      RecordsIgnoreQueue(s, s', ms[1..]);
    }
  }

  lemma SomeRecordFailsStep(s: State, ms: seq<MutationRecord>)
    requires |ms| > 0
    ensures SomeRecordFails(s, ms) <==> RecordFails(s, ms[0]) || SomeRecordFails(s, ms[1..])
  {
    if SomeRecordFails(s, ms[1..]) {
      var i :| 0 <= i < |ms[1..]| && RecordFails(s, ms[1..][i]);
      assert RecordFails(s, ms[i + 1]);
    }
    if SomeRecordFails(s, ms) {
      var i :| 0 <= i < |ms| && RecordFails(s, ms[i]);
      if i != 0 {
        assert RecordFails(s, ms[1..][i - 1]);
      }
    }
  }

  /** The observer callback against its reference: the queue gains every
      record's tasks in order, unless some record meets a failing lookup. */
  lemma {:induction false} ProcessRecordsMeetReference(s: State, ms: seq<MutationRecord>)
    requires StatesOnElements(s)
    ensures var r := ProcessRecords(s, ms);
      && (r.result.Throw? <==> SomeRecordFails(s, ms))
      && (r.result.Normal? ==> r.state.tasks == s.tasks + RecordsTasks(s, ms))
    decreases |ms|
  {
    if |ms| > 0 {
      var r := ProcessRecord(s, ms[0]);
      ProcessRecordOrder(s, ms[0]);
      SomeRecordFailsStep(s, ms);
      if r.result.Normal? {
        assert ProcessRecords(s, ms) == ProcessRecords(r.state, ms[1..]);
        ProcessRecordsMeetReference(r.state, ms[1..]);
        RecordsIgnoreQueue(s, r.state, ms[1..]);
        AppendAssociative(s.tasks, RecordTasks(s, ms[0]), RecordsTasks(s, ms[1..]));
      } else {
        assert ProcessRecords(s, ms) == r;
      }
    }
  }
}
