/** The microtask queue the registry defers work to (`queueMicroTask` in
    src/custom-elements-registry.js:38 and src/dom-utils.js:16-18), drained
    one task at a time in the order the tasks were queued.

    A callback task invokes application code, which the model does not see:
    running it only records that it ran. A deferred upgrade runs
    `_upgradeElement` from inside a promise callback, where nothing catches
    what it throws: the error is dropped and the state it leaves stays.
 */
module Microtasks {
  import opened Common
  import opened Dom
  import opened Engine
  import opened Construction
  import opened Upgrade
  import Registration

  /** Every queued upgrade targets an element of the tree. */
  predicate QueueTargetsElements(s: State) {
    forall i | 0 <= i < |s.tasks| :: s.tasks[i].RunUpgrade? ==> s.tree.IsElement(s.tasks[i].element)
  }

  /** Run the oldest queued task, the application constructor behaving as
      `app` says for a deferred upgrade. An empty queue leaves the state as
      it is. */
  function RunNextTask(s: State, app: map<NodeId, Behaviour>): (r: State)
    requires Valid(s) && QueueTargetsElements(s)
    ensures Valid(r) && QueueTargetsElements(r)
    ensures |s.tasks| == 0 ==> r == s
    ensures |s.tasks| > 0 ==>
      && r.ran == s.ran + [s.tasks[0]]
      && s.tasks[1..] <= r.tasks
      && RegistryUnchanged(s, r) && StatesKept(s, r) && TreeGrows(s.tree, r.tree)
    ensures |s.tasks| > 0 && s.tasks[0].RunUpgrade? ==>
      AppendsCallbacksFor(s.tasks[1..], r.tasks, s.tasks[0].element)
    ensures |s.tasks| > 0 && s.tasks[0].RunCallback? ==>
      r == s.(tasks := s.tasks[1..], ran := s.ran + [s.tasks[0]])
  {
    if |s.tasks| == 0 then s
    else
      var t := s.tasks[0];
      var s1 := s.(tasks := s.tasks[1..], ran := s.ran + [t]);
      assert Valid(s1);
      match t
      case RunCallback(_, _, _) => s1
      case RunUpgrade(n, d) =>
        var u := Upgrade.UpgradeElement(s1, n, d, Registration.BehaviourOf(app, n));
        UpgradeAppendsCallbacks(s1, n, d, Registration.BehaviourOf(app, n));
        QueueStillTargetsElements(s1, u.state, n);
        u.state
  }

  /** Appending callback tasks to a queue of upgrades of elements, while the
      tree only grows, keeps every upgrade targeting an element. */
  lemma QueueStillTargetsElements(s: State, s': State, n: NodeId)
    requires QueueTargetsElements(s) && TreeGrows(s.tree, s'.tree)
    requires AppendsCallbacksFor(s.tasks, s'.tasks, n)
    ensures QueueTargetsElements(s')
  {
    forall i | 0 <= i < |s'.tasks| && s'.tasks[i].RunUpgrade?
      ensures s'.tree.IsElement(s'.tasks[i].element)
    {
      assert i < |s.tasks| && s'.tasks[i] == s.tasks[i];
    }
  }

  /** A sequence's first `j` elements are those of any extension of it. */
  lemma PrefixTake(a: seq<Task>, b: seq<Task>, j: nat)
    requires a <= b && j <= |a|
    ensures b[..j] == a[..j]
  {
  }

  /** After the oldest task ran, what has run followed by the next `k - 1`
      tasks is what had run followed by the `k` oldest. */
  lemma RunNextTaskShifts(s: State, s1: State, k: nat)
    requires 0 < k <= |s.tasks|
    requires s1.ran == s.ran + [s.tasks[0]] && s.tasks[1..] <= s1.tasks
    ensures k - 1 <= |s1.tasks|
    ensures s1.ran + s1.tasks[..k - 1] == s.ran + s.tasks[..k]
  {
    PrefixTake(s.tasks[1..], s1.tasks, k - 1);
    assert s.tasks[1..][..k - 1] == s.tasks[1..k];
    assert s.tasks[..k] == [s.tasks[0]] + s.tasks[1..k];
    AppendAssociative(s.ran, [s.tasks[0]], s.tasks[1..k]);
  }

  /** Run `k` tasks, or fewer if the queue runs dry. The queue is first in,
      first out: when it holds at least `k` tasks, exactly the `k` oldest
      run, in the order they were queued, whatever the tasks queue while
      they run. */
  function RunTasks(s: State, k: nat, app: map<NodeId, Behaviour>): (r: State)
    requires Valid(s) && QueueTargetsElements(s)
    ensures Valid(r) && QueueTargetsElements(r)
    ensures k <= |s.tasks| ==> r.ran == s.ran + s.tasks[..k]
    decreases k
  {
    if k == 0 then s
    else
      var s1 := RunNextTask(s, app);
      var r := RunTasks(s1, k - 1, app);
      if k <= |s.tasks| then
        RunNextTaskShifts(s, s1, k);
        r
      else r
  }
}
