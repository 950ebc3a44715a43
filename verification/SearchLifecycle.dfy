/**
 The life of an mDNS search while the server runs.  Every step below is one critical section of the
 service lock or one queue operation; the timer, the packet parser, the service task and the API
 callers interleave freely.  Search identities are never reused.
 */
module SearchLifecycle {
  import opened Bytes

  type Id = nat

  datatype Phase = Init | Running | Off

  datatype Action = Add(id: Id) | Send(id: Id) | End(id: Id)

  /** `wanted`: created with a notifier; `blocking`: created by the synchronous query call. */
  datatype Search = Search(phase: Phase, notifier: bool, wanted: bool, blocking: bool, alive: bool,
                           notified: nat, signalled: nat, sent: nat)

  datatype State = State(list: seq<Id>, queue: seq<Action>, inHand: Option<Action>, searches: map<Id, Search>)

  const START := State([], [], None, map[])

  function Without(list: seq<Id>, id: Id): (r: seq<Id>)
    ensures forall x :: x in r <==> x in list && x != id
  {
    if |list| == 0 then [] else if list[0] == id then Without(list[1..], id) else [list[0]] + Without(list[1..], id)
  }

  /** Actions that will still be executed, in order. */
  function Pending(s: State): (r: seq<Action>) {
    (if s.inHand.Some? then [s.inHand.value] else []) + s.queue
  }

  // ---- The code's operations ----

  /** search_finish: guarded by list membership. */
  function Finish(s: State, id: Id): (t: State) {
    if id !in s.list || id !in s.searches then s
    else
      var q := s.searches[id];
      s.(list := Without(s.list, id),
         searches := s.searches[id := q.(phase := Off, notifier := false,
                                         notified := q.notified + (if q.notifier then 1 else 0),
                                         signalled := q.signalled + 1)])
  }

  /** ACTION_RUN. */
  function Execute(s: State, a: Action): (t: State) {
    match a
    case Add(id) => s.(list := [id] + s.list)
    case Send(id) =>
      if id in s.list && id in s.searches
      then s.(searches := s.searches[id := s.searches[id].(sent := s.searches[id].sent + 1)])
      else s
    case End(id) => Finish(s, id)
  }

  datatype Step =
    | Create(id: Id, wanted: bool, blocking: bool, queued: bool)
    | Receive                                   // the service task takes an action off the queue
    | RunAction                                 // and executes it under the lock
    | Tick(id: Id, expired: bool, queued: bool) // one element of the timer's walk
    | MaxResults(id: Id)                        // one element of the parser's walk
    | AsyncDelete(id: Id)
    | WakeAndFree(id: Id)                       // the synchronous caller got the semaphore

  /** When the step can be taken; API callers only pass searches they still own. */
  predicate Enabled(s: State, step: Step) {
    match step
    case Create(id, wanted, blocking, _) => id !in s.searches && (blocking ==> !wanted)
    case Receive => s.inHand == None && |s.queue| > 0
    case RunAction => s.inHand.Some?
    case Tick(id, _, _) => id in s.list
    case MaxResults(id) => id in s.list
    case AsyncDelete(id) => id in s.searches && s.searches[id].alive && !s.searches[id].blocking
    case WakeAndFree(id) =>
      id in s.searches && s.searches[id].alive && s.searches[id].blocking && s.searches[id].signalled > 0
  }

  function Apply(s: State, step: Step): (t: State)
    requires Enabled(s, step)
  {
    match step
    case Create(id, wanted, blocking, queued) =>
      s.(searches := s.searches[id := Search(Init, wanted, wanted, blocking, queued, 0, 0, 0)],
         queue := if queued then s.queue + [Add(id)] else s.queue)
    case Receive => s.(inHand := Some(s.queue[0]), queue := s.queue[1..])
    case RunAction => Execute(s.(inHand := None), s.inHand.value)
    case Tick(id, expired, queued) =>
      if id !in s.searches || s.searches[id].phase == Off then s
      else
        var q := s.searches[id];
        if expired then
          s.(searches := s.searches[id := q.(phase := if queued then Off else Running)],
             queue := if queued then s.queue + [End(id)] else s.queue)
        else
          s.(searches := s.searches[id := q.(phase := Running)],
             queue := if queued then s.queue + [Send(id)] else s.queue)
    case MaxResults(id) => Finish(s, id)
    case AsyncDelete(id) =>
      if s.searches[id].phase != Off then s
      else s.(list := Without(s.list, id),
              searches := s.searches[id := s.searches[id].(alive := false, notifier := false)])
    case WakeAndFree(id) => s.(searches := s.searches[id := s.searches[id].(alive := false)])
  }

  /** Searches whose memory the step reads or writes. */
  function Touched(s: State, step: Step): (ids: set<Id>)
    requires Enabled(s, step)
  {
    var listed := set id | id in s.list;
    match step
    case Create(_, _, _, _) => {}
    case Receive => {}
    case RunAction => (match s.inHand.value case Add(id) => {id} case _ => listed)
    case Tick(_, _, _) => listed
    case MaxResults(_) => listed
    case AsyncDelete(id) => listed + {id}
    case WakeAndFree(id) => {id}
  }

  ghost predicate Run(states: seq<State>, steps: seq<Step>) {
    && |states| == |steps| + 1 && states[0] == START
    && forall i :: 0 <= i < |steps| ==> StepAt(states, steps, i)
  }

  ghost predicate StepAt(states: seq<State>, steps: seq<Step>, i: nat)
    requires i < |steps| < |states|
  {
    Enabled(states[i], steps[i]) && states[i + 1] == Apply(states[i], steps[i])
  }

  // ---- Invariant ----

  /** Where one search stands: waiting to be added, in the list, finished, or gone without finishing. */
  ghost predicate Waiting(s: State, id: Id) { Add(id) in Pending(s) }

  ghost predicate SearchInv(s: State, id: Id)
    requires id in s.searches
  {
    var q := s.searches[id];
    && q.signalled <= 1 && q.notified == (if q.wanted then q.signalled else 0)
    && (Waiting(s, id) ==> q.alive && q.phase == Init && id !in s.list)
    && (id in s.list ==> q.alive)
    && (Waiting(s, id) || id in s.list ==> q.signalled == 0 && q.notifier == q.wanted)
    && (id in s.list && q.phase == Off ==> End(id) in Pending(s))
    && (End(id) in Pending(s) ==> q.phase == Off)
    && (q.alive && !Waiting(s, id) && id !in s.list ==> q.signalled == 1)
    && (q.signalled == 1 ==> q.phase == Off && !q.notifier)
  }

  ghost predicate AddsDistinct(p: seq<Action>) {
    forall i, j :: 0 <= i < j < |p| && p[i].Add? ==> p[j] != p[i]
  }

  ghost predicate Inv(s: State) {
    && AddsDistinct(Pending(s))
    && (forall a :: a in Pending(s) ==> a.id in s.searches)
    && (forall id :: id in s.list ==> id in s.searches)
    && (forall id :: id in s.searches ==> SearchInv(s, id))
  }

  lemma QueueGrows(s: State, t: State, a: Action)
    requires Inv(s) && t.queue == s.queue + [a] && t.inHand == s.inHand && (a.Add? ==> a !in Pending(s))
    ensures AddsDistinct(Pending(t))
    ensures forall b :: b in Pending(t) <==> b in Pending(s) || b == a
  {
    assert Pending(t) == Pending(s) + [a];
  }

  /** A step that concerns one search leaves the standing of all others alone. */
  lemma OthersKeep(s: State, t: State, me: Id)
    requires Inv(s)
    requires forall id :: id != me ==> (id in t.searches <==> id in s.searches) && (id in t.list <==> id in s.list)
    requires forall id :: id != me && id in s.searches ==> t.searches[id] == s.searches[id]
    requires forall a: Action :: a.id != me ==> (a in Pending(t) <==> a in Pending(s))
    ensures forall id :: id in t.searches && id != me ==> SearchInv(t, id)
  {
    forall id | id in t.searches && id != me ensures SearchInv(t, id) {
      assert SearchInv(s, id);
      assert Add(id) in Pending(t) <==> Add(id) in Pending(s);
      assert End(id) in Pending(t) <==> End(id) in Pending(s);
    }
  }

  lemma CreateKeeps(s: State, step: Step)
    requires Inv(s) && step.Create? && Enabled(s, step)
    ensures Inv(Apply(s, step))
  {
    var t := Apply(s, step);
    if step.queued {
      QueueGrows(s, t, Add(step.id));
    } else {
      assert Pending(t) == Pending(s);
    }
    OthersKeep(s, t, step.id);
  }

  lemma TickKeeps(s: State, step: Step)
    requires Inv(s) && step.Tick? && Enabled(s, step)
    ensures Inv(Apply(s, step))
  {
    var t := Apply(s, step);
    assert SearchInv(s, step.id);
    if s.searches[step.id].phase == Off {
    } else if step.queued {
      QueueGrows(s, t, if step.expired then End(step.id) else Send(step.id));
      OthersKeep(s, t, step.id);
    } else {
      assert Pending(t) == Pending(s);
      OthersKeep(s, t, step.id);
    }
  }

  lemma ReceiveKeeps(s: State)
    requires Inv(s) && Enabled(s, Receive)
    ensures Inv(Apply(s, Receive))
  {
    var t := Apply(s, Receive);
    assert Pending(t) == Pending(s);
    forall id | id in t.searches ensures SearchInv(t, id) {
      assert SearchInv(s, id);
    }
  }

  lemma FinishKeeps(s: State, id: Id)
    requires Inv(s) && id in s.list
    ensures Inv(Finish(s, id))
  {
    var t := Finish(s, id);
    assert SearchInv(s, id);
    assert Pending(t) == Pending(s);
    OthersKeep(s, t, id);
  }

  lemma DeleteKeeps(s: State, step: Step)
    requires Inv(s) && (step.AsyncDelete? || step.WakeAndFree?) && Enabled(s, step)
    ensures Inv(Apply(s, step))
  {
    var t := Apply(s, step);
    assert SearchInv(s, step.id);
    assert Pending(t) == Pending(s);
    OthersKeep(s, t, step.id);
  }

  lemma AddsTail(a: Action, rest: seq<Action>)
    requires AddsDistinct([a] + rest)
    ensures AddsDistinct(rest)
    ensures a.Add? ==> a !in rest
  {
    var all := [a] + rest;
    forall i, j | 0 <= i < j < |rest| && rest[i].Add? ensures rest[j] != rest[i] {
      assert all[i + 1] == rest[i] && all[j + 1] == rest[j];
    }
    forall j | a.Add? && 0 <= j < |rest| ensures rest[j] != a {
      assert all[0] == a && all[j + 1] == rest[j];
    }
  }

  lemma RunActionKeeps(s: State)
    requires Inv(s) && s.inHand.Some?
    ensures Inv(Apply(s, RunAction))
  {
    var a := s.inHand.value;
    var t := Apply(s, RunAction);
    assert Pending(s) == [a] + s.queue && Pending(t) == s.queue;
    AddsTail(a, s.queue);
    assert a in Pending(s) && SearchInv(s, a.id);
    OthersKeep(s, t, a.id);
    RunActionKeepsOwn(s);
  }

  lemma RunActionKeepsOwn(s: State)
    requires Inv(s) && s.inHand.Some? && s.inHand.value.id in s.searches
    requires s.inHand.value.Add? ==> s.inHand.value !in s.queue
    ensures SearchInv(Apply(s, RunAction), s.inHand.value.id)
  {
    var a := s.inHand.value;
    var t := Apply(s, RunAction);
    assert Pending(s) == [a] + s.queue && Pending(t) == s.queue;
    assert SearchInv(s, a.id);
    assert forall b :: b in Pending(s) <==> b == a || b in Pending(t);
  }

  lemma StepKeepsInv(s: State, step: Step)
    requires Inv(s) && Enabled(s, step)
    ensures Inv(Apply(s, step))
  {
    match step
    case Create(_, _, _, _) => CreateKeeps(s, step);
    case Receive => ReceiveKeeps(s);
    case RunAction => RunActionKeeps(s);
    case Tick(_, _, _) => TickKeeps(s, step);
    case MaxResults(id) => FinishKeeps(s, id);
    case AsyncDelete(_) => DeleteKeeps(s, step);
    case WakeAndFree(_) => DeleteKeeps(s, step);
  }

  lemma {:induction false} RunKeepsInv(states: seq<State>, steps: seq<Step>)
    requires Run(states, steps)
    ensures forall i :: 0 <= i < |states| ==> Inv(states[i])
    decreases |steps|
  {
    if |steps| > 0 {
      var n := |steps| - 1;
      var before, done := states[..n + 1], steps[..n];
      forall i | 0 <= i < n ensures StepAt(before, done, i) {
        assert StepAt(states, steps, i);
      }
      RunKeepsInv(before, done);
      assert before[n] == states[n] && StepAt(states, steps, n);
      StepKeepsInv(states[n], steps[n]);
    }
  }

  // ---- Results ----

  /** Over every interleaving a search is finished, notified and signalled at most once. */
  lemma FinishedAtMostOnce(states: seq<State>, steps: seq<Step>, i: nat, id: Id)
    requires Run(states, steps) && i < |states| && id in states[i].searches
    ensures var q := states[i].searches[id];
            q.signalled <= 1 && q.notified == (if q.wanted then q.signalled else 0)
  {
    RunKeepsInv(states, steps);
    assert SearchInv(states[i], id);
  }

  /** No step touches a search that has been freed. */
  lemma NoUseAfterFree(states: seq<State>, steps: seq<Step>, i: nat, id: Id)
    requires Run(states, steps) && i < |steps| && StepAt(states, steps, i) && id in Touched(states[i], steps[i])
    ensures id in states[i].searches && states[i].searches[id].alive
  {
    RunKeepsInv(states, steps);
    var s := states[i];
    if steps[i].RunAction? && s.inHand.value.Add? {
      assert s.inHand.value in Pending(s);
    }
    assert SearchInv(s, id);
  }

  /** A queued SEND or END for a freed search is a no-op, and no ADD for one is ever queued. */
  lemma StaleActionsDoNothing(states: seq<State>, steps: seq<Step>, i: nat)
    requires Run(states, steps) && i < |states| && states[i].inHand.Some?
    ensures var s := states[i]; var a := s.inHand.value;
            a.id in s.searches &&
            (!s.searches[a.id].alive ==> !a.Add? && Apply(s, RunAction) == s.(inHand := None))
  {
    RunKeepsInv(states, steps);
    var s := states[i];
    assert s.inHand.value in Pending(s);
    assert SearchInv(s, s.inHand.value.id);
  }

  /**
   No search is lost: one that is alive is waiting to be added, is in the list, or has been signalled
   exactly once; and once the timer has switched a listed search off, its END is still to come.
   */
  lemma NoSearchIsLost(states: seq<State>, steps: seq<Step>, i: nat, id: Id)
    requires Run(states, steps) && i < |states| && id in states[i].searches && states[i].searches[id].alive
    ensures var s := states[i]; var q := s.searches[id];
            && (q.signalled == 1 <==> !Waiting(s, id) && id !in s.list)
            && (id in s.list && q.phase == Off ==> End(id) in Pending(s))
  {
    RunKeepsInv(states, steps);
    assert SearchInv(states[i], id);
  }

  /** When that END is executed it finishes the search, unless the search was deleted or finished before. */
  lemma EndFinishes(states: seq<State>, steps: seq<Step>, i: nat, id: Id)
    requires Run(states, steps) && i < |states| && states[i].inHand == Some(End(id))
    ensures id in states[i].searches && id in Apply(states[i], RunAction).searches
    ensures id !in Apply(states[i], RunAction).list
    ensures states[i].searches[id].alive ==> Apply(states[i], RunAction).searches[id].signalled == 1
  {
    RunKeepsInv(states, steps);
    EndInHandFinishes(states[i], id);
  }

  lemma EndInHandFinishes(s: State, id: Id)
    requires Inv(s) && s.inHand == Some(End(id))
    ensures var t := Apply(s, RunAction);
            id in s.searches && id in t.searches && id !in t.list &&
            (s.searches[id].alive ==> t.searches[id].signalled == 1)
  {
    assert End(id) in Pending(s) && !Waiting(s, id) by {
      EndIsNoAdd(s, id);
    }
    assert SearchInv(s, id);
  }

  /** A search whose END is on its way has been added long ago. */
  lemma EndIsNoAdd(s: State, id: Id)
    requires Inv(s) && s.inHand == Some(End(id))
    ensures End(id) in Pending(s) && !Waiting(s, id)
  {
    assert Pending(s)[0] == End(id);
    assert SearchInv(s, id);
  }

  /** Deleting is refused exactly while the search waits to be added or is listed with no END on its way. */
  lemma DeleteRefusedExactlyWhileActive(states: seq<State>, steps: seq<Step>, i: nat, id: Id)
    requires Run(states, steps) && i < |states| && Enabled(states[i], AsyncDelete(id))
    ensures var s := states[i];
            Apply(s, AsyncDelete(id)).searches[id].alive <==>
            Waiting(s, id) || (id in s.list && End(id) !in Pending(s))
  {
    RunKeepsInv(states, steps);
    assert SearchInv(states[i], id);
  }

  // ---- What is sent, and that nothing queued is forgotten ----

  /** The step puts one round of queries of search `id` on the wire. */
  predicate SendsOnce(s: State, step: Step, id: Id) {
    step == RunAction && s.inHand == Some(Send(id)) && id in s.list
  }

  /** A search sends when its SEND is executed while it is listed, and at no other time. */
  lemma SentGrowsExactly(s: State, step: Step, id: Id)
    requires Inv(s) && Enabled(s, step)
    ensures id in s.searches ==> id in Apply(s, step).searches
    ensures id in s.searches ==>
              Apply(s, step).searches[id].sent == s.searches[id].sent + (if SendsOnce(s, step, id) then 1 else 0)
    ensures id !in s.searches && id in Apply(s, step).searches ==> Apply(s, step).searches[id].sent == 0
  {
  }

  /**
   A search is freed by its owner and by nobody else: by the synchronous caller that was signalled, or by a
   deletion once the search is switched off, which also takes it off the list and withdraws its notifier.
   */
  lemma FreedExactly(s: State, step: Step, id: Id)
    requires Inv(s) && Enabled(s, step) && id in s.searches && s.searches[id].alive
    ensures id in Apply(s, step).searches
    ensures !Apply(s, step).searches[id].alive <==>
            step == WakeAndFree(id) || (step == AsyncDelete(id) && s.searches[id].phase == Off)
    ensures step == AsyncDelete(id) && s.searches[id].phase == Off ==>
              id !in Apply(s, step).list && !Apply(s, step).searches[id].notifier
    ensures step == WakeAndFree(id) ==> s.searches[id].blocking && s.searches[id].signalled == 1
  {
    assert SearchInv(s, id);
  }

  /** How often search `id` has sent in the first `n` steps. */
  ghost function Sends(states: seq<State>, steps: seq<Step>, id: Id, n: nat): (k: nat)
    requires n <= |steps| < |states|
  {
    if n == 0 then 0
    else Sends(states, steps, id, n - 1) + (if SendsOnce(states[n - 1], steps[n - 1], id) then 1 else 0)
  }

  /** In every run, what a search has sent is the number of its SENDs executed while it was listed. */
  lemma {:induction false} SentIsCounted(states: seq<State>, steps: seq<Step>, id: Id, n: nat)
    requires Run(states, steps) && n <= |steps|
    ensures id in states[n].searches ==> states[n].searches[id].sent == Sends(states, steps, id, n)
    ensures id !in states[n].searches ==> Sends(states, steps, id, n) == 0
  {
    if n > 0 {
      SentIsCounted(states, steps, id, n - 1);
      SentGrowsAt(states, steps, id, n - 1);
    }
  }

  lemma SentGrowsAt(states: seq<State>, steps: seq<Step>, id: Id, n: nat)
    requires Run(states, steps) && n < |steps|
    ensures var s, t := states[n], states[n + 1];
            var once := if SendsOnce(s, steps[n], id) then 1 else 0;
            && (id in s.searches ==> id in t.searches && t.searches[id].sent == s.searches[id].sent + once)
            && (id !in s.searches ==> once == 0 && (id in t.searches ==> t.searches[id].sent == 0))
  {
    RunKeepsInv(states, steps);
    assert StepAt(states, steps, n);
    SentGrowsExactly(states[n], steps[n], id);
  }

  /** How many of the steps from `i` to `j` execute an action. */
  function Executed(steps: seq<Step>, i: nat, j: nat): (n: nat)
    requires i <= j <= |steps|
    decreases j
  {
    if i == j then 0 else Executed(steps, i, j - 1) + (if steps[j - 1] == RunAction then 1 else 0)
  }

  /** Steps leave the pending actions in order: they append one at most, and executing takes the first. */
  lemma PendingIsAQueue(s: State, step: Step)
    requires Enabled(s, step)
    ensures step == RunAction ==> |Pending(s)| > 0 && Pending(Apply(s, step)) == Pending(s)[1..]
    ensures step != RunAction ==> Pending(s) <= Pending(Apply(s, step))
  {
    var t := Apply(s, step);
    if step.Receive? {
      assert Pending(t) == Pending(s);
    } else if step.RunAction? {
      assert Pending(s) == [s.inHand.value] + s.queue;
    } else {
      assert t.inHand == s.inHand && s.queue <= t.queue;
    }
  }

  /** Neither listed nor waiting to be: so it stays. */
  ghost predicate Left(s: State, id: Id) {
    id in s.searches && id !in s.list && !Waiting(s, id)
  }

  lemma LeftForGood(s: State, step: Step, id: Id)
    requires Enabled(s, step) && Left(s, id)
    ensures Left(Apply(s, step), id)
  {
    OnlyAddsAreListed(s, step, id);
    OnlyCreateAdds(s, step, id);
  }

  lemma OnlyAddsAreListed(s: State, step: Step, id: Id)
    requires Enabled(s, step) && !Waiting(s, id)
    ensures id in s.searches ==> id in Apply(s, step).searches
    ensures id in Apply(s, step).list ==> id in s.list
  {
    if step.RunAction? {
      assert s.inHand.value == Pending(s)[0];
    }
  }

  lemma OnlyCreateAdds(s: State, step: Step, id: Id)
    requires Enabled(s, step) && !Waiting(s, id) && id in s.searches
    ensures !Waiting(Apply(s, step), id)
  {
    var t := Apply(s, step);
    PendingIsAQueue(s, step);
    if step != RunAction {
      AppendedOnce(s, step);
      assert forall k :: 0 <= k < |Pending(s)| ==> Pending(t)[k] == Pending(s)[k];
    }
  }

  lemma AppendedOnce(s: State, step: Step)
    requires Enabled(s, step) && step != RunAction
    ensures var t := Apply(s, step);
            && Pending(s) <= Pending(t) && |Pending(t)| <= |Pending(s)| + 1
            && (|Pending(t)| > |Pending(s)| && Pending(t)[|Pending(s)|].Add? ==>
                 step.Create? && step.id == Pending(t)[|Pending(s)|].id)
  {
    PendingIsAQueue(s, step);
  }

  /** The END at place `k` of the pending actions: not yet executed, or its search is off the list for good. */
  ghost predicate EndOnItsWay(s: State, id: Id, k: int) {
    if k >= 0 then k < |Pending(s)| && Pending(s)[k] == End(id) else Left(s, id)
  }

  lemma EndMovesUp(s: State, step: Step, id: Id, k: int)
    requires Inv(s) && Enabled(s, step) && EndOnItsWay(s, id, k)
    ensures EndOnItsWay(Apply(s, step), id, if step == RunAction then k - 1 else k)
  {
    if k < 0 {
      LeftForGood(s, step, id);
    } else if k == 0 && step == RunAction {
      EndRuns(s, id);
    } else {
      PendingIsAQueue(s, step);
    }
  }

  lemma EndRuns(s: State, id: Id)
    requires Inv(s) && Enabled(s, RunAction) && EndOnItsWay(s, id, 0)
    ensures Left(Apply(s, RunAction), id)
  {
    PendingIsAQueue(s, RunAction);
    assert s.inHand == Some(End(id));
    EndIsNoAdd(s, id);
    EndInHandFinishes(s, id);
  }

  /**
   No END is forgotten: in every run, an END with `k` actions before it has taken its search off the list,
   for good, once the service task has executed `k + 1` actions.
   */
  lemma EndIsDelivered(states: seq<State>, steps: seq<Step>, i: nat, j: nat, id: Id, k: nat)
    requires Run(states, steps) && i <= j <= |steps|
    requires k < |Pending(states[i])| && Pending(states[i])[k] == End(id)
    ensures Executed(steps, i, j) > k ==> id !in states[j].list && !Waiting(states[j], id)
    ensures Executed(steps, i, j) <= k ==> End(id) in Pending(states[j])
  {
    EndAdvances(states, steps, i, j, id, k);
  }

  lemma {:induction false} EndAdvances(states: seq<State>, steps: seq<Step>, i: nat, j: nat, id: Id, k: nat)
    requires Run(states, steps) && i <= j <= |steps| && EndOnItsWay(states[i], id, k)
    ensures EndOnItsWay(states[j], id, k - Executed(steps, i, j))
    decreases j
  {
    if i < j {
      EndAdvances(states, steps, i, j - 1, id, k);
      EndMovesUpAt(states, steps, j - 1, id, k - Executed(steps, i, j - 1));
    }
  }

  lemma EndMovesUpAt(states: seq<State>, steps: seq<Step>, n: nat, id: Id, k: int)
    requires Run(states, steps) && n < |steps| && EndOnItsWay(states[n], id, k)
    ensures EndOnItsWay(states[n + 1], id, if steps[n] == RunAction then k - 1 else k)
  {
    RunKeepsInv(states, steps);
    assert StepAt(states, steps, n);
    EndMovesUp(states[n], steps[n], id, k);
  }

  // ---- No search is listed twice ----

  ghost predicate NoTwice(list: seq<Id>) {
    forall i, j :: 0 <= i < j < |list| ==> list[i] != list[j]
  }

  lemma {:induction false} WithoutKeepsNoTwice(list: seq<Id>, id: Id)
    requires NoTwice(list)
    ensures NoTwice(Without(list, id))
  {
    if |list| > 0 {
      WithoutKeepsNoTwice(list[1..], id);
      assert list[0] !in list[1..];
    }
  }

  lemma {:induction false} NobodyIsListedTwice(states: seq<State>, steps: seq<Step>, n: nat)
    requires Run(states, steps) && n <= |steps|
    ensures NoTwice(states[n].list)
  {
    if n > 0 {
      NobodyIsListedTwice(states, steps, n - 1);
      NoTwiceAt(states, steps, n - 1);
    }
  }

  lemma NoTwiceAt(states: seq<State>, steps: seq<Step>, n: nat)
    requires Run(states, steps) && n < |steps| && NoTwice(states[n].list)
    ensures NoTwice(states[n + 1].list)
  {
    RunKeepsInv(states, steps);
    assert StepAt(states, steps, n);
    StepKeepsNoTwice(states[n], steps[n]);
  }

  lemma StepKeepsNoTwice(s: State, step: Step)
    requires Inv(s) && Enabled(s, step) && NoTwice(s.list)
    ensures NoTwice(Apply(s, step).list)
  {
    if step.RunAction? {
      var a := s.inHand.value;
      WithoutKeepsNoTwice(s.list, a.id);
      assert a in Pending(s) && SearchInv(s, a.id);
    } else if step.MaxResults? || step.AsyncDelete? {
      WithoutKeepsNoTwice(s.list, step.id);
    }
  }
}
