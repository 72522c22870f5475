/** The callers of the delegator memo and the order in which they learn of a failure
  (scripts/archetype-conformance.ts).

  The deletion handler is attached to a bootstrap's promise when the promise is made, so it is the
  first to be queued when the promise is rejected. Callers attach theirs later: to a pending
  promise, where they wait, or to a settled one, where they are queued at once. */
module DelegatorCallers {
  import opened DelegatorCache

  /** A queued handler: the deletion, or one that tells a caller how the attempt ended. */
  datatype Job = Delete(id: nat) | Tell(id: nat)

  /** `waiting` holds an attempt once for each caller waiting on it; `queue` runs first in, first out. */
  datatype Loop = Loop(memo: Memo, waiting: multiset<nat>, queue: seq<Job>)

  const IDLE := Loop(EMPTY, multiset{}, [])

  datatype Action = Call(key: string) | Await(id: nat) | Settle(id: nat, succeeded: bool) | RunNext

  predicate IsPossible(s: Loop, a: Action) {
    match a
    case Call(_) => true
    case Await(id) => id < |s.memo.attempts|
    case Settle(id, _) => id < |s.memo.attempts| && s.memo.attempts[id].status == Pending
    case RunNext => s.queue != [] && (s.queue[0].Delete? ==> IsEnabled(s.memo, RunHandler(s.queue[0].id)))
  }

  function Tells(id: nat, n: nat): (jobs: seq<Job>)
    ensures |jobs| == n && forall i :: 0 <= i < n ==> jobs[i] == Tell(id)
  {
    seq(n, _ => Tell(id))
  }

  function SettleEvent(id: nat, succeeded: bool): Event {
    if succeeded then Resolve(id) else Reject(id)
  }

  /** The handlers a settlement queues. */
  function Reactions(id: nat, succeeded: bool, waiting: nat): seq<Job> {
    (if succeeded then [] else [Delete(id)]) + Tells(id, waiting)
  }

  function Act(s: Loop, a: Action): Loop
    requires IsPossible(s, a)
  {
    match a
    case Call(key) => s.(memo := Step(s.memo, Ask(key)))
    case Await(id) =>
      if s.memo.attempts[id].status == Pending then s.(waiting := s.waiting[id := s.waiting[id] + 1])
      else s.(queue := s.queue + [Tell(id)])
    case Settle(id, ok) =>
      Loop(Step(s.memo, SettleEvent(id, ok)), s.waiting[id := 0], s.queue + Reactions(id, ok, s.waiting[id]))
    case RunNext =>
      var rest := s.(queue := s.queue[1..]);
      if s.queue[0].Delete? then rest.(memo := Step(s.memo, RunHandler(s.queue[0].id))) else rest
  }

  // ----- What every action keeps -----

  /** Of the attempts of one key all but the last are cleared. */
  ghost predicate IsSerial(m: Memo) {
    forall i, j :: 0 <= i < j < |m.attempts| && m.attempts[i].key == m.attempts[j].key ==>
      m.attempts[i].status == Cleared
  }

  /** The job is in step with the attempt it is about, `before` being the jobs ahead of it. */
  ghost predicate IsInStep(m: Memo, before: seq<Job>, job: Job) {
    && job.id < |m.attempts|
    && match m.attempts[job.id].status
       case Pending => false
       case Rejected => job.Delete? != (Delete(job.id) in before)
       case _ => job.Tell?
  }

  ghost predicate IsInStepAt(s: Loop, i: nat)
    requires i < |s.queue|
  {
    IsInStep(s.memo, s.queue[..i], s.queue[i])
  }

  /** A failed attempt has one deletion queued, and all who are to be told of it come after. */
  ghost predicate IsOrderly(s: Loop) {
    && IsValid(s.memo) && IsSerial(s.memo)
    && (forall i :: 0 <= i < |s.queue| ==> IsInStepAt(s, i))
    && (forall id :: 0 <= id < |s.memo.attempts| && s.memo.attempts[id].status == Rejected ==> Delete(id) in s.queue)
  }

  lemma StepKeepsSerial(m: Memo, e: Event)
    requires IsValid(m) && IsSerial(m) && IsEnabled(m, e)
    ensures IsSerial(Step(m, e))
  {
  }

  /** A step that neither settles nor clears the attempt of `job` leaves the job in step. */
  lemma OthersStayInStep(m: Memo, m': Memo, before: seq<Job>, job: Job)
    requires IsInStep(m, before, job)
    requires |m.attempts| <= |m'.attempts| && m'.attempts[job.id].status == m.attempts[job.id].status
    ensures IsInStep(m', before, job)
  {
  }

  /** Jobs put behind a queue do not disturb it. */
  lemma QueueStaysInStep(s: Loop, memo: Memo, more: seq<Job>, i: nat)
    requires i < |s.queue| && IsInStepAt(s, i)
    requires |s.memo.attempts| <= |memo.attempts|
    requires memo.attempts[s.queue[i].id].status == s.memo.attempts[s.queue[i].id].status
    ensures IsInStep(memo, (s.queue + more)[..i], (s.queue + more)[i])
  {
    assert (s.queue + more)[..i] == s.queue[..i];
    OthersStayInStep(s.memo, memo, s.queue[..i], s.queue[i]);
  }

  lemma CallKeepsOrder(s: Loop, key: string)
    requires IsOrderly(s)
    ensures IsOrderly(Act(s, Call(key)))
  {
    hide IsInStep, IsValid, IsSerial;
    var s' := Act(s, Call(key));
    StepKeepsValid(s.memo, Ask(key));
    StepKeepsSerial(s.memo, Ask(key));
    forall i | 0 <= i < |s.queue|
      ensures IsInStepAt(s', i)
    {
      assert IsInStepAt(s, i);
      JobIsKnown(s, i);
      OthersStayInStep(s.memo, s'.memo, s.queue[..i], s.queue[i]);
    }
  }

  lemma JobIsKnown(s: Loop, i: nat)
    requires i < |s.queue| && IsInStepAt(s, i)
    ensures s.queue[i].id < |s.memo.attempts| && s.memo.attempts[s.queue[i].id].status != Pending
  {
  }

  lemma AwaitKeepsOrder(s: Loop, id: nat)
    requires IsOrderly(s) && IsPossible(s, Await(id))
    ensures IsOrderly(Act(s, Await(id)))
  {
    var s' := Act(s, Await(id));
    if s.memo.attempts[id].status != Pending {
      forall i | 0 <= i < |s'.queue|
        ensures IsInStepAt(s', i)
      {
        if i < |s.queue| {
          assert IsInStepAt(s, i);
          QueueStaysInStep(s, s.memo, [Tell(id)], i);
        } else {
          assert s'.queue[..i] == s.queue;
        }
      }
    } else {
      forall i | 0 <= i < |s'.queue|
        ensures IsInStepAt(s', i)
      {
        assert IsInStepAt(s, i);
      }
    }
  }

  lemma SettleKeepsOrder(s: Loop, id: nat, ok: bool)
    requires IsOrderly(s) && IsPossible(s, Settle(id, ok))
    ensures IsOrderly(Act(s, Settle(id, ok)))
  {
    hide IsValid, IsSerial;
    var s' := Act(s, Settle(id, ok));
    StepKeepsValid(s.memo, SettleEvent(id, ok));
    StepKeepsSerial(s.memo, SettleEvent(id, ok));
    var more := Reactions(id, ok, s.waiting[id]);
    forall i | 0 <= i < |s'.queue|
      ensures IsInStepAt(s', i)
    {
      if i < |s.queue| {
        assert IsInStepAt(s, i);
        QueueStaysInStep(s, s'.memo, more, i);
      } else {
        ReactionIsInStep(s, id, ok, i - |s.queue|);
      }
    }
    if !ok {
      assert s'.queue[|s.queue|] == Delete(id);
    }
  }

  lemma NothingIsQueuedYet(s: Loop, id: nat)
    requires IsOrderly(s) && id < |s.memo.attempts| && s.memo.attempts[id].status == Pending
    ensures Delete(id) !in s.queue
  {
    forall i | 0 <= i < |s.queue|
      ensures s.queue[i] != Delete(id)
    {
      assert IsInStepAt(s, i);
    }
  }

  lemma ReactionIsInStep(s: Loop, id: nat, ok: bool, k: nat)
    requires IsOrderly(s) && IsPossible(s, Settle(id, ok)) && k < |Reactions(id, ok, s.waiting[id])|
    ensures var s' := Act(s, Settle(id, ok));
      IsInStepAt(s', |s.queue| + k)
  {
    var s', more := Act(s, Settle(id, ok)), Reactions(id, ok, s.waiting[id]);
    assert s'.queue[..|s.queue| + k] == s.queue + more[..k];
    NothingIsQueuedYet(s, id);
    if !ok && k > 0 {
      assert more[..k][0] == Delete(id);
    }
  }

  lemma HeadIsSpent(m: Memo, m': Memo, head: Job, before: seq<Job>, job: Job)
    requires IsInStep(m, [head] + before, job) && IsInStep(m, [], head)
    requires if head.Delete? then IsEnabled(m, RunHandler(head.id)) && m' == Step(m, RunHandler(head.id)) else m' == m
    ensures IsInStep(m', before, job)
  {
  }

  lemma RunKeepsOrder(s: Loop)
    requires IsOrderly(s) && IsPossible(s, RunNext)
    ensures IsOrderly(Act(s, RunNext))
  {
    hide IsValid, IsSerial;
    var s', head := Act(s, RunNext), s.queue[0];
    assert IsInStepAt(s, 0) && s.queue[..0] == [];
    if head.Delete? {
      StepKeepsValid(s.memo, RunHandler(head.id));
      StepKeepsSerial(s.memo, RunHandler(head.id));
    }
    forall i | 0 <= i < |s'.queue|
      ensures IsInStepAt(s', i)
    {
      assert IsInStepAt(s, i + 1);
      assert s.queue[..i + 1] == [head] + s'.queue[..i];
      HeadIsSpent(s.memo, s'.memo, head, s'.queue[..i], s'.queue[i]);
    }
    assert s.queue == [head] + s'.queue;
  }

  /** Every action keeps the queue in step with the attempts. */
  lemma ActKeepsOrder(s: Loop, a: Action)
    requires IsOrderly(s) && IsPossible(s, a)
    ensures IsOrderly(Act(s, a))
  {
    match a
    case Call(key) => CallKeepsOrder(s, key);
    case Await(id) => AwaitKeepsOrder(s, id);
    case Settle(id, ok) => SettleKeepsOrder(s, id, ok);
    case RunNext => RunKeepsOrder(s);
  }

  // ----- Runs -----

  datatype History = History(states: seq<Loop>, actions: seq<Action>)

  ghost predicate ActsAt(h: History, i: nat)
    requires i < |h.actions| && |h.states| == |h.actions| + 1
  {
    IsPossible(h.states[i], h.actions[i]) && h.states[i + 1] == Act(h.states[i], h.actions[i])
  }

  /** Any interleaving of callers, settlements and queued handlers, from the idle state. */
  ghost predicate IsHistory(h: History) {
    && |h.states| == |h.actions| + 1 && h.states[0] == IDLE
    && forall i :: 0 <= i < |h.actions| ==> ActsAt(h, i)
  }

  lemma {:induction false} StaysOrderly(h: History, n: nat)
    requires IsHistory(h) && n < |h.states|
    ensures IsOrderly(h.states[n])
  {
    if n > 0 {
      StaysOrderly(h, n - 1);
      assert ActsAt(h, n - 1);
      ActKeepsOrder(h.states[n - 1], h.actions[n - 1]);
    }
  }

  /** A queued handler can always run: a deletion never meets an attempt that has not failed. */
  lemma QueueNeverBlocks(h: History, n: nat)
    requires IsHistory(h) && n < |h.states| && h.states[n].queue != []
    ensures IsPossible(h.states[n], RunNext)
  {
    StaysOrderly(h, n);
    assert IsInStepAt(h.states[n], 0);
  }

  /** Every history is, for the memo, a run of its own steps. */
  lemma {:induction false} HistoryIsARun(h: History, n: nat) returns (run: Run)
    requires IsHistory(h) && n < |h.states|
    ensures IsRun(run) && run.states[|run.events|] == h.states[n].memo
  {
    if n == 0 {
      run := Run([EMPTY], []);
    } else {
      run := HistoryIsARun(h, n - 1);
      assert ActsAt(h, n - 1);
      var s, a := h.states[n - 1], h.actions[n - 1];
      if a.Call? {
        run := RunExtends(run, Ask(a.key));
      } else if a.Settle? {
        run := RunExtends(run, SettleEvent(a.id, a.succeeded));
      } else if a.RunNext? && s.queue[0].Delete? {
        run := RunExtends(run, RunHandler(s.queue[0].id));
      }
    }
  }

  lemma RunExtends(run: Run, e: Event) returns (longer: Run)
    requires IsRun(run) && IsEnabled(run.states[|run.events|], e)
    ensures IsRun(longer) && longer.states[|longer.events|] == Step(run.states[|run.events|], e)
  {
    longer := Run(run.states + [Step(run.states[|run.events|], e)], run.events + [e]);
    forall i | 0 <= i < |longer.events|
      ensures StepsAt(longer, i)
    {
      if i < |run.events| {
        assert StepsAt(run, i);
      }
    }
  }

  // ----- What a caller sees -----

  /** The next handler to run tells a caller how attempt `id` ended. */
  predicate IsTold(s: Loop, id: nat) {
    s.queue != [] && s.queue[0] == Tell(id)
  }

  /** Whoever is told of a failure is told after its deletion. */
  lemma ToldAfterTheDeletion(h: History, n: nat, id: nat)
    requires IsHistory(h) && n < |h.states| && IsTold(h.states[n], id)
    ensures id < |h.states[n].memo.attempts|
    ensures h.states[n].memo.attempts[id].status in {Resolved, Cleared}
  {
    StaysOrderly(h, n);
    assert IsInStepAt(h.states[n], 0);
  }

  lemma {:induction false} ClearedStays(h: History, i: nat, j: nat, id: nat)
    requires IsHistory(h) && i <= j < |h.states| && id < |h.states[i].memo.attempts|
    requires h.states[i].memo.attempts[id].status == Cleared
    ensures id < |h.states[j].memo.attempts| && h.states[j].memo.attempts[id] == h.states[i].memo.attempts[id]
    decreases j
  {
    if i < j {
      ClearedStays(h, i, j - 1, id);
      assert ActsAt(h, j - 1);
    }
  }

  /** A caller who has been told of a failure and asks again, at once or at any later time, is handed
      an attempt started after the one that failed. */
  lemma ToldCallerRetries(h: History, i: nat, j: nat, id: nat)
    requires IsHistory(h) && i <= j < |h.states| && IsTold(h.states[i], id)
    requires id < |h.states[i].memo.attempts| && h.states[i].memo.attempts[id].status != Resolved
    ensures Answer(h.states[j].memo, h.states[i].memo.attempts[id].key) > id
  {
    ToldAfterTheDeletion(h, i, id);
    ClearedStays(h, i, j, id);
    StaysOrderly(h, j);
    var m, key := h.states[j].memo, h.states[i].memo.attempts[id].key;
    if key in m.delegators {
      assert m.attempts[m.delegators[key]].key == key && m.attempts[m.delegators[key]].status != Cleared;
    }
  }
}
