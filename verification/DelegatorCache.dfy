/** The memo of bootstrapped delegators (scripts/archetype-conformance.ts): one shared map from key
  to pending promise, filled by callers and emptied by the rejection handler of a failed bootstrap.

  An attempt is one bootstrap. Its promise settles at any time; a rejection queues the deletion
  handler, which runs at any later time. */
module DelegatorCache {

  /** `Rejected`: the deletion handler is queued. `Cleared`: it has run. */
  datatype Status = Pending | Resolved | Rejected | Cleared

  datatype Attempt = Attempt(key: string, status: Status)

  datatype Memo = Memo(delegators: map<string, nat>, attempts: seq<Attempt>)

  const EMPTY := Memo(map[], [])

  datatype Event = Ask(key: string) | Resolve(id: nat) | Reject(id: nat) | RunHandler(id: nat)

  // ----- Keys -----

  const SEPARATOR: char := '\0'

  function Key(relayUrl: string, seedHex: string): string {
    relayUrl + [SEPARATOR] + seedHex
  }

  /** Different relays or seeds never share an entry, since a URL holds no NUL. */
  lemma KeyIsInjective(url: string, seed: string, url': string, seed': string)
    requires SEPARATOR !in url && SEPARATOR !in url'
    requires Key(url, seed) == Key(url', seed')
    ensures url == url' && seed == seed'
  {
    var k := Key(url, seed);
    assert k[|url|] == SEPARATOR && k[|url'|] == SEPARATOR;
    assert forall i :: 0 <= i < |url| ==> k[i] == url[i];
    assert forall i :: 0 <= i < |url'| ==> k[i] == url'[i];
    assert url == k[..|url|] && url' == k[..|url'|];
    assert seed == k[|url| + 1..] && seed' == k[|url'| + 1..];
  }

  // ----- Steps -----

  predicate IsEnabled(m: Memo, e: Event) {
    match e
    case Ask(_) => true
    case Resolve(id) => id < |m.attempts| && m.attempts[id].status == Pending
    case Reject(id) => id < |m.attempts| && m.attempts[id].status == Pending
    case RunHandler(id) => id < |m.attempts| && m.attempts[id].status == Rejected
  }

  function Mark(m: Memo, id: nat, status: Status): Memo
    requires id < |m.attempts|
  {
    m.(attempts := m.attempts[id := m.attempts[id].(status := status)])
  }

  /** The attempt a caller of `key` is handed. */
  function Answer(m: Memo, key: string): nat {
    if key in m.delegators then m.delegators[key] else |m.attempts|
  }

  function Step(m: Memo, e: Event): Memo
    requires IsEnabled(m, e)
  {
    match e
    case Ask(key) =>
      if key in m.delegators then m
      else Memo(m.delegators[key := |m.attempts|], m.attempts + [Attempt(key, Pending)])
    case Resolve(id) => Mark(m, id, Resolved)
    case Reject(id) => Mark(m, id, Rejected)
    case RunHandler(id) =>
      var cleared := Mark(m, id, Cleared);
      cleared.(delegators := m.delegators - {m.attempts[id].key})
  }

  /** The map holds exactly the attempts whose handler has not cleared them, each under its own key. */
  ghost predicate IsValid(m: Memo) {
    && (forall k :: k in m.delegators ==>
          && m.delegators[k] < |m.attempts|
          && m.attempts[m.delegators[k]].key == k
          && m.attempts[m.delegators[k]].status != Cleared)
    && (forall id :: 0 <= id < |m.attempts| && m.attempts[id].status != Cleared ==>
          m.attempts[id].key in m.delegators && m.delegators[m.attempts[id].key] == id)
  }

  /** The shared map as the script mutates it; `Contents` is the value the laws speak of. */
  class Delegators {
    var entries: map<string, nat>
    var attempts: seq<Attempt>

    constructor ()
      ensures Contents() == EMPTY && IsValid(Contents())
    {
      entries, attempts := map[], [];
    }

    function Contents(): Memo
      reads this
    {
      Memo(entries, attempts)
    }

    method BootstrappedDelegator(relayUrl: string, seedHex: string) returns (pending: nat)
      requires IsValid(Contents())
      modifies this
      ensures Contents() == Step(old(Contents()), Ask(Key(relayUrl, seedHex)))
      ensures IsValid(Contents()) && pending < |attempts|
      ensures attempts[pending].key == Key(relayUrl, seedHex) && attempts[pending].status != Cleared
    {
      var key := Key(relayUrl, seedHex);
      if key in entries {
        pending := entries[key];
      } else {
        pending := |attempts|;
        attempts := attempts + [Attempt(key, Pending)];
        entries := entries[key := pending];
      }
      StepKeepsValid(old(Contents()), Ask(key));
    }

    method Settle(id: nat, succeeded: bool)
      requires IsValid(Contents()) && id < |attempts| && attempts[id].status == Pending
      modifies this
      ensures Contents() == Step(old(Contents()), if succeeded then Resolve(id) else Reject(id))
      ensures IsValid(Contents())
    {
      attempts := attempts[id := attempts[id].(status := if succeeded then Resolved else Rejected)];
      StepKeepsValid(old(Contents()), if succeeded then Resolve(id) else Reject(id));
    }

    /** `pending.catch(() => delegators.delete(key))`: the deletion is by key. */
    method OnRejected(id: nat)
      requires IsValid(Contents()) && id < |attempts| && attempts[id].status == Rejected
      modifies this
      ensures Contents() == Step(old(Contents()), RunHandler(id))
      ensures IsValid(Contents())
    {
      StepKeepsValid(Contents(), RunHandler(id));
      var key := attempts[id].key;
      entries := entries - {key};
      attempts := attempts[id := attempts[id].(status := Cleared)];
    }
  }

  // ----- What every step keeps -----

  lemma StepKeepsValid(m: Memo, e: Event)
    requires IsValid(m) && IsEnabled(m, e)
    ensures IsValid(Step(m, e))
  {
    if e.RunHandler? {
      var key := m.attempts[e.id].key;
      forall id | 0 <= id < |m.attempts| && m.attempts[id].key == key && m.attempts[id].status != Cleared
        ensures id == e.id
      {
        assert m.delegators[key] == id && m.delegators[key] == e.id;
      }
    }
  }

  /** The deletion of a failed attempt removes that attempt and nothing else: whatever entries
      there are, it never evicts another attempt. */
  lemma DeletionEvictsOnlyItsOwn(m: Memo, id: nat)
    requires IsValid(m) && IsEnabled(m, RunHandler(id))
    ensures var m' := Step(m, RunHandler(id));
      forall k :: k in m.delegators && m.delegators[k] != id ==>
        k in m'.delegators && m'.delegators[k] == m.delegators[k]
    ensures forall k :: k in m.delegators && m.delegators[k] == id ==> k !in Step(m, RunHandler(id)).delegators
    ensures id in m.delegators.Values
  {
  }

  // ----- Runs -----

  /** Any interleaving of callers, settlements and handlers, from the empty map. */
  datatype Run = Run(states: seq<Memo>, events: seq<Event>)

  ghost predicate StepsAt(run: Run, i: nat)
    requires i < |run.events| && |run.states| == |run.events| + 1
  {
    IsEnabled(run.states[i], run.events[i]) && run.states[i + 1] == Step(run.states[i], run.events[i])
  }

  ghost predicate IsRun(run: Run) {
    && |run.states| == |run.events| + 1 && run.states[0] == EMPTY
    && forall i :: 0 <= i < |run.events| ==> StepsAt(run, i)
  }

  lemma {:induction false} RunStaysValid(run: Run, n: nat)
    requires IsRun(run) && n < |run.states|
    ensures IsValid(run.states[n])
  {
    if n > 0 {
      RunStaysValid(run, n - 1);
      assert StepsAt(run, n - 1);
      StepKeepsValid(run.states[n - 1], run.events[n - 1]);
    }
  }

  /** At most one attempt per key is pending, succeeded or waiting for its deletion, and it is the
      one every caller of that key is handed. */
  lemma OneLiveAttemptPerKey(run: Run, n: nat, id: nat, id': nat)
    requires IsRun(run) && n < |run.states|
    requires id < |run.states[n].attempts| && id' < |run.states[n].attempts|
    requires run.states[n].attempts[id].key == run.states[n].attempts[id'].key
    requires run.states[n].attempts[id].status != Cleared && run.states[n].attempts[id'].status != Cleared
    ensures id == id' == Answer(run.states[n], run.states[n].attempts[id].key)
  {
    RunStaysValid(run, n);
    var m := run.states[n];
    assert m.delegators[m.attempts[id].key] == id;
  }

  /** Attempts are never forgotten, keep their key, and a settled outcome is final: a failed
      attempt waits for its deletion handler until that has run. */
  lemma {:induction false} OutcomesAreFinal(run: Run, i: nat, j: nat, id: nat)
    requires IsRun(run) && i <= j < |run.states| && id < |run.states[i].attempts|
    ensures id < |run.states[j].attempts|
    ensures run.states[j].attempts[id].key == run.states[i].attempts[id].key
    ensures run.states[i].attempts[id].status in {Resolved, Cleared} ==>
      run.states[j].attempts[id] == run.states[i].attempts[id]
    ensures run.states[i].attempts[id].status == Rejected ==>
      run.states[j].attempts[id].status in {Rejected, Cleared}
    decreases j
  {
    if i < j {
      OutcomesAreFinal(run, i, j - 1, id);
      assert StepsAt(run, j - 1);
    }
  }

  /** A successful bootstrap serves every later caller of its key, for good. */
  lemma SuccessIsSharedForever(run: Run, i: nat, j: nat, id: nat)
    requires IsRun(run) && i <= j < |run.states| && id < |run.states[i].attempts|
    requires run.states[i].attempts[id].status == Resolved
    ensures Answer(run.states[j], run.states[i].attempts[id].key) == id
  {
    OutcomesAreFinal(run, i, j, id);
    OneLiveAttemptPerKey(run, j, id, id);
  }

  /** Once its deletion handler has run, a failed attempt is never handed out again. */
  lemma FailureIsRetried(run: Run, i: nat, j: nat, id: nat)
    requires IsRun(run) && i <= j < |run.states| && id < |run.states[i].attempts|
    requires run.states[i].attempts[id].status == Cleared
    ensures Answer(run.states[j], run.states[i].attempts[id].key) != id
  {
    OutcomesAreFinal(run, i, j, id);
    RunStaysValid(run, j);
  }

  /** Once no handler is queued, no failed attempt is in the map. */
  lemma DrainedMapHoldsNoFailure(run: Run, n: nat, key: string)
    requires IsRun(run) && n < |run.states| && key in run.states[n].delegators
    requires forall id :: 0 <= id < |run.states[n].attempts| ==> run.states[n].attempts[id].status != Rejected
    ensures run.states[n].delegators[key] < |run.states[n].attempts|
    ensures run.states[n].attempts[run.states[n].delegators[key]].status in {Pending, Resolved}
  {
    RunStaysValid(run, n);
  }

  // ----- Conservation -----

  function Started(attempts: seq<Attempt>, key: string): nat {
    if attempts == [] then 0 else
    Started(attempts[1..], key) + if attempts[0].key == key then 1 else 0
  }

  function Failed(attempts: seq<Attempt>, key: string): nat {
    if attempts == [] then 0 else
    Failed(attempts[1..], key) + if attempts[0] == Attempt(key, Cleared) then 1 else 0
  }

  lemma {:induction false} CountsOfAppend(attempts: seq<Attempt>, a: Attempt, key: string)
    ensures Started(attempts + [a], key) == Started(attempts, key) + if a.key == key then 1 else 0
    ensures Failed(attempts + [a], key) == Failed(attempts, key) + if a == Attempt(key, Cleared) then 1 else 0
  {
    if attempts == [] {
      assert [a][1..] == [];
    } else {
      assert (attempts + [a])[1..] == attempts[1..] + [a];
      CountsOfAppend(attempts[1..], a, key);
    }
  }

  lemma {:induction false} CountsOfMark(attempts: seq<Attempt>, id: nat, status: Status, key: string)
    requires id < |attempts| && attempts[id].status != Cleared
    ensures var marked := attempts[id := attempts[id].(status := status)];
      && Started(marked, key) == Started(attempts, key)
      && Failed(marked, key) == Failed(attempts, key) + if attempts[id].key == key && status == Cleared then 1 else 0
  {
    var marked := attempts[id := attempts[id].(status := status)];
    if id == 0 {
      assert marked[1..] == attempts[1..];
    } else {
      assert marked[1..] == attempts[1..][id - 1 := attempts[id].(status := status)];
      CountsOfMark(attempts[1..], id - 1, status, key);
    }
  }

  /** Over every run: bootstraps started for a key are its cleared failures, plus one if the key
      has an entry. */
  lemma {:induction false} BootstrapsAreConserved(run: Run, n: nat, key: string)
    requires IsRun(run) && n < |run.states|
    ensures var m := run.states[n];
      Started(m.attempts, key) == Failed(m.attempts, key) + if key in m.delegators then 1 else 0
  {
    if n > 0 {
      BootstrapsAreConserved(run, n - 1, key);
      RunStaysValid(run, n - 1);
      assert StepsAt(run, n - 1);
      var m := run.states[n - 1];
      match run.events[n - 1]
      case Ask(k) =>
        CountsOfAppend(m.attempts, Attempt(k, Pending), key);
      case Resolve(id) =>
        CountsOfMark(m.attempts, id, Resolved, key);
      case Reject(id) =>
        CountsOfMark(m.attempts, id, Rejected, key);
      case RunHandler(id) =>
        CountsOfMark(m.attempts, id, Cleared, key);
    }
  }
}
