/**
 Checks running in the background, by key: started, finished, given up on, and
 collected once, with every run told apart from the one that takes its place.
 */
module Checks {
  import opened Wrappers

  const CHECK_RESULT_MS := 5 * 60_000
  const CHECK_LIMIT_MS := 45 * 60_000

  datatype Outcome = Finished(json: string) | Failed(why: string) | RanTooLong(limitMs: int)

  /** A check held under a key; `run` tells its run from every other. */
  datatype Entry = Entry(run: nat, startedAt: int, limitMs: int, outcome: Option<Outcome>, finishedAt: Option<int>)

  type Entries = map<string, Entry>

  /** What is known of a check: still running, its outcome, or nothing. */
  datatype Known = Nothing | Running | Ended(outcome: Outcome)

  // ---- what each operation makes of the entries -----------------------------------------------------

  /** Forgotten when its outcome is old; given up on when it has run too long. */
  function PruneOne(entry: Entry, now: int): Option<Entry> {
    if entry.outcome.Some? then
      if now - (if entry.finishedAt.Some? then entry.finishedAt.value else now) > CHECK_RESULT_MS then None
      else Some(entry)
    else if now - entry.startedAt > entry.limitMs then
      Some(entry.(outcome := Some(RanTooLong(entry.limitMs)), finishedAt := Some(now)))
    else Some(entry)
  }

  function Pruned(entries: Entries, now: int): Entries {
    map key | key in entries && PruneOne(entries[key], now).Some? :: PruneOne(entries[key], now).value
  }

  /**
   The entries, how many runs were started and for which key, the outcome each run
   was given, and which outcomes were collected.
   */
  datatype State = State(entries: Entries, runs: nat, keys: map<nat, string>, answered: map<nat, Outcome>,
                         collected: map<nat, Outcome>)

  datatype Step =
    | Start(key: string, limitMs: int, now: int)
    | Complete(key: string, run: nat, outcome: Outcome, now: int)
    | Collect(key: string, now: int)
    | Count(now: int)

  /** The runs that have been given an outcome. */
  function RunsAnswered(entries: Entries): set<nat> {
    set key | key in entries && entries[key].outcome.Some? :: entries[key].run
  }

  ghost function OutcomeOf(entries: Entries, run: nat): Outcome
    requires run in RunsAnswered(entries)
  {
    var key :| key in entries && entries[key].outcome.Some? && entries[key].run == run;
    entries[key].outcome.value
  }

  /** The outcomes given so far, with those the entries now hold. */
  ghost function Noted(answered: map<nat, Outcome>, entries: Entries): map<nat, Outcome> {
    map run | run in answered.Keys + RunsAnswered(entries) ::
      if run in answered then answered[run] else OutcomeOf(entries, run)
  }

  function Started(entries: Entries, key: string, run: nat, limitMs: int, now: int): Entries {
    if key in entries then entries else entries[key := Entry(run, now, limitMs, None, None)]
  }

  function Completed(entries: Entries, key: string, run: nat, outcome: Outcome, now: int): Entries {
    // A late outcome counts only for the run the entry still stands for.
    if key in entries && entries[key].run == run && entries[key].outcome.None?
    then entries[key := entries[key].(outcome := Some(outcome), finishedAt := Some(now))]
    else entries
  }

  function KnownOf(entries: Entries, key: string): Known {
    if key !in entries then Nothing
    else if entries[key].outcome.None? then Running
    else Ended(entries[key].outcome.value)
  }

  function Collected(entries: Entries, key: string): Entries {
    if KnownOf(entries, key).Ended? then entries - {key} else entries
  }

  /** A run ends only for the key it was started for. */
  predicate Enabled(state: State, step: Step) {
    step.Complete? ==> step.run in state.keys && state.keys[step.run] == step.key
  }

  ghost function Do(state: State, step: Step): State {
    match step
    case Start(key, limitMs, now) =>
      if key in state.entries then state
      else state.(entries := Started(state.entries, key, state.runs, limitMs, now), runs := state.runs + 1,
                  keys := state.keys[state.runs := key])
    case Complete(key, run, outcome, now) =>
      var entries := Completed(state.entries, key, run, outcome, now);
      state.(entries := entries, answered := Noted(state.answered, entries))
    case Collect(key, now) =>
      var entries := Pruned(state.entries, now);
      state.(entries := Collected(entries, key), answered := Noted(state.answered, entries),
             collected :=
               if KnownOf(entries, key).Ended? then state.collected[entries[key].run := entries[key].outcome.value]
               else state.collected)
    case Count(now) =>
      var entries := Pruned(state.entries, now);
      state.(entries := entries, answered := Noted(state.answered, entries))
  }

  // ---- what every step keeps ------------------------------------------------------------------------------

  /** An entry's run was started for its key, and its outcome is the one that run was given. */
  ghost predicate EntrySafe(state: State, key: string)
    requires key in state.entries
  {
    var entry := state.entries[key];
    && entry.run in state.keys && state.keys[entry.run] == key && entry.run !in state.collected
    && (if entry.outcome.Some? then entry.run in state.answered && state.answered[entry.run] == entry.outcome.value
        else entry.run !in state.answered)
  }

  ghost predicate Safe(state: State) {
    && (forall run | run in state.keys :: run < state.runs)
    && (forall key | key in state.entries :: EntrySafe(state, key))
    && (forall run | run in state.answered :: run in state.keys)
    && forall run | run in state.collected :: run in state.answered && state.answered[run] == state.collected[run]
  }

  /** Entries whose runs are told apart, and whose outcomes agree with what was answered before. */
  ghost predicate Agrees(state: State, entries: Entries) {
    forall key | key in entries ::
      && entries[key].run in state.keys && state.keys[entries[key].run] == key && entries[key].run !in state.collected
      && (entries[key].run in state.answered ==> entries[key].outcome == Some(state.answered[entries[key].run]))
  }

  lemma NotedIs(state: State, entries: Entries)
    requires Agrees(state, entries)
    ensures forall key | key in entries && entries[key].outcome.Some? ::
              entries[key].run in Noted(state.answered, entries)
              && Noted(state.answered, entries)[entries[key].run] == entries[key].outcome.value
    ensures forall run | run in state.answered ::
              run in Noted(state.answered, entries) && Noted(state.answered, entries)[run] == state.answered[run]
    ensures forall run | run in Noted(state.answered, entries) :: run in state.answered || run in RunsAnswered(entries)
  {
    forall key | key in entries && entries[key].outcome.Some?
      ensures entries[key].run in Noted(state.answered, entries)
              && Noted(state.answered, entries)[entries[key].run] == entries[key].outcome.value
    {
      var run := entries[key].run;
      assert run in RunsAnswered(entries);
      if run !in state.answered {
        var other :| other in entries && entries[other].outcome.Some? && entries[other].run == run
            && OutcomeOf(entries, run) == entries[other].outcome.value;
        assert state.keys[run] == key && state.keys[run] == other;
      }
    }
  }

  /** Updated entries, and what they answer, keep it. */
  lemma UpdateSafe(state: State, entries: Entries)
    requires Safe(state) && Agrees(state, entries)
    ensures Safe(state.(entries := entries, answered := Noted(state.answered, entries)))
  {
    NotedIs(state, entries);
    var after := state.(entries := entries, answered := Noted(state.answered, entries));
    forall key | key in entries ensures EntrySafe(after, key) {
    }
    forall run | run in after.answered ensures run in after.keys {
      if run !in state.answered {
        var key :| key in entries && entries[key].outcome.Some? && entries[key].run == run;
      }
    }
  }

  lemma PrunedAgrees(state: State, now: int)
    requires Safe(state)
    ensures Agrees(state, Pruned(state.entries, now))
  {
    forall key | key in Pruned(state.entries, now)
      ensures Pruned(state.entries, now)[key].run == state.entries[key].run
      ensures state.entries[key].outcome.Some? ==> Pruned(state.entries, now)[key].outcome == state.entries[key].outcome
    {
      assert EntrySafe(state, key);
    }
    forall key | key in state.entries ensures EntrySafe(state, key) { }
  }

  lemma CompletedAgrees(state: State, key: string, run: nat, outcome: Outcome, now: int)
    requires Safe(state)
    ensures Agrees(state, Completed(state.entries, key, run, outcome, now))
  {
    forall other | other in state.entries ensures EntrySafe(state, other) { }
  }

  lemma CollectSafe(state: State, key: string)
    requires Safe(state) && KnownOf(state.entries, key).Ended?
    ensures Safe(state.(entries := state.entries - {key},
                        collected := state.collected[state.entries[key].run := state.entries[key].outcome.value]))
  {
    assert EntrySafe(state, key);
    var after := state.(entries := state.entries - {key},
                        collected := state.collected[state.entries[key].run := state.entries[key].outcome.value]);
    forall other | other in after.entries ensures EntrySafe(after, other) {
      assert EntrySafe(state, other);
    }
  }

  lemma StartSafe(state: State, key: string, limitMs: int, now: int)
    requires Safe(state) && key !in state.entries
    ensures Safe(Do(state, Start(key, limitMs, now)))
  {
    var after := Do(state, Start(key, limitMs, now));
    forall other | other in after.entries ensures EntrySafe(after, other) {
      if other != key { assert EntrySafe(state, other); }
    }
  }

  /** Every start, end, count and collection keeps it. */
  lemma StepKeepsSafe(state: State, step: Step)
    requires Safe(state) && Enabled(state, step)
    ensures Safe(Do(state, step))
  {
    match step
    case Start(key, limitMs, now) => if key !in state.entries { StartSafe(state, key, limitMs, now); }
    case Complete(key, run, outcome, now) =>
      CompletedAgrees(state, key, run, outcome, now);
      UpdateSafe(state, Completed(state.entries, key, run, outcome, now));
    case Collect(key, now) =>
      PrunedAgrees(state, now);
      UpdateSafe(state, Pruned(state.entries, now));
      var pruned :=
        state.(entries := Pruned(state.entries, now), answered := Noted(state.answered, Pruned(state.entries, now)));
      if KnownOf(pruned.entries, key).Ended? { CollectSafe(pruned, key); }
    case Count(now) =>
      PrunedAgrees(state, now);
      UpdateSafe(state, Pruned(state.entries, now));
  }

  // ---- what that comes to -----------------------------------------------------------------------------------

  /** A run's outcome, once given, is the one it keeps; what was collected stays collected. */
  lemma AnsweredOnce(state: State, step: Step, run: nat)
    requires Safe(state) && Enabled(state, step)
    ensures run in state.answered ==>
              run in Do(state, step).answered && Do(state, step).answered[run] == state.answered[run]
    ensures run in state.collected ==>
              run in Do(state, step).collected && Do(state, step).collected[run] == state.collected[run]
  {
    StepKeepsSafe(state, step);
    if step.Collect? {
      PrunedAgrees(state, step.now);
      NotedIs(state, Pruned(state.entries, step.now));
    }
  }

  /** What is collected is the outcome of the run now held for the key, started for it, never collected before. */
  lemma CollectsItsOwn(state: State, key: string, now: int)
    requires Safe(state) && KnownOf(Pruned(state.entries, now), key).Ended?
    ensures key in state.entries
    ensures var run, after := state.entries[key].run, Do(state, Collect(key, now));
            && run in state.keys && state.keys[run] == key
            && run !in state.collected && run in after.collected && key !in after.entries
            && KnownOf(Pruned(state.entries, now), key) == Ended(after.collected[run])
            && run in after.answered && after.answered[run] == after.collected[run]
  {
    assert EntrySafe(state, key);
    StepKeepsSafe(state, Collect(key, now));
  }

  /** A run that ends answers for itself at most: every other run's outcome, and every other entry, is as it was. */
  lemma AnswersForItself(state: State, key: string, run: nat, outcome: Outcome, now: int, other: nat)
    requires Safe(state) && Enabled(state, Complete(key, run, outcome, now)) && other != run
    ensures var after := Do(state, Complete(key, run, outcome, now));
            && (other in after.answered <==> other in state.answered)
            && forall held | held in state.entries && state.entries[held].run == other ::
                 held in after.entries && after.entries[held] == state.entries[held]
  {
    CompletedAgrees(state, key, run, outcome, now);
    var entries := Completed(state.entries, key, run, outcome, now);
    NotedIs(state, entries);
    if other in RunsAnswered(entries) {
      var held :| held in entries && entries[held].outcome.Some? && entries[held].run == other;
      assert EntrySafe(state, held);
    }
  }

  /** A run given up on, replaced, or forgotten changes nothing when it ends. */
  lemma NeverForItsSuccessor(state: State, key: string, run: nat, outcome: Outcome, now: int)
    requires Safe(state) && (key !in state.entries || state.entries[key].run != run || state.entries[key].outcome.Some?)
    ensures Completed(state.entries, key, run, outcome, now) == state.entries
    ensures Do(state, Complete(key, run, outcome, now)) == state
  {
    forall held | held in state.entries ensures EntrySafe(state, held) { }
    CompletedAgrees(state, key, run, outcome, now);
    NotedIs(state, state.entries);
    assert Noted(state.answered, state.entries) == state.answered;
  }

  /**
   An outcome can be collected for five minutes from when it came, and not after; a
   check without one goes on up to its limit, and past it has failed from then on.
   */
  lemma PrunedExactly(entries: Entries, now: int, key: string)
    requires key in entries
    ensures var entry, pruned := entries[key], Pruned(entries, now);
            && (entry.outcome.Some? && entry.finishedAt.Some? ==>
                  (key in pruned <==> now <= entry.finishedAt.value + CHECK_RESULT_MS))
            && (entry.outcome.Some? && key in pruned ==> pruned[key] == entry)
            && (entry.outcome.None? && now <= entry.startedAt + entry.limitMs ==>
                  key in pruned && pruned[key] == entry)
            && (entry.outcome.None? && now > entry.startedAt + entry.limitMs ==>
                  KnownOf(pruned, key) == Ended(RanTooLong(entry.limitMs))
                  && pruned[key].finishedAt == Some(now) && pruned[key].run == entry.run)
  {
  }

  /**
   However many checks start, end, are counted or collected meanwhile, an outcome
   waits to be collected until its time is up.
   */
  lemma {:induction false} OutcomeWaits(run: seq<State>, steps: seq<Step>, key: string, now: int)
    requires |run| == |steps| + 1 && forall i | 0 <= i < |steps| :: run[i + 1] == Do(run[i], steps[i])
    requires key in run[0].entries && run[0].entries[key].outcome.Some? && run[0].entries[key].finishedAt.Some?
    requires forall i | 0 <= i < |steps| ::
               && !(steps[i].Collect? && steps[i].key == key)
               && steps[i].now <= run[0].entries[key].finishedAt.value + CHECK_RESULT_MS
    requires now <= run[0].entries[key].finishedAt.value + CHECK_RESULT_MS
    ensures key in run[|steps|].entries && run[|steps|].entries[key] == run[0].entries[key]
    ensures KnownOf(Pruned(run[|steps|].entries, now), key) == Ended(run[0].entries[key].outcome.value)
    decreases |steps|
  {
    if steps != [] {
      var last := |steps| - 1;
      OutcomeWaits(run[..|steps|], steps[..last], key, now);
      StepKeepsOutcome(run[last], steps[last], key);
    }
    PrunedExactly(run[|steps|].entries, now, key);
  }

  lemma StepKeepsOutcome(state: State, step: Step, key: string)
    requires key in state.entries && state.entries[key].outcome.Some? && state.entries[key].finishedAt.Some?
    requires step.now <= state.entries[key].finishedAt.value + CHECK_RESULT_MS
    requires !(step.Collect? && step.key == key)
    ensures key in Do(state, step).entries && Do(state, step).entries[key] == state.entries[key]
  {
    PrunedExactly(state.entries, step.now, key);
  }

  // ---- the object -----------------------------------------------------------------------------------------------

  class BackgroundChecks {
    var entries: Entries
    var runs: nat
    /** Everything that has happened, as the steps above tell it. */
    ghost var state: State

    /** The entries are those the steps lead to, and every one is its own run's. */
    ghost predicate Valid()
      reads this
    {
      state.entries == entries && state.runs == runs && Safe(state)
    }

    constructor ()
      ensures Valid() && entries == map[] && runs == 0
    {
      entries, runs, state := map[], 0, State(map[], 0, map[], map[], map[]);
    }

    method Prune(now: int)
      modifies this`entries
      ensures entries == Pruned(old(entries), now)
    {
      var left, seen := entries.Keys, {};
      while left != {}
        invariant left !! seen && left + seen == old(entries).Keys
        invariant entries == PrunedAmong(old(entries), now, seen)
        decreases left
      {
        var key :| key in left;
        PrunedMore(old(entries), now, seen, key);
        var entry := entries[key];
        if entry.outcome.Some? {
          var finished := if entry.finishedAt.Some? then entry.finishedAt.value else now;
          if now - finished > CHECK_RESULT_MS { entries := entries - {key}; }
        } else if now - entry.startedAt > entry.limitMs {
          entries := entries[key := entry.(outcome := Some(RanTooLong(entry.limitMs)), finishedAt := Some(now))];
        }
        left, seen := left - {key}, seen + {key};
      }
      assert seen == old(entries).Keys;
      PrunedAll(old(entries), now);
    }

    /** What is known under `key`: a finished run's outcome leaves the map with the answer. */
    method Collect(key: string, now: int) returns (known: Known)
      requires Valid()
      modifies this
      ensures Valid() && state == Do(old(state), Step.Collect(key, now))
      ensures var pruned := Pruned(old(entries), now);
              && (key !in pruned ==> known == Nothing && entries == pruned)
              && (key in pruned && pruned[key].outcome.None? ==> known == Running && entries == pruned)
              && (key in pruned && pruned[key].outcome.Some? ==>
                    known == Ended(pruned[key].outcome.value) && entries == pruned - {key})
    {
      StepKeepsSafe(state, Step.Collect(key, now));
      state := Do(state, Step.Collect(key, now));
      Prune(now);
      if key !in entries { return Nothing; }
      var entry := entries[key];
      if entry.outcome.None? { return Running; }
      entries := entries - {key};
      known := Ended(entry.outcome.value);
    }

    /**
     Start a check, unless it already is: then it goes on as it was. A check that
     is started is running, under a number no run had before.
     */
    method Start(key: string, now: int, limitMs: int := CHECK_LIMIT_MS) returns (run: nat)
      requires Valid()
      modifies this
      ensures Valid() && state == Do(old(state), Step.Start(key, limitMs, now))
      ensures entries.Keys == old(entries).Keys + {key} && entries[key].run == run
      ensures forall other | other in old(entries) :: entries[other] == old(entries)[other]
      ensures key !in old(entries) ==>
                entries[key].outcome.None? && entries[key].startedAt == now && entries[key].limitMs == limitMs
      ensures key !in old(entries) ==>
                run !in old(state).keys && forall other | other in old(entries) :: old(entries)[other].run != run
      ensures key in old(entries) ==> state == old(state)
    {
      StepKeepsSafe(state, Step.Start(key, limitMs, now));
      forall other | other in state.entries ensures EntrySafe(state, other) { }
      state := Do(state, Step.Start(key, limitMs, now));
      if key in entries { return entries[key].run; }
      run := runs;
      entries := entries[key := Entry(run, now, limitMs, None, None)];
      runs := runs + 1;
    }

    /**
     A run ends, for the key it was started for. Where its check is still the one
     held and has no outcome, it gets this one; else nothing changes. No other
     check is touched.
     */
    method Complete(key: string, run: nat, outcome: Outcome, now: int)
      requires Valid() && Enabled(state, Step.Complete(key, run, outcome, now))
      modifies this`entries, this`state
      ensures Valid() && state == Do(old(state), Step.Complete(key, run, outcome, now))
      ensures entries.Keys == old(entries).Keys
      ensures forall other | other in entries && other != key :: entries[other] == old(entries)[other]
      ensures key in entries ==>
                entries[key].run == old(entries)[key].run && entries[key].startedAt == old(entries)[key].startedAt
      ensures var awaited := key in old(entries) && old(entries)[key].run == run && old(entries)[key].outcome.None?;
              && (awaited ==> entries[key].outcome == Some(outcome) && entries[key].finishedAt == Some(now))
              && (!awaited ==> entries == old(entries) && state == old(state))
    {
      if !(key in entries && entries[key].run == run && entries[key].outcome.None?) {
        NeverForItsSuccessor(state, key, run, outcome, now);
        return;
      }
      StepKeepsSafe(state, Step.Complete(key, run, outcome, now));
      state := Do(state, Step.Complete(key, run, outcome, now));
      entries := entries[key := entries[key].(outcome := Some(outcome), finishedAt := Some(now))];
    }

    /** The entries that have no outcome yet. */
    method CountRunning(now: int) returns (running: nat)
      requires Valid()
      modifies this
      ensures Valid() && state == Do(old(state), Step.Count(now))
      ensures entries == Pruned(old(entries), now)
      ensures running == |set key | key in entries && entries[key].outcome.None?|
    {
      StepKeepsSafe(state, Step.Count(now));
      state := Do(state, Step.Count(now));
      Prune(now);
      running := |set key | key in entries && entries[key].outcome.None?|;
    }
  }

  /** The entries with those of `seen` pruned. */
  function PrunedAmong(entries: Entries, now: int, seen: set<string>): Entries {
    map key | key in entries && (key in seen ==> PruneOne(entries[key], now).Some?) ::
      if key in seen then PruneOne(entries[key], now).value else entries[key]
  }

  lemma PrunedMore(entries: Entries, now: int, seen: set<string>, key: string)
    requires key in entries && key !in seen
    ensures var among := PrunedAmong(entries, now, seen);
            && key in among && among[key] == entries[key]
            && PrunedAmong(entries, now, seen + {key})
               == match PruneOne(entries[key], now)
                  case None => among - {key}
                  case Some(entry) => among[key := entry]
  {
  }

  lemma PrunedAll(entries: Entries, now: int)
    ensures PrunedAmong(entries, now, entries.Keys) == Pruned(entries, now)
  {
  }
}
