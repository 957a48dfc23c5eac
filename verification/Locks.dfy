/** The lock of one instance. */
module Locks {
  // One instance's lock: an advisory lock on a file that clean-up may unlink while
  // others wait on it. Every process is one step of its own away from its next.

  import opened Wrappers

  type File = nat
  type Token = nat

  datatype Process =
    | Idle
    | Opened(file: File)
    | Busy(file: File)
    | Waiting(file: File)
    | Locked(file: File)
    | Checked(file: File)
    | Cleared(file: File)
    | Holding(file: File, token: Token)
    | Released(file: File)
    | Refused
    | PruneOpened(file: File)
    | PruneLocked(file: File)
    | PruneRemoved(file: File)
  {
    /** The file whose lock it has. */
    function HasLock(): Option<File> {
      match this
      case Locked(file) => Some(file)
      case Checked(file) => Some(file)
      case Cleared(file) => Some(file)
      case Holding(file, _) => Some(file)
      case Released(file) => Some(file)
      case PruneLocked(file) => Some(file)
      case PruneRemoved(file) => Some(file)
      case _ => None
    }

    /** It holds the instance's lock: from the moment its file was found to be the one at the path. */
    predicate Holds() { Checked? || Cleared? || Holding? || Released? }

    /** It has opened a file to prune, and not yet removed it. */
    predicate Pruning() { PruneOpened? || PruneLocked? }
  }

  /**
   The file at the path, who has each file's lock, the token each file holds, the
   processes, how many files and tokens there have been, the token each process
   inherited, and the tokens of those that died holding the lock.
   */
  datatype State = State(path: Option<File>, owner: map<File, nat>, text: map<File, Token>,
                         processes: map<nat, Process>,
                         files: nat, tokens: nat, inherited: map<nat, Token>, dead: set<Token>)
  {
    function At(id: nat): Process { if id in processes then processes[id] else Idle }

    function Set(id: nat, process: Process): State { this.(processes := processes[id := process]) }

    /** Closing the file gives the lock up. */
    function Unlocked(id: nat): State {
      this.(owner := map file | file in owner && owner[file] != id :: owner[file])
    }
  }

  datatype Step =
    | Open(id: nat)
    | TryLock(id: nat)
    | LookForAncestor(id: nat)
    | WaitForLock(id: nat)
    | Check(id: nat)
    | Clear(id: nat)
    | WriteToken(id: nat)
    | ClearToken(id: nat)
    | Close(id: nat)
    | Crash(id: nat)
    | PruneOpen(id: nat)
    | PruneTryLock(id: nat)
    | PruneRemove(id: nat)
    | PruneClose(id: nat)

  predicate Enabled(state: State, step: Step) {
    var process := state.At(step.id);
    match step
    case Open(_) => process.Idle?
    case TryLock(_) => process.Opened?
    case LookForAncestor(_) => process.Busy?
    case WaitForLock(_) => process.Waiting? && process.file !in state.owner
    case Check(_) => process.Locked?
    case Clear(_) => process.Checked?
    case WriteToken(_) => process.Cleared?
    case ClearToken(_) => process.Holding?
    case Close(_) => process.Released?
    case Crash(_) => true
    case PruneOpen(_) => process.Idle? && state.path.Some?
    case PruneTryLock(_) => process.PruneOpened?
    case PruneRemove(_) => process.PruneLocked?
    case PruneClose(_) => process.PruneRemoved?
  }

  function Do(state: State, step: Step): State
    requires Enabled(state, step)
  {
    var id := step.id;
    var process := state.At(id);
    match step
    case Open(_) =>
      if state.path.Some? then state.Set(id, Opened(state.path.value))
      else state.(path := Some(state.files), files := state.files + 1).Set(id, Opened(state.files))
    case TryLock(_) =>
      if process.file in state.owner then state.Set(id, Busy(process.file))
      else state.(owner := state.owner[process.file := id]).Set(id, Locked(process.file))
    case LookForAncestor(_) =>
      // An ancestor wrote this text: waiting would be for itself.
      if id in state.inherited && state.path.Some? && state.path.value in state.text
         && state.text[state.path.value] == state.inherited[id]
      then state.Set(id, Refused)
      else state.Set(id, Waiting(process.file))
    case WaitForLock(_) => state.(owner := state.owner[process.file := id]).Set(id, Locked(process.file))
    case Check(_) =>
      if state.path == Some(process.file) then state.Set(id, Checked(process.file))
      else state.Unlocked(id).Set(id, Idle)
    case Clear(_) => state.(text := state.text - {process.file}).Set(id, Cleared(process.file))
    case WriteToken(_) =>
      state.(text := state.text[process.file := state.tokens], tokens := state.tokens + 1)
      .Set(id, Holding(process.file, state.tokens))
    case ClearToken(_) => state.(text := state.text - {process.file}).Set(id, Released(process.file))
    case Close(_) => state.Unlocked(id).Set(id, Idle)
    case Crash(_) =>
      state.(dead := if process.Holding? then state.dead + {process.token} else state.dead).Unlocked(id).Set(id, Idle)
    case PruneOpen(_) => state.Set(id, PruneOpened(state.path.value))
    case PruneTryLock(_) =>
      if process.file in state.owner then state.Set(id, Idle)
      else state.(owner := state.owner[process.file := id]).Set(id, PruneLocked(process.file))
    case PruneRemove(_) => state.(path := None).Set(id, PruneRemoved(process.file))
    case PruneClose(_) => state.Unlocked(id).Set(id, Idle)
  }

  ghost predicate NobodyHolds(state: State) {
    forall id | id in state.processes :: !state.processes[id].Holds()
  }

  /** Nobody holds the lock when a file is removed. */
  ghost predicate Harmless(state: State, step: Step) { step.PruneRemove? ==> NobodyHolds(state) }

  /** What a pruner removes, if anything, is the file it locked. */
  predicate RemovesItsOwn(state: State, step: Step) {
    step.PruneRemove? && state.At(step.id).PruneLocked? ==>
      state.path == None || state.path == Some(state.At(step.id).file)
  }

  // ---- what every step keeps ----------------------------------------------------------------------

  ghost predicate LocksHeld(state: State) {
    && (forall id | id in state.processes && state.processes[id].HasLock().Some? ::
          var file := state.processes[id].HasLock().value; file in state.owner && state.owner[file] == id)
    && (forall file | file in state.owner ::
          state.owner[file] in state.processes && state.processes[state.owner[file]].HasLock() == Some(file))
  }

  /** Who holds the lock has the file at the path. */
  ghost predicate AtPath(state: State) {
    forall id | id in state.processes && state.processes[id].Holds() :: state.path == Some(state.processes[id].file)
  }

  /** A file holds a token only while its acquisition holds the lock, unless that died. */
  ghost predicate TokensTrue(state: State) {
    && (forall file | file in state.text ::
          && file < state.files && state.text[file] < state.tokens
          && (state.text[file] in state.dead || HeldBy(state, file, state.text[file])))
    && (forall id | id in state.processes && state.processes[id].Holding? ::
          state.processes[id].file in state.text && state.text[state.processes[id].file] == state.processes[id].token)
  }

  ghost predicate HeldBy(state: State, file: File, token: Token) {
    exists id :: id in state.processes && state.processes[id] == Holding(file, token)
  }

  ghost predicate Known(state: State) {
    && (state.path.Some? ==> state.path.value < state.files)
    && forall id | id in state.processes && !state.processes[id].Idle? && !state.processes[id].Refused? ::
         state.processes[id].file < state.files
  }

  ghost predicate Safe(state: State) {
    LocksHeld(state) && AtPath(state) && TokensTrue(state) && Known(state)
  }

  ghost predicate Init(state: State) {
    state.owner == map[] && state.processes == map[] && state.text == map[] && Known(state)
  }

  // ---- who has which lock ----------------------------------------------------------------------------

  lemma LockStays(state: State, after: State, id: nat, process: Process)
    requires LocksHeld(state) && after.owner == state.owner && after.processes == state.processes[id := process]
    requires process.HasLock() == state.At(id).HasLock()
    ensures LocksHeld(after)
  {
  }

  lemma LockTaken(state: State, after: State, id: nat, process: Process, file: File)
    requires LocksHeld(state) && file !in state.owner && after.owner == state.owner[file := id]
    requires after.processes == state.processes[id := process]
    requires process.HasLock() == Some(file) && state.At(id).HasLock() == None
    ensures LocksHeld(after)
  {
    forall other | other in after.processes && after.processes[other].HasLock().Some?
      ensures after.processes[other].HasLock().value in after.owner
              && after.owner[after.processes[other].HasLock().value] == other
    {
    }
  }

  lemma LockGivenUp(state: State, after: State, id: nat, process: Process)
    requires LocksHeld(state) && after.owner == state.Unlocked(id).owner
    requires after.processes == state.processes[id := process] && process.HasLock() == None
    ensures LocksHeld(after)
  {
  }

  lemma KeepsLocks(state: State, step: Step)
    requires LocksHeld(state) && Enabled(state, step)
    ensures LocksHeld(Do(state, step))
  {
    var after, id, process := Do(state, step), step.id, state.At(step.id);
    if step.TryLock? || step.PruneTryLock? || step.WaitForLock? {
      LockAsked(state, step);
    } else if step.Close? || step.Crash? || step.PruneClose? || (step.Check? && state.path != Some(process.file)) {
      LockGivenUp(state, after, id, after.processes[id]);
    } else {
      LockStays(state, after, id, after.processes[id]);
    }
  }

  lemma LockAsked(state: State, step: Step)
    requires LocksHeld(state) && Enabled(state, step) && (step.TryLock? || step.PruneTryLock? || step.WaitForLock?)
    ensures LocksHeld(Do(state, step))
  {
    var after, id, process := Do(state, step), step.id, state.At(step.id);
    if process.file in state.owner {
      LockStays(state, after, id, after.processes[id]);
    } else {
      LockTaken(state, after, id, after.processes[id], process.file);
    }
  }

  /** Two processes that have a file's lock are one. */
  lemma OneOwner(state: State, id: nat, other: nat)
    requires LocksHeld(state) && id in state.processes && other in state.processes
    requires state.processes[id].HasLock().Some? && state.processes[id].HasLock() == state.processes[other].HasLock()
    ensures id == other
  {
    var file := state.processes[id].HasLock().value;
    assert state.owner[file] == id && state.owner[file] == other;
  }

  // ---- which file is at the path -----------------------------------------------------------------------

  ghost predicate Placed(state: State) { AtPath(state) && Known(state) }

  lemma PathStays(state: State, after: State, id: nat, process: Process)
    requires Placed(state) && after.path == state.path && after.files == state.files
    requires after.processes == state.processes[id := process]
    requires process.Idle? || process.Refused? || process.file < state.files
    requires process.Holds() ==> state.path == Some(process.file)
    ensures Placed(after)
  {
  }

  /** With no file at the path, nobody holds the lock: a new one can be made. */
  lemma PathMade(state: State, after: State, id: nat)
    requires Placed(state) && state.path == None && state.At(id).Idle?
    requires after.path == Some(state.files) && after.files == state.files + 1
    requires after.processes == state.processes[id := Opened(state.files)]
    ensures Placed(after)
  {
  }

  /** Removing the file at the path leaves every holder's there if and only if there is no holder. */
  lemma PathRemoved(state: State, after: State, id: nat)
    requires Placed(state) && id in state.processes && state.processes[id].PruneLocked?
    requires after.path == None && after.files == state.files
    requires after.processes == state.processes[id := PruneRemoved(state.processes[id].file)]
    ensures Placed(after) <==> NobodyHolds(state)
  {
    forall other ensures other in state.processes && state.processes[other].Holds() <==>
                         other in after.processes && after.processes[other].Holds()
    {
    }
  }

  /** Every step keeps holders' files at the path, bar a removal while someone holds the lock. */
  lemma KeepsPath(state: State, step: Step)
    requires Placed(state) && LocksHeld(state) && Enabled(state, step)
    ensures Placed(Do(state, step)) <==> Harmless(state, step)
  {
    var after, id := Do(state, step), step.id;
    if step.Open? && state.path == None {
      PathMade(state, after, id);
    } else if step.PruneRemove? {
      PathRemoved(state, after, id);
    } else {
      PathStays(state, after, id, after.processes[id]);
    }
  }

  /** A pruner that removes the file it locked does so while nobody holds the lock. */
  lemma OwnIsHarmless(state: State, step: Step)
    requires Safe(state) && Enabled(state, step) && RemovesItsOwn(state, step)
    ensures Harmless(state, step)
  {
    if step.PruneRemove? {
      forall id | id in state.processes ensures !state.processes[id].Holds() {
        if state.processes[id].Holds() { OneOwner(state, id, step.id); }
      }
    }
  }

  // ---- what the file says --------------------------------------------------------------------------------

  lemma TextStays(state: State, after: State, id: nat, process: Process)
    requires TokensTrue(state) && after.text == state.text && after.files >= state.files && after.tokens == state.tokens
    requires after.processes == state.processes[id := process] && state.dead <= after.dead
    requires state.At(id).Holding? ==> state.At(id).token in after.dead
    requires !process.Holding?
    ensures TokensTrue(after)
  {
    forall file | file in after.text ensures after.text[file] in after.dead || HeldBy(after, file, after.text[file]) {
      if state.text[file] !in state.dead {
        var holder :| holder in state.processes && state.processes[holder] == Holding(file, state.text[file]);
        if holder != id { assert after.processes[holder] == Holding(file, state.text[file]); }
      }
    }
  }

  /** Clearing a file whose lock it has, a process clears no other's token. */
  lemma TextCleared(state: State, after: State, id: nat, process: Process, file: File)
    requires TokensTrue(state) && LocksHeld(state) && id in state.processes
             && state.processes[id].HasLock() == Some(file)
    requires after.text == state.text - {file} && after.files == state.files && after.tokens == state.tokens
    requires after.processes == state.processes[id := process] && after.dead == state.dead && !process.Holding?
    ensures TokensTrue(after)
  {
    forall other | other in after.processes && after.processes[other].Holding?
      ensures after.processes[other].file in after.text
              && after.text[after.processes[other].file] == after.processes[other].token
    {
      if state.processes[other].file == file { OneOwner(state, id, other); }
    }
    forall left | left in after.text ensures after.text[left] in after.dead || HeldBy(after, left, after.text[left]) {
      if state.text[left] !in state.dead {
        var holder :| holder in state.processes && state.processes[holder] == Holding(left, state.text[left]);
        assert holder != id;
        assert after.processes[holder] == Holding(left, state.text[left]);
      }
    }
  }

  lemma TextWritten(state: State, after: State, id: nat, file: File)
    requires TokensTrue(state) && LocksHeld(state) && id in state.processes && state.processes[id] == Cleared(file)
             && file < state.files
    requires after.text == state.text[file := state.tokens] && after.files == state.files
             && after.tokens == state.tokens + 1
    requires after.processes == state.processes[id := Holding(file, state.tokens)] && after.dead == state.dead
    ensures TokensTrue(after)
  {
    forall other | other in after.processes && after.processes[other].Holding?
      ensures after.processes[other].file in after.text
              && after.text[after.processes[other].file] == after.processes[other].token
    {
      if other != id && state.processes[other].file == file { OneOwner(state, id, other); }
    }
    forall left | left in after.text ensures after.text[left] in after.dead || HeldBy(after, left, after.text[left]) {
      if left == file {
        assert after.processes[id] == Holding(file, state.tokens);
      } else if state.text[left] !in state.dead {
        var holder :| holder in state.processes && state.processes[holder] == Holding(left, state.text[left]);
        assert after.processes[holder] == Holding(left, state.text[left]);
      }
    }
  }

  lemma KeepsTokens(state: State, step: Step)
    requires Safe(state) && Enabled(state, step)
    ensures TokensTrue(Do(state, step))
  {
    var after, id, process := Do(state, step), step.id, state.At(step.id);
    if step.Clear? || step.ClearToken? {
      TextCleared(state, after, id, after.processes[id], process.file);
    } else if step.WriteToken? {
      TextWritten(state, after, id, process.file);
    } else {
      TextStays(state, after, id, after.processes[id]);
    }
  }

  /** Every step, of anyone, keeps it, bar a removal while someone holds the lock: that never does. */
  lemma KeepsSafe(state: State, step: Step)
    requires Safe(state) && Enabled(state, step)
    ensures Safe(Do(state, step)) <==> Harmless(state, step)
  {
    KeepsLocks(state, step);
    KeepsPath(state, step);
    KeepsTokens(state, step);
  }

  // ---- over whole runs --------------------------------------------------------------------------------------

  ghost predicate IsRun(run: seq<State>, steps: seq<Step>) {
    && |run| == |steps| + 1 && Init(run[0])
    && forall i | 0 <= i < |steps| :: Enabled(run[i], steps[i]) && run[i + 1] == Do(run[i], steps[i])
  }

  /** Nobody holds the lock at any removal. */
  ghost predicate AllHarmless(run: seq<State>, steps: seq<Step>)
    requires |run| == |steps| + 1
  {
    forall i | 0 <= i < |steps| :: Harmless(run[i], steps[i])
  }

  lemma {:induction false} RunSafe(run: seq<State>, steps: seq<Step>, i: nat)
    requires IsRun(run, steps) && AllHarmless(run, steps) && i < |run|
    ensures Safe(run[i])
    decreases i
  {
    if i > 0 {
      RunSafe(run, steps, i - 1);
      KeepsSafe(run[i - 1], steps[i - 1]);
    }
  }

  /** With any number of pruners, each removing only the file it locked, no removal does harm. */
  lemma {:induction false} OwnRemovalsHarmless(run: seq<State>, steps: seq<Step>, upto: nat)
    requires IsRun(run, steps) && upto <= |steps| && forall i | 0 <= i < |steps| :: RemovesItsOwn(run[i], steps[i])
    ensures Safe(run[upto]) && forall i | 0 <= i < upto :: Harmless(run[i], steps[i])
    decreases upto
  {
    if upto > 0 {
      OwnRemovalsHarmless(run, steps, upto - 1);
      OwnIsHarmless(run[upto - 1], steps[upto - 1]);
      KeepsSafe(run[upto - 1], steps[upto - 1]);
    }
  }

  /**
   However acquirers, releasers, crashes and pruners interleave, as long as nobody
   holds the lock when a file is removed, no two processes hold it at once, and the
   file a holder locked is the one at the path.
   */
  lemma MutualExclusion(run: seq<State>, steps: seq<Step>, i: nat, id: nat, other: nat)
    requires IsRun(run, steps) && AllHarmless(run, steps) && i < |run|
    requires id in run[i].processes && run[i].processes[id].Holds()
    ensures run[i].path == Some(run[i].processes[id].file)
    ensures other in run[i].processes && run[i].processes[other].Holds() ==> other == id
  {
    RunSafe(run, steps, i);
    if other in run[i].processes && run[i].processes[other].Holds() { OneOwner(run[i], id, other); }
  }

  /**
   A command is refused as nested only while the very acquisition whose token it
   inherited holds the lock, or has died holding it.
   */
  lemma RefusedOnlyUnderAncestor(run: seq<State>, steps: seq<Step>, i: nat)
    requires IsRun(run, steps) && AllHarmless(run, steps) && i < |steps|
    requires steps[i].LookForAncestor? && run[i + 1].At(steps[i].id).Refused?
    ensures steps[i].id in run[i].inherited && run[i].path.Some?
    ensures var token := run[i].inherited[steps[i].id];
            token in run[i].dead || HeldBy(run[i], run[i].path.value, token)
  {
    RunSafe(run, steps, i);
    RefusedFor(run[i], steps[i]);
  }

  lemma RefusedFor(state: State, step: Step)
    requires TokensTrue(state) && Enabled(state, step) && step.LookForAncestor? && Do(state, step).At(step.id).Refused?
    ensures step.id in state.inherited && state.path.Some?
    ensures state.inherited[step.id] in state.dead || HeldBy(state, state.path.value, state.inherited[step.id])
  {
  }

  // ---- one pruner at a time -----------------------------------------------------------------------------------

  /** What a pruner has opened, and not removed yet, is at the path, and no other is pruning. */
  ghost predicate OnePruner(state: State) {
    && (forall id | id in state.processes && state.processes[id].Pruning() ::
          state.path == Some(state.processes[id].file))
    && forall id, other | id in state.processes && other in state.processes
                          && state.processes[id].Pruning() && state.processes[other].Pruning() :: id == other
  }

  /** A run of prune begins only once none is under way. */
  ghost predicate Alone(state: State, step: Step) {
    step.PruneOpen? ==> forall id | id in state.processes :: !state.processes[id].Pruning()
  }

  ghost predicate OnePruneAtATime(run: seq<State>, steps: seq<Step>)
    requires |run| == |steps| + 1
  {
    forall i | 0 <= i < |steps| :: Alone(run[i], steps[i])
  }

  lemma StepKeepsOnePruner(state: State, step: Step)
    requires OnePruner(state) && Enabled(state, step) && Alone(state, step)
    ensures OnePruner(Do(state, step)) && RemovesItsOwn(state, step)
  {
    PrunersStep(state, Do(state, step), step);
  }

  /** Another step begins no run of prune, and moves the path under none. */
  lemma PrunersStep(state: State, after: State, step: Step)
    requires OnePruner(state) && Enabled(state, step) && Alone(state, step) && after == Do(state, step)
    ensures OnePruner(after)
  {
    forall id | id in after.processes && after.processes[id].Pruning()
      ensures after.path == Some(after.processes[id].file)
    {
      PrunerStays(state, after, step, id);
    }
    forall id, other | id in after.processes && other in after.processes
                       && after.processes[id].Pruning() && after.processes[other].Pruning()
      ensures id == other
    {
      PrunerStays(state, after, step, id);
      PrunerStays(state, after, step, other);
    }
  }

  lemma PrunerStays(state: State, after: State, step: Step, id: nat)
    requires OnePruner(state) && Enabled(state, step) && Alone(state, step) && after == Do(state, step)
    requires id in after.processes && after.processes[id].Pruning()
    ensures after.path == Some(after.processes[id].file)
    ensures if step.PruneOpen? then
              id == step.id && forall other | other in state.processes :: !state.processes[other].Pruning()
            else id in state.processes && state.processes[id].Pruning()
  {
    OthersStay(state, after, step);
    if id == step.id { OwnPruning(state, after, step); }
    if after.path != state.path { PathMoves(state, after, step); }
  }

  lemma OthersStay(state: State, after: State, step: Step)
    requires Enabled(state, step) && after == Do(state, step)
    ensures forall id | id in after.processes && id != step.id ::
              id in state.processes && after.processes[id] == state.processes[id]
  {
  }

  /** Who is pruning after its step has just opened what is at the path, or was pruning the same file. */
  lemma OwnPruning(state: State, after: State, step: Step)
    requires Enabled(state, step) && after == Do(state, step)
    requires step.id in after.processes && after.processes[step.id].Pruning()
    ensures if step.PruneOpen? then state.path == Some(after.processes[step.id].file)
            else state.At(step.id).Pruning() && state.At(step.id).file == after.processes[step.id].file
  {
  }

  lemma PathMoves(state: State, after: State, step: Step)
    requires Enabled(state, step) && after == Do(state, step) && after.path != state.path
    ensures (step.Open? && state.path == None) || (step.PruneRemove? && state.At(step.id).PruneLocked?)
  {
  }

  lemma StartsAlone(state: State)
    requires Init(state)
    ensures Safe(state) && OnePruner(state)
  {
  }

  lemma {:induction false} OnePrunerAlways(run: seq<State>, steps: seq<Step>, upto: nat)
    requires IsRun(run, steps) && OnePruneAtATime(run, steps) && upto <= |steps|
    ensures Safe(run[upto]) && OnePruner(run[upto])
    decreases upto
  {
    if upto == 0 {
      StartsAlone(run[0]);
    } else {
      OnePrunerAlways(run, steps, upto - 1);
      PrunesAlone(run[upto - 1], steps[upto - 1], run[upto]);
    }
  }

  /** Runs of prune that do not overlap remove only the files they locked, so they do no harm. */
  lemma OnePruneIsHarmless(run: seq<State>, steps: seq<Step>, i: nat)
    requires IsRun(run, steps) && OnePruneAtATime(run, steps) && i < |steps|
    ensures RemovesItsOwn(run[i], steps[i]) && Harmless(run[i], steps[i])
    ensures Safe(run[i + 1]) && OnePruner(run[i + 1])
  {
    OnePrunerAlways(run, steps, i);
    PrunesAlone(run[i], steps[i], run[i + 1]);
  }

  lemma PrunesAlone(state: State, step: Step, after: State)
    requires Safe(state) && OnePruner(state) && Enabled(state, step) && Alone(state, step) && after == Do(state, step)
    ensures Safe(after) && OnePruner(after) && RemovesItsOwn(state, step) && Harmless(state, step)
  {
    StepKeepsOnePruner(state, step);
    OwnIsHarmless(state, step);
    KeepsSafe(state, step);
  }

  // ---- two pruners at once ------------------------------------------------------------------------------------

  /** The steps one after another, each enabled. */
  predicate CanDo(state: State, steps: seq<Step>)
    decreases |steps|
  {
    steps == [] || (Enabled(state, steps[0]) && CanDo(Do(state, steps[0]), steps[1..]))
  }

  function DoAll(state: State, steps: seq<Step>): State
    requires CanDo(state, steps)
    decreases |steps|
  {
    if steps == [] then state else DoAll(Do(state, steps[0]), steps[1..])
  }

  lemma Then(state: State, step: Step, rest: seq<Step>) returns (steps: seq<Step>)
    requires Enabled(state, step) && CanDo(Do(state, step), rest)
    ensures CanDo(state, steps) && DoAll(state, steps) == DoAll(Do(state, step), rest)
  {
    steps := [step] + rest;
    assert steps[1..] == rest;
  }

  lemma {:induction false} ThenAll(state: State, first: seq<Step>, rest: seq<Step>)
    requires CanDo(state, first) && CanDo(DoAll(state, first), rest)
    ensures CanDo(state, first + rest) && DoAll(state, first + rest) == DoAll(DoAll(state, first), rest)
    decreases |first|
  {
    if first == [] {
      assert first + rest == rest;
    } else {
      ThenAll(Do(state, first[0]), first[1..], rest);
      assert (first + rest)[1..] == first[1..] + rest;
    }
  }

  /** A lock file nobody has open. */
  function Fresh(): State { State(Some(0), map[], map[], map[], 1, 0, map[], {}) }

  /** One pruner has removed the file, and another still has it open. */
  function Removed(): State {
    State(None, map[], map[], map[1 := Idle, 2 := PruneOpened(0)], 1, 0, map[], {})
  }

  /** A command has made the file again, and holds the lock. */
  function HeldAgain(): State {
    State(Some(1), map[1 := 3], map[], map[1 := Idle, 2 := PruneOpened(0), 3 := Checked(1)], 2, 0, map[], {})
  }

  lemma FirstPruner() returns (steps: seq<Step>)
    ensures CanDo(Fresh(), steps) && DoAll(Fresh(), steps) == Removed()
  {
    var s1 := Do(Fresh(), PruneOpen(1));
    var s2 := Do(s1, PruneOpen(2));
    var s3 := Do(s2, PruneTryLock(1));
    var s4 := Do(s3, PruneRemove(1));
    var s5 := Do(s4, PruneClose(1));
    steps := [];
    steps := Then(s4, PruneClose(1), steps);
    steps := Then(s3, PruneRemove(1), steps);
    steps := Then(s2, PruneTryLock(1), steps);
    steps := Then(s1, PruneOpen(2), steps);
    steps := Then(Fresh(), PruneOpen(1), steps);
  }

  lemma CommandLocks() returns (steps: seq<Step>)
    ensures CanDo(Removed(), steps) && DoAll(Removed(), steps) == HeldAgain()
  {
    var s1 := Do(Removed(), Open(3));
    var s2 := Do(s1, TryLock(3));
    var s3 := Do(s2, Check(3));
    steps := [];
    steps := Then(s2, Check(3), steps);
    steps := Then(s1, TryLock(3), steps);
    steps := Then(Removed(), Open(3), steps);
  }

  lemma SecondPruner() returns (steps: seq<Step>)
    ensures CanDo(HeldAgain(), steps)
    ensures DoAll(HeldAgain(), steps).At(3).Holds() && DoAll(HeldAgain(), steps).At(4).Holds()
  {
    var s1 := Do(HeldAgain(), PruneTryLock(2));
    var s2 := Do(s1, PruneRemove(2));
    var s3 := Do(s2, Open(4));
    var s4 := Do(s3, TryLock(4));
    var s5 := Do(s4, Check(4));
    steps := [];
    steps := Then(s4, Check(4), steps);
    steps := Then(s3, TryLock(4), steps);
    steps := Then(s2, Open(4), steps);
    steps := Then(s1, PruneRemove(2), steps);
    steps := Then(HeldAgain(), PruneTryLock(2), steps);
  }

  /**
   Two runs of prune that overlap break it: the second unlinks a file it did not
   lock, and two commands hold the lock.
   */
  lemma TwoPrunersBreakIt() returns (steps: seq<Step>)
    ensures CanDo(Fresh(), steps) && DoAll(Fresh(), steps).At(3).Holds() && DoAll(Fresh(), steps).At(4).Holds()
  {
    var first := FirstPruner();
    var second := CommandLocks();
    var third := SecondPruner();
    ThenAll(Removed(), second, third);
    ThenAll(Fresh(), first, second + third);
    steps := first + (second + third);
  }
}
