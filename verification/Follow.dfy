/** Root's branch follows its head. */
module Follow {
  // After a landing, root's branch follows its head: compare-and-swaps of single
  // refs, interleaved with landings, other followers, and pushes from outside.

  import opened Wrappers
  import opened Names
  import opened Landing

  /** The refs of root's repository: the branch, commits waiting to land, commits kept. */
  datatype Ref = BranchRef | LandingRef(commit: Commit) | StrayRef(commit: Commit) | OtherRef(name: string)

  type Refs = map<Ref, Commit>

  /** `was` is the condition, and `now` the effect. */
  datatype Update = Update(ref: Ref, was: Option<Commit>, now: Option<Commit>)

  function Held(refs: Refs, ref: Ref): Option<Commit> {
    if ref in refs then Some(refs[ref]) else None
  }

  function PutRef(refs: Refs, ref: Ref, commit: Option<Commit>): Refs {
    if commit.Some? then refs[ref := commit.value] else refs - {ref}
  }

  /** One compare-and-swap. */
  function Swapped(refs: Refs, update: Update): Refs {
    if Held(refs, update.ref) == update.was then PutRef(refs, update.ref, update.now) else refs
  }

  /** The landing refs of other commits. */
  function OtherLandings(head: Commit, refs: Refs): set<Ref> {
    set ref | ref in refs && ref.LandingRef? && ref.commit != head
  }

  /** The commits asked about: whether each has ever been a head. */
  function Asked(head: Commit, refs: Refs): set<Commit> {
    (if BranchRef in refs && refs[BranchRef] != head then {refs[BranchRef]} else {})
    + set ref | ref in OtherLandings(head, refs) :: refs[ref]
  }

  /** What a follower that read `head` and `refs` moves, `landed` being the commits that were heads. */
  function Updates(head: Commit, refs: Refs, landed: set<Commit>): set<Update> {
    var held := Held(refs, BranchRef);
    (if held == Some(head) then {}
     else {Update(BranchRef, held, Some(head))}
          + if held.Some? && held.value !in landed then {Update(StrayRef(held.value), None, held)} else {})
    + (if LandingRef(head) in refs then {Update(LandingRef(head), Held(refs, LandingRef(head)), None)} else {})
    + set ref | ref in OtherLandings(head, refs) && refs[ref] in landed :: Update(ref, Held(refs, ref), None)
  }

  const ATTEMPTS := 3

  /** Where a follower is in its loop. */
  datatype Follower =
    | Reading(attempt: nat)
    | ReadHead(attempt: nat, head: Commit)
    | Asking(attempt: nat, head: Commit, refs: Refs, toAsk: set<Commit>, landed: set<Commit>)
    | Moving(attempt: nat, head: Commit, refs: Refs, all: set<Update>, left: set<Update>, moved: bool)
    | Done(behind: bool)

  /**
   The log of heads, the refs, and every follower; with what followers overwrote
   on the branch, and which landing refs they deleted, holding what.
   */
  datatype World = World(log: seq<Move>, refs: Refs, followers: map<nat, Follower>,
                         overwritten: set<Commit>, deleted: set<(Commit, Commit)>)

  ghost predicate Was(log: seq<Move>, branch: string, commit: Commit) { HeadOnce(log, branch, ROOT, commit) }

  function Head(log: seq<Move>, branch: string): Option<Commit> { Get(Replay(log, branch), ROOT) }

  // ---- the steps -------------------------------------------------------------------------------

  datatype Step =
    /** Any heads move, on any branch. */
    | Land(more: seq<Move>)
    /** Someone else moves a ref; nobody but followers touches stray refs. */
    | Push(ref: Ref, now: Option<Commit>)
    | Start(id: nat)
    | SeeHead(id: nat)
    | SeeRefs(id: nat)
    | Ask(id: nat, commit: Commit)
    | Decide(id: nat)
    | Swap(id: nat, update: Update)
    /** The whole request is refused, before any of it was made. */
    | Refuse(id: nat)
    | Finish(id: nat)

  ghost predicate Next(world: World, after: World, branch: string, step: Step) {
    match step
    case Land(more) => Chained(world.log + more) && after == world.(log := world.log + more)
    case Push(ref, now) => !ref.StrayRef? && after == world.(refs := PutRef(world.refs, ref, now))
    case Start(id) => id !in world.followers && after == Put(world, id, Reading(0))
    case SeeHead(id) =>
      && id in world.followers && world.followers[id].Reading?
      && var head := Head(world.log, branch);
      after == Put(world, id, if head.None? then Done(false) else ReadHead(world.followers[id].attempt, head.value))
    case SeeRefs(id) =>
      && id in world.followers && world.followers[id].ReadHead?
      && var follower := world.followers[id];
      after == Put(world, id, Asking(follower.attempt, follower.head, world.refs, Asked(follower.head, world.refs), {}))
    case Ask(id, commit) =>
      && id in world.followers && world.followers[id].Asking? && commit in world.followers[id].toAsk
      && var follower := world.followers[id];
      after == Put(world, id, follower.(toAsk := follower.toAsk - {commit},
                                        landed := if Was(world.log, branch, commit) then follower.landed + {commit}
                                                  else follower.landed))
    case Decide(id) =>
      && id in world.followers && world.followers[id].Asking? && world.followers[id].toAsk == {}
      && var follower := world.followers[id];
      var updates := Updates(follower.head, follower.refs, follower.landed);
      after == Put(world, id, if updates == {} then Done(false)
                              else Moving(follower.attempt, follower.head, follower.refs, updates, updates, false))
    case Swap(id, update) =>
      && id in world.followers && world.followers[id].Moving? && update in world.followers[id].left
      && after == Swaps(world, id, update)
    case Refuse(id) =>
      && id in world.followers && world.followers[id].Moving? && world.followers[id].left == world.followers[id].all
      && after == Put(world, id, Done(true))
    case Finish(id) =>
      && id in world.followers && world.followers[id].Moving? && world.followers[id].left == {}
      && var follower := world.followers[id];
      after == Put(world, id,
                   if Held(follower.refs, BranchRef) == Some(follower.head) || follower.moved then Done(false)
                              else if follower.attempt + 1 < ATTEMPTS then Reading(follower.attempt + 1)
                              else Done(true))
  }

  function Put(world: World, id: nat, follower: Follower): World {
    world.(followers := world.followers[id := follower])
  }

  /** One update of a follower's request, made if the ref holds what it must. */
  function Swaps(world: World, id: nat, update: Update): World
    requires id in world.followers && world.followers[id].Moving?
  {
    var follower := world.followers[id];
    var made := Held(world.refs, update.ref) == update.was;
    World(world.log, Swapped(world.refs, update),
          world.followers[id := follower.(left := follower.left - {update},
                                          moved := follower.moved || (made && update.ref.BranchRef?))],
          if made && update.ref.BranchRef? && update.was.Some? then world.overwritten + {update.was.value}
          else world.overwritten,
          if made && update.ref.LandingRef? && update.was.Some?
          then world.deleted + {(update.ref.commit, update.was.value)} else world.deleted)
  }

  // ---- what every step keeps ----------------------------------------------------------------------

  ghost predicate Kept(refs: Refs, commit: Commit) { Held(refs, StrayRef(commit)) == Some(commit) }

  /** An update that loses nothing: what it overwrites was a head, is kept, or is being kept by `left`. */
  ghost predicate Harmless(log: seq<Move>, refs: Refs, branch: string, head: Commit, left: set<Update>, update: Update)
  {
    match update.ref
    case BranchRef =>
      && update.now == Some(head) && Was(log, branch, head)
      && (update.was.Some? ==>
            var held := update.was.value;
            Was(log, branch, held) || Kept(refs, held) || Update(StrayRef(held), None, Some(held)) in left)
    case StrayRef(commit) => update.was == None && update.now == Some(commit)
    case LandingRef(commit) =>
      update.now == None && update.was.Some? && (Was(log, branch, commit) || Was(log, branch, update.was.value))
    case OtherRef(_) => false
  }

  ghost predicate OneBranchUpdate(updates: set<Update>) {
    forall one, other | one in updates && other in updates && one.ref.BranchRef? && other.ref.BranchRef? :: one == other
  }

  ghost predicate FollowerSafe(log: seq<Move>, refs: Refs, branch: string, follower: Follower) {
    match follower
    case Reading(_) => true
    case ReadHead(_, head) => Was(log, branch, head)
    case Asking(_, head, _, _, landed) =>
      Was(log, branch, head) && forall commit | commit in landed :: Was(log, branch, commit)
    case Moving(_, head, _, all, left, _) =>
      && left <= all && OneBranchUpdate(all)
         && (forall update | update in left :: Harmless(log, refs, branch, head, left, update))
      && (forall update | update in all && update.ref.StrayRef? :: exists move :: move in all && move.ref.BranchRef?)
    case Done(_) => true
  }

  /** It has moved the branch, and has yet to keep what it overwrote. */
  ghost predicate Owes(follower: Follower, commit: Commit) {
    && follower.Moving? && Update(StrayRef(commit), None, Some(commit)) in follower.left
    && forall update | update in follower.left :: !update.ref.BranchRef?
  }

  ghost predicate Accounted(world: World, branch: string, commit: Commit) {
    || Was(world.log, branch, commit) || Kept(world.refs, commit)
    || exists id :: id in world.followers && Owes(world.followers[id], commit)
  }

  ghost predicate Safe(world: World, branch: string) {
    && Chained(world.log)
    && (forall id | id in world.followers :: FollowerSafe(world.log, world.refs, branch, world.followers[id]))
    && (forall commit | StrayRef(commit) in world.refs :: Kept(world.refs, commit))
    && (forall commit | commit in world.overwritten :: Accounted(world, branch, commit))
    && (forall pair | pair in world.deleted :: Was(world.log, branch, pair.0) || Was(world.log, branch, pair.1))
  }

  /** Before anyone follows. */
  ghost predicate Init(world: World) {
    && Chained(world.log) && world.followers == map[] && world.overwritten == {} && world.deleted == {}
    && forall commit | StrayRef(commit) in world.refs :: Kept(world.refs, commit)
  }

  lemma WasStays(log: seq<Move>, more: seq<Move>, branch: string, commit: Commit)
    requires Was(log, branch, commit)
    ensures Was(log + more, branch, commit)
  {
    var i :| 0 <= i <= |log| && Get(Replay(log[..i], branch), ROOT) == Some(commit);
    assert (log + more)[..i] == log[..i];
  }

  lemma HeadWas(log: seq<Move>, branch: string)
    requires Head(log, branch).Some?
    ensures Was(log, branch, Head(log, branch).value)
  {
    assert log[..|log|] == log;
  }

  /** Nothing a step does unsettles a follower it is not about. */
  lemma StillSafe(log: seq<Move>, more: seq<Move>, refs: Refs, after: Refs, branch: string, follower: Follower)
    requires FollowerSafe(log, refs, branch, follower)
    requires forall commit | Kept(refs, commit) :: Kept(after, commit)
    ensures FollowerSafe(log + more, after, branch, follower)
  {
    forall commit | Was(log, branch, commit) ensures Was(log + more, branch, commit) {
      WasStays(log, more, branch, commit);
    }
    if follower.Moving? {
      forall update | update in follower.left
        ensures Harmless(log + more, after, branch, follower.head, follower.left, update)
      {
        assert Harmless(log, refs, branch, follower.head, follower.left, update);
      }
    }
  }

  lemma StillAccounted(world: World, after: World, branch: string, more: seq<Move>, id: nat, commit: Commit)
    requires Accounted(world, branch, commit) && after.log == world.log + more
    requires Kept(world.refs, commit) ==> Kept(after.refs, commit)
    requires forall other | other in world.followers && other != id ::
               other in after.followers && after.followers[other] == world.followers[other]
    requires id in world.followers && Owes(world.followers[id], commit) ==>
               Kept(after.refs, commit) || (id in after.followers && Owes(after.followers[id], commit))
    ensures Accounted(after, branch, commit)
  {
    if Was(world.log, branch, commit) {
      WasStays(world.log, more, branch, commit);
    } else if !Kept(world.refs, commit) {
      var other :| other in world.followers && Owes(world.followers[other], commit);
      if other != id { assert Owes(after.followers[other], commit); }
    }
  }

  /** The updates a follower decides on lose nothing. */
  lemma DecidedSafe(log: seq<Move>, refs: Refs, branch: string, head: Commit, seen: Refs, landed: set<Commit>,
                    attempt: nat)
    requires Was(log, branch, head) && forall commit | commit in landed :: Was(log, branch, commit)
    ensures var updates := Updates(head, seen, landed);
            FollowerSafe(log, refs, branch, Moving(attempt, head, seen, updates, updates, false))
  {
    var updates := Updates(head, seen, landed);
    forall update | update in updates ensures Harmless(log, refs, branch, head, updates, update) {
    }
    forall update | update in updates && update.ref.StrayRef?
      ensures exists move :: move in updates && move.ref.BranchRef?
    {
      assert Update(BranchRef, Held(seen, BranchRef), Some(head)) in updates;
    }
  }

  /** Making one update keeps what was kept. */
  lemma SwapKeeps(world: World, branch: string, id: nat, update: Update)
    requires Safe(world, branch) && id in world.followers && world.followers[id].Moving?
             && update in world.followers[id].left
    ensures var after := Swapped(world.refs, update);
            && (forall commit | Kept(world.refs, commit) :: Kept(after, commit))
            && (forall commit | StrayRef(commit) in after :: Kept(after, commit))
            && (update.ref.StrayRef? ==> Kept(after, update.ref.commit))
  {
    var follower := world.followers[id];
    assert Harmless(world.log, world.refs, branch, follower.head, follower.left, update);
    if update.ref.StrayRef? && Held(world.refs, update.ref) != update.was {
      assert StrayRef(update.ref.commit) in world.refs;
    }
  }

  lemma SwapSafe(world: World, branch: string, id: nat, update: Update)
    requires Safe(world, branch) && id in world.followers && world.followers[id].Moving?
             && update in world.followers[id].left
    ensures FollowerSafe(world.log, Swapped(world.refs, update), branch, Swaps(world, id, update).followers[id])
  {
    var follower, after := world.followers[id], Swapped(world.refs, update);
    SwapKeeps(world, branch, id, update);
    var left := follower.left - {update};
    forall other | other in left ensures Harmless(world.log, after, branch, follower.head, left, other) {
      assert Harmless(world.log, world.refs, branch, follower.head, follower.left, other);
    }
  }

  /** A commit this step overwrites is accounted for at once. */
  lemma OverwrittenAccounted(world: World, branch: string, id: nat, update: Update)
    requires Safe(world, branch) && id in world.followers && world.followers[id].Moving?
             && update in world.followers[id].left
    requires update.ref.BranchRef? && update.was.Some?
    ensures Accounted(Swaps(world, id, update), branch, update.was.value)
  {
    var follower, after, held := world.followers[id], Swaps(world, id, update), update.was.value;
    assert Harmless(world.log, world.refs, branch, follower.head, follower.left, update);
    SwapKeeps(world, branch, id, update);
    if !Was(world.log, branch, held) && !Kept(world.refs, held) {
      assert Owes(after.followers[id], held);
    }
  }

  // ---- every step keeps it -------------------------------------------------------------------------

  lemma OutsideSafe(world: World, after: World, branch: string, more: seq<Move>)
    requires Safe(world, branch) && Chained(after.log)
    requires after == world.(log := world.log + more, refs := after.refs)
    requires forall commit: Commit :: Held(after.refs, StrayRef(commit)) == Held(world.refs, StrayRef(commit))
    ensures Safe(after, branch)
  {
    forall commit | Kept(world.refs, commit) ensures Kept(after.refs, commit) {
      assert Held(after.refs, StrayRef(commit)) == Held(world.refs, StrayRef(commit));
    }
    forall commit | StrayRef(commit) in after.refs ensures Kept(after.refs, commit) {
      assert Held(after.refs, StrayRef(commit)) == Held(world.refs, StrayRef(commit));
    }
    forall id | id in after.followers ensures FollowerSafe(after.log, after.refs, branch, after.followers[id]) {
      StillSafe(world.log, more, world.refs, after.refs, branch, world.followers[id]);
    }
    forall commit | commit in after.overwritten ensures Accounted(after, branch, commit) {
      StillAccounted(world, after, branch, more, 0, commit);
    }
    forall pair | pair in after.deleted ensures Was(after.log, branch, pair.0) || Was(after.log, branch, pair.1) {
      forall commit | Was(world.log, branch, commit) ensures Was(after.log, branch, commit) {
        WasStays(world.log, more, branch, commit);
      }
    }
  }

  lemma FollowerStepSafe(world: World, branch: string, id: nat, follower: Follower)
    requires Safe(world, branch) && FollowerSafe(world.log, world.refs, branch, follower)
    requires id in world.followers ==> forall commit :: !Owes(world.followers[id], commit)
    ensures Safe(Put(world, id, follower), branch)
  {
    var after := Put(world, id, follower);
    assert world.log + [] == world.log;
    forall commit | commit in after.overwritten ensures Accounted(after, branch, commit) {
      StillAccounted(world, after, branch, [], id, commit);
    }
  }

  lemma OwesMove(world: World, branch: string, id: nat, update: Update, commit: Commit)
    requires Safe(world, branch) && id in world.followers && world.followers[id].Moving?
             && update in world.followers[id].left
    requires Owes(world.followers[id], commit)
    ensures Kept(Swapped(world.refs, update), commit) || Owes(Swaps(world, id, update).followers[id], commit)
  {
    SwapKeeps(world, branch, id, update);
  }

  lemma SwapStepSafe(world: World, branch: string, id: nat, update: Update)
    requires Safe(world, branch) && id in world.followers && world.followers[id].Moving?
             && update in world.followers[id].left
    ensures Safe(Swaps(world, id, update), branch)
  {
    var after, follower := Swaps(world, id, update), world.followers[id];
    SwapKeeps(world, branch, id, update);
    SwapSafe(world, branch, id, update);
    assert world.log + [] == world.log;
    forall other | other in after.followers && other != id
      ensures FollowerSafe(after.log, after.refs, branch, after.followers[other])
    {
      StillSafe(world.log, [], world.refs, after.refs, branch, world.followers[other]);
    }
    forall commit | commit in after.overwritten ensures Accounted(after, branch, commit) {
      if commit in world.overwritten {
        if Owes(follower, commit) { OwesMove(world, branch, id, update, commit); }
        StillAccounted(world, after, branch, [], id, commit);
      } else {
        OverwrittenAccounted(world, branch, id, update);
      }
    }
    assert Harmless(world.log, world.refs, branch, follower.head, follower.left, update);
  }

  /** Every step, of anyone, keeps it. */
  lemma StepKeepsSafe(world: World, after: World, branch: string, step: Step)
    requires Safe(world, branch) && Next(world, after, branch, step)
    ensures Safe(after, branch)
  {
    match step
    case Land(more) => OutsideSafe(world, after, branch, more);
    case Push(ref, now) =>
      assert world.log + [] == world.log;
      OutsideSafe(world, after, branch, []);
    case Start(id) => FollowerStepSafe(world, branch, id, Reading(0));
    case SeeHead(id) =>
      if Head(world.log, branch).Some? { HeadWas(world.log, branch); }
      FollowerStepSafe(world, branch, id, after.followers[id]);
    case SeeRefs(id) => FollowerStepSafe(world, branch, id, after.followers[id]);
    case Ask(id, commit) => FollowerStepSafe(world, branch, id, after.followers[id]);
    case Decide(id) =>
      var follower := world.followers[id];
      DecidedSafe(world.log, world.refs, branch, follower.head, follower.refs, follower.landed, follower.attempt);
      FollowerStepSafe(world, branch, id, after.followers[id]);
    case Swap(id, update) => SwapStepSafe(world, branch, id, update);
    case Refuse(id) =>
      NothingOwedYet(world, branch, id);
      FollowerStepSafe(world, branch, id, Done(true));
    case Finish(id) => FollowerStepSafe(world, branch, id, after.followers[id]);
  }

  lemma NothingOwedYet(world: World, branch: string, id: nat)
    requires Safe(world, branch) && id in world.followers && world.followers[id].Moving?
    requires world.followers[id].left == world.followers[id].all
    ensures forall commit :: !Owes(world.followers[id], commit)
  {
    var follower := world.followers[id];
    forall commit ensures !Owes(follower, commit) {
      var stray := Update(StrayRef(commit), None, Some(commit));
      if stray in follower.left {
        assert stray in follower.all && stray.ref.StrayRef?;
      }
    }
  }

  // ---- over whole runs --------------------------------------------------------------------------------

  /** `run` is every state in turn, `steps` what was done between them. */
  ghost predicate IsRun(run: seq<World>, steps: seq<Step>, branch: string) {
    && |run| == |steps| + 1 && Init(run[0])
    && forall i | 0 <= i < |steps| :: Next(run[i], run[i + 1], branch, steps[i])
  }

  lemma {:induction false} RunSafe(run: seq<World>, steps: seq<Step>, branch: string, i: nat)
    requires IsRun(run, steps, branch) && i < |run|
    ensures Safe(run[i], branch)
    decreases i
  {
    if i > 0 {
      RunSafe(run, steps, branch, i - 1);
      StepKeepsSafe(run[i - 1], run[i], branch, steps[i - 1]);
    }
  }

  /** No follower is in the middle of a request. */
  ghost predicate Quiet(world: World) {
    forall id | id in world.followers && world.followers[id].Moving? ::
      world.followers[id].left == world.followers[id].all || world.followers[id].left == {}
  }

  /**
   However landings, followers and pushes interleave, whenever no request is half
   made, every commit a follower has overwritten was a head or is kept at its
   stray ref, and every landing ref one deleted was named for a commit that was a
   head or held one.
   */
  lemma NothingIsLost(run: seq<World>, steps: seq<Step>, branch: string, i: nat)
    requires IsRun(run, steps, branch) && i < |run| && Quiet(run[i])
    ensures forall commit | commit in run[i].overwritten :: Was(run[i].log, branch, commit) || Kept(run[i].refs, commit)
    ensures forall pair | pair in run[i].deleted :: Was(run[i].log, branch, pair.0) || Was(run[i].log, branch, pair.1)
  {
    RunSafe(run, steps, branch, i);
    forall commit | commit in run[i].overwritten ensures Was(run[i].log, branch, commit) || Kept(run[i].refs, commit) {
      forall id | id in run[i].followers && run[i].followers[id].Moving? ensures !Owes(run[i].followers[id], commit) {
        if run[i].followers[id].left == run[i].followers[id].all { NothingOwedYet(run[i], branch, id); }
      }
    }
  }

  ghost predicate StaysFound(world: World, after: World, branch: string, commit: Commit) {
    && (Was(world.log, branch, commit) ==> Was(after.log, branch, commit))
    && (Kept(world.refs, commit) ==> Kept(after.refs, commit))
  }

  /** What was a head, or is kept, is so from then on. */
  lemma {:induction false} KeptFromThenOn(run: seq<World>, steps: seq<Step>, branch: string, i: nat, j: nat,
                                          commit: Commit)
    requires IsRun(run, steps, branch) && i <= j < |run|
    ensures StaysFound(run[i], run[j], branch, commit)
    decreases j
  {
    if i < j {
      KeptFromThenOn(run, steps, branch, i, j - 1, commit);
      OneStepKeeps(run, steps, branch, j - 1, commit);
      FoundStill(run[i], run[j - 1], run[j], branch, commit);
    }
  }

  lemma OneStepKeeps(run: seq<World>, steps: seq<Step>, branch: string, i: nat, commit: Commit)
    requires IsRun(run, steps, branch) && i + 1 < |run|
    ensures StaysFound(run[i], run[i + 1], branch, commit)
  {
    RunSafe(run, steps, branch, i);
    StepKeepsKept(run[i], run[i + 1], branch, steps[i], commit);
  }

  lemma FoundStill(first: World, second: World, third: World, branch: string, commit: Commit)
    requires StaysFound(first, second, branch, commit) && StaysFound(second, third, branch, commit)
    ensures StaysFound(first, third, branch, commit)
  {
  }

  lemma StepKeepsKept(world: World, after: World, branch: string, step: Step, commit: Commit)
    requires Safe(world, branch) && Next(world, after, branch, step)
    ensures StaysFound(world, after, branch, commit)
  {
    match step
    case Land(more) => if Was(world.log, branch, commit) { WasStays(world.log, more, branch, commit); }
    case Swap(id, update) => SwapKeeps(world, branch, id, update);
    case _ =>
  }

  /** A follower moves the branch only to a commit that was a head. */
  lemma OnlyToHeads(run: seq<World>, steps: seq<Step>, branch: string, i: nat)
    requires IsRun(run, steps, branch) && i < |steps| && steps[i].Swap? && steps[i].update.ref.BranchRef?
    ensures steps[i].update.now.Some? && Was(run[i].log, branch, steps[i].update.now.value)
    ensures run[i + 1].refs == run[i].refs || Held(run[i + 1].refs, BranchRef) == steps[i].update.now
  {
    RunSafe(run, steps, branch, i);
    SwapMovesToHead(run[i], run[i + 1], branch, steps[i]);
  }

  lemma SwapMovesToHead(world: World, after: World, branch: string, step: Step)
    requires Safe(world, branch) && Next(world, after, branch, step) && step.Swap? && step.update.ref.BranchRef?
    ensures step.update.now.Some? && Was(world.log, branch, step.update.now.value)
    ensures after.refs == world.refs || Held(after.refs, BranchRef) == step.update.now
  {
    var follower := world.followers[step.id];
    assert Harmless(world.log, world.refs, branch, follower.head, follower.left, step.update);
  }

  // ---- one follower at a time ---------------------------------------------------------------------------

  /** Where each ref stands once root's branch has followed `head`. */
  ghost predicate Followed(log: seq<Move>, branch: string, head: Commit, refs: Refs, after: Refs) {
    forall ref: Ref :: PlacedRight(log, branch, head, refs, after, ref)
  }

  ghost predicate PlacedRight(log: seq<Move>, branch: string, head: Commit, refs: Refs, after: Refs, ref: Ref) {
    Held(after, ref) ==
    match ref
    case BranchRef => Some(head)
    case StrayRef(commit) =>
      if Held(refs, BranchRef) == Some(commit) && commit != head && !Was(log, branch, commit) && ref !in refs
      then Some(commit) else Held(refs, ref)
    case LandingRef(commit) => if commit == head || (ref in refs && Was(log, branch, refs[ref])) then None
                               else Held(refs, ref)
    case OtherRef(_) => Held(refs, ref)
  }

  /** Each update where its ref holds what it must, in turn. */
  function SwapAll(refs: Refs, updates: seq<Update>): Refs {
    if updates == [] then refs else Swapped(SwapAll(refs, updates[..|updates| - 1]), updates[|updates| - 1])
  }

  /** One update a ref. */
  ghost predicate OneEach(updates: seq<Update>) {
    forall i, j | 0 <= i < j < |updates| :: updates[i].ref != updates[j].ref
  }

  /** One update a ref, each naming what the ref holds. */
  ghost predicate Current(refs: Refs, updates: seq<Update>) {
    OneEach(updates) && forall i | 0 <= i < |updates| && !updates[i].ref.StrayRef? ::
      updates[i].was == Held(refs, updates[i].ref)
  }

  lemma {:induction false} SwapAllHolds(refs: Refs, updates: seq<Update>, ref: Ref)
    requires OneEach(updates)
    ensures (forall i | 0 <= i < |updates| :: updates[i].ref != ref) ==>
              Held(SwapAll(refs, updates), ref) == Held(refs, ref)
    ensures forall i | 0 <= i < |updates| && updates[i].ref == ref ::
              Held(SwapAll(refs, updates), ref) == if Held(refs, ref) == updates[i].was then updates[i].now
                                                   else Held(refs, ref)
    decreases |updates|
  {
    if updates != [] {
      var last := |updates| - 1;
      SwapAllHolds(refs, updates[..last], ref);
      if updates[last].ref == ref {
        forall i | 0 <= i < last ensures updates[..last][i].ref != ref { }
      } else {
        forall i | 0 <= i < |updates| && updates[i].ref == ref ensures i < last && updates[..last][i] == updates[i] { }
      }
    }
  }

  class RootRepo {
    var refs: Refs

    constructor (held: Refs)
      ensures refs == held
    {
      refs := held;
    }

    /** Each update where its ref holds what it must; which refs moved is reported. */
    method UpdateRefs(updates: seq<Update>) returns (moved: set<Ref>)
      modifies this
      ensures refs == SwapAll(old(refs), updates)
      ensures OneEach(updates) ==> MovedAre(old(refs), updates, |updates|, moved)
    {
      moved := {};
      var i := 0;
      while i < |updates|
        invariant 0 <= i <= |updates| && refs == SwapAll(old(refs), updates[..i])
        invariant OneEach(updates) ==> MovedAre(old(refs), updates, i, moved)
      {
        var update := updates[i];
        if OneEach(updates) { NotYet(old(refs), updates, i); }
        assert updates[..i + 1][..i] == updates[..i];
        ghost var before := moved;
        if Held(refs, update.ref) == update.was {
          refs := PutRef(refs, update.ref, update.now);
          moved := moved + {update.ref};
        }
        if OneEach(updates) { MovedMore(old(refs), updates, i, before, moved); }
        i := i + 1;
      }
      assert updates[..i] == updates;
    }
  }

  /** Exactly the refs that held what their update names are reported moved, of the first `upto`. */
  ghost predicate MovedAre(refs: Refs, updates: seq<Update>, upto: nat, moved: set<Ref>) {
    && upto <= |updates|
    && (forall i | 0 <= i < upto :: updates[i].ref in moved <==> Held(refs, updates[i].ref) == updates[i].was)
    && forall ref | ref in moved :: exists i | 0 <= i < upto :: updates[i].ref == ref
  }

  /** A ref holds what it did until its one update. */
  lemma NotYet(refs: Refs, updates: seq<Update>, i: nat)
    requires OneEach(updates) && i < |updates|
    ensures Held(SwapAll(refs, updates[..i]), updates[i].ref) == Held(refs, updates[i].ref)
  {
    SwapAllHolds(refs, updates[..i], updates[i].ref);
  }

  lemma MovedMore(refs: Refs, updates: seq<Update>, i: nat, before: set<Ref>, after: set<Ref>)
    requires OneEach(updates) && i < |updates| && MovedAre(refs, updates, i, before)
    requires after == if Held(refs, updates[i].ref) == updates[i].was then before + {updates[i].ref} else before
    ensures MovedAre(refs, updates, i + 1, after)
  {
    assert updates[i].ref !in before;
    forall ref | ref in after ensures exists k | 0 <= k < i + 1 :: updates[k].ref == ref {
      if ref in before {
        var k :| 0 <= k < i && updates[k].ref == ref;
      }
    }
  }

  /** The commits asked about that were heads. */
  ghost function Landed(log: seq<Move>, branch: string, head: Commit, refs: Refs): set<Commit> {
    set commit | commit in Asked(head, refs) && Was(log, branch, commit)
  }

  ghost predicate Planned(log: seq<Move>, branch: string, head: Commit, refs: Refs, updates: seq<Update>) {
    && Current(refs, updates)
    && forall update :: update in updates <==> update in Updates(head, refs, Landed(log, branch, head, refs))
  }

  /** The deletions planned for the landing refs in `seen`, after `first`. */
  ghost predicate PlannedFor(refs: Refs, first: seq<Update>, updates: seq<Update>, seen: set<Ref>, landed: set<Commit>)
    requires forall ref | ref in seen :: ref in refs
  {
    && Current(refs, updates) && (forall update | update in first :: update.ref !in seen)
    && (forall update | update in first :: update in updates)
    && (forall ref | ref in seen && refs[ref] in landed :: Update(ref, Held(refs, ref), None) in updates)
    && (forall update | update in updates :: update in first || DeletesOne(refs, seen, landed, update))
  }

  ghost predicate DeletesOne(refs: Refs, seen: set<Ref>, landed: set<Commit>, update: Update)
    requires forall ref | ref in seen :: ref in refs
  {
    update.ref in seen && refs[update.ref] in landed && update == Update(update.ref, Held(refs, update.ref), None)
  }

  lemma PlannedMore(refs: Refs, first: seq<Update>, updates: seq<Update>, seen: set<Ref>, landed: set<Commit>, ref: Ref,
                    more: seq<Update>)
    requires (forall other | other in seen :: other in refs) && ref in refs && ref !in seen
    requires PlannedFor(refs, first, updates, seen, landed) && forall update | update in first :: update.ref != ref
    requires more == if refs[ref] in landed then updates + [Update(ref, Held(refs, ref), None)] else updates
    ensures PlannedFor(refs, first, more, seen + {ref}, landed)
  {
    forall i | 0 <= i < |updates| ensures updates[i].ref != ref { assert updates[i] in updates; }
    forall update | update in updates ensures update in first || DeletesOne(refs, seen + {ref}, landed, update) {
      assert update in first || DeletesOne(refs, seen, landed, update);
    }
  }

  lemma PlannedAll(log: seq<Move>, branch: string, head: Commit, refs: Refs, first: seq<Update>, updates: seq<Update>)
    requires PlannedFor(refs, first, updates, OtherLandings(head, refs), Landed(log, branch, head, refs))
    requires forall update :: update in first <==>
               || (update in Updates(head, refs, Landed(log, branch, head, refs)) && !update.ref.LandingRef?)
               || (LandingRef(head) in refs && update == Update(LandingRef(head), Held(refs, LandingRef(head)), None))
    ensures Planned(log, branch, head, refs, updates)
  {
    var landed := Landed(log, branch, head, refs);
    forall update ensures update in updates <==> update in Updates(head, refs, landed) {
      if update in updates && update !in first { assert DeletesOne(refs, OtherLandings(head, refs), landed, update); }
    }
  }

  /** The updates a follower sends, each landed commit's landing ref among those it deletes. */
  method Plan(project: ProjectDO, branch: string, head: Commit, refs: Refs) returns (updates: seq<Update>)
    requires project.Valid()
    ensures Planned(project.log, branch, head, refs, updates)
  {
    ghost var landed := Landed(project.log, branch, head, refs);
    updates := PlanBranch(project, branch, head, refs);
    if LandingRef(head) in refs { updates := updates + [Update(LandingRef(head), Held(refs, LandingRef(head)), None)]; }
    ghost var first := updates;
    var left, seen := OtherLandings(head, refs), {};
    while left != {}
      invariant left !! seen && left + seen == OtherLandings(head, refs)
      invariant PlannedFor(refs, first, updates, seen, landed)
      decreases left
    {
      var ref :| ref in left;
      var was := project.WasHead(branch, ROOT, refs[ref]);
      assert refs[ref] in Asked(head, refs);
      ghost var before := updates;
      if was { updates := updates + [Update(ref, Held(refs, ref), None)]; }
      PlannedMore(refs, first, before, seen, landed, ref, updates);
      left, seen := left - {ref}, seen + {ref};
    }
    assert seen == OtherLandings(head, refs);
    PlannedAll(project.log, branch, head, refs, first, updates);
  }

  method PlanBranch(project: ProjectDO, branch: string, head: Commit, refs: Refs) returns (updates: seq<Update>)
    requires project.Valid()
    ensures Current(refs, updates)
    ensures forall update :: update in updates <==>
              update in Updates(head, refs, Landed(project.log, branch, head, refs)) && !update.ref.LandingRef?
  {
    updates := [];
    var held := Held(refs, BranchRef);
    if held != Some(head) {
      updates := [Update(BranchRef, held, Some(head))];
      if held.Some? {
        var was := project.WasHead(branch, ROOT, held.value);
        if !was { updates := updates + [Update(StrayRef(held.value), None, held)]; }
      }
    }
  }

  lemma FollowedByPlan(log: seq<Move>, branch: string, head: Commit, refs: Refs, updates: seq<Update>)
    requires Planned(log, branch, head, refs, updates)
    ensures Followed(log, branch, head, refs, SwapAll(refs, updates))
  {
    forall ref: Ref ensures PlacedRight(log, branch, head, refs, SwapAll(refs, updates), ref) {
      OnePlaced(log, branch, head, refs, updates, ref);
    }
  }

  lemma NotUpdated(refs: Refs, updates: seq<Update>, ref: Ref)
    requires Current(refs, updates) && forall update | update in updates :: update.ref != ref
    ensures Held(SwapAll(refs, updates), ref) == Held(refs, ref)
  {
    forall i | 0 <= i < |updates| ensures updates[i].ref != ref { assert updates[i] in updates; }
    SwapAllHolds(refs, updates, ref);
  }

  lemma IsUpdated(refs: Refs, updates: seq<Update>, update: Update)
    requires Current(refs, updates) && update in updates
    ensures Held(SwapAll(refs, updates), update.ref) == if Held(refs, update.ref) == update.was then update.now
                                                        else Held(refs, update.ref)
  {
    var i :| 0 <= i < |updates| && updates[i] == update;
    SwapAllHolds(refs, updates, update.ref);
  }

  lemma OnePlaced(log: seq<Move>, branch: string, head: Commit, refs: Refs, updates: seq<Update>, ref: Ref)
    requires Planned(log, branch, head, refs, updates)
    ensures PlacedRight(log, branch, head, refs, SwapAll(refs, updates), ref)
  {
    var landed := Landed(log, branch, head, refs);
    if update :| update in Updates(head, refs, landed) && update.ref == ref {
      IsUpdated(refs, updates, update);
    } else {
      NotUpdated(refs, updates, ref);
      MustUpdate(head, refs, landed, ref);
    }
  }

  /** What not being updated means for a ref. */
  lemma MustUpdate(head: Commit, refs: Refs, landed: set<Commit>, ref: Ref)
    requires forall update | update in Updates(head, refs, landed) :: update.ref != ref
    ensures match ref
            case BranchRef => Held(refs, ref) == Some(head)
            case StrayRef(commit) => !(Held(refs, BranchRef) == Some(commit) && commit != head && commit !in landed)
            case LandingRef(commit) => ref !in refs || (commit != head && refs[ref] !in landed)
            case OtherRef(_) => true
  {
    var held := Held(refs, BranchRef);
    match ref
    case BranchRef =>
      assert held != Some(head) ==> Update(ref, held, Some(head)) in Updates(head, refs, landed);
    case StrayRef(commit) =>
      assert held == Some(commit) && commit != head && commit !in landed ==>
               Update(ref, None, held) in Updates(head, refs, landed);
    case LandingRef(commit) =>
      assert ref in refs && (commit == head || refs[ref] in landed) ==>
               Update(ref, Held(refs, ref), None) in Updates(head, refs, landed);
    case OtherRef(_) =>
  }

  // ---- one attempt, and all of them ---------------------------------------------------------------------

  /** One attempt: the refs it read, what they were when its request came, and what that left. */
  datatype Attempt = Attempt(seen: Refs, met: Refs, after: Refs)

  /** The request was the plan for what was read, made on what the refs were by then. */
  ghost predicate Tried(log: seq<Move>, branch: string, head: Commit, attempt: Attempt) {
    exists updates ::
      Planned(log, branch, head, attempt.seen, updates) && attempt.after == SwapAll(attempt.met, updates)
  }

  /** The branch read was at the head, or still held what was read. */
  ghost predicate Reached(head: Commit, attempt: Attempt) {
    Held(attempt.seen, BranchRef) == Some(head) || Held(attempt.met, BranchRef) == Held(attempt.seen, BranchRef)
  }

  /** An attempt that found the branch where it had read it leaves it at the head. */
  lemma ReachedIsThere(log: seq<Move>, branch: string, head: Commit, attempt: Attempt)
    requires Tried(log, branch, head, attempt) && Held(attempt.met, BranchRef) == Held(attempt.seen, BranchRef)
    ensures Held(attempt.after, BranchRef) == Some(head)
  {
    var updates :| Planned(log, branch, head, attempt.seen, updates) && attempt.after == SwapAll(attempt.met, updates);
    BranchUpdate(log, branch, head, attempt.seen, updates);
    SwapAllHolds(attempt.met, updates, BranchRef);
  }

  /** One that found the branch elsewhere leaves it there. */
  lemma NotReachedIsElsewhere(log: seq<Move>, branch: string, head: Commit, attempt: Attempt)
    requires Tried(log, branch, head, attempt) && Held(attempt.met, BranchRef) != Held(attempt.seen, BranchRef)
    ensures Held(attempt.after, BranchRef) == Held(attempt.met, BranchRef)
  {
    var updates :| Planned(log, branch, head, attempt.seen, updates) && attempt.after == SwapAll(attempt.met, updates);
    BranchUpdate(log, branch, head, attempt.seen, updates);
    SwapAllHolds(attempt.met, updates, BranchRef);
  }

  /** A plan moves the branch if and only if it was not read at the head, from what was read. */
  lemma BranchUpdate(log: seq<Move>, branch: string, head: Commit, seen: Refs, updates: seq<Update>)
    requires Planned(log, branch, head, seen, updates)
    ensures Held(seen, BranchRef) == Some(head) ==> forall i | 0 <= i < |updates| :: updates[i].ref != BranchRef
    ensures Held(seen, BranchRef) != Some(head) ==>
              exists i :: 0 <= i < |updates| && updates[i] == Update(BranchRef, Held(seen, BranchRef), Some(head))
  {
    if Held(seen, BranchRef) != Some(head) {
      assert Update(BranchRef, Held(seen, BranchRef), Some(head)) in updates;
    } else {
      forall i | 0 <= i < |updates| ensures updates[i].ref != BranchRef { assert updates[i] in updates; }
    }
  }

  /** Nobody having moved the refs meanwhile, an attempt follows. */
  lemma UndisturbedFollows(log: seq<Move>, branch: string, head: Commit, attempt: Attempt)
    requires Tried(log, branch, head, attempt) && attempt.met == attempt.seen
    ensures Reached(head, attempt) && Followed(log, branch, head, attempt.seen, attempt.after)
  {
    var updates :| Planned(log, branch, head, attempt.seen, updates) && attempt.after == SwapAll(attempt.met, updates);
    FollowedByPlan(log, branch, head, attempt.seen, updates);
  }

  /** Attempts one after another, each meeting what it read unless someone else moved a ref. */
  ghost predicate InTurn(log: seq<Move>, branch: string, head: Commit, refs: Refs, others: nat -> Option<Refs>,
                         tries: seq<Attempt>)
  {
    && (tries != [] ==> tries[0].seen == refs)
    && (forall i | 0 < i < |tries| :: tries[i].seen == tries[i - 1].after)
    && (forall i: nat | i < |tries| :: Tried(log, branch, head, tries[i]))
    && forall i: nat | i < |tries| :: tries[i].met == tries[i].seen || others(i) == Some(tries[i].met)
  }

  lemma OneMoreTry(log: seq<Move>, branch: string, head: Commit, refs: Refs, others: nat -> Option<Refs>,
                   tries: seq<Attempt>, attempt: Attempt)
    requires InTurn(log, branch, head, refs, others, tries) && Tried(log, branch, head, attempt)
    requires attempt.seen == if tries == [] then refs else tries[|tries| - 1].after
    requires attempt.met == attempt.seen || others(|tries|) == Some(attempt.met)
    ensures InTurn(log, branch, head, refs, others, tries + [attempt])
  {
  }

  /** Whether the branch was reached is what the report of its move says. */
  lemma ReachedIsReported(log: seq<Move>, branch: string, head: Commit, attempt: Attempt, updates: seq<Update>,
                          moved: set<Ref>)
    requires Planned(log, branch, head, attempt.seen, updates) && MovedAre(attempt.met, updates, |updates|, moved)
    ensures Reached(head, attempt) <==> Held(attempt.seen, BranchRef) == Some(head) || BranchRef in moved
  {
    BranchUpdate(log, branch, head, attempt.seen, updates);
  }

  lemma NothingToDo(log: seq<Move>, branch: string, head: Commit, seen: Refs)
    requires Planned(log, branch, head, seen, [])
    ensures Held(seen, BranchRef) == Some(head)
  {
    BranchUpdate(log, branch, head, seen, []);
  }

  /** One attempt: plan, and ask for what is planned; `other` is what someone else left the refs at in between. */
  method TryOnce(project: ProjectDO, repo: RootRepo, branch: string, head: Commit, other: Option<Refs>)
    returns (reached: bool, ghost attempt: Attempt)
    requires project.Valid()
    modifies repo
    ensures attempt.seen == old(repo.refs) && repo.refs == attempt.after && Tried(project.log, branch, head, attempt)
    ensures attempt.met == attempt.seen || other == Some(attempt.met)
    ensures reached <==> Reached(head, attempt)
  {
    var refs := repo.refs;
    var updates := Plan(project, branch, head, refs);
    attempt := Attempt(refs, refs, refs);
    if updates == [] {
      NothingToDo(project.log, branch, head, refs);
      return true, attempt;
    }
    if other.Some? { repo.refs := other.value; }
    ghost var met := repo.refs;
    var moved := repo.UpdateRefs(updates);
    attempt := Attempt(refs, met, repo.refs);
    ReachedIsReported(project.log, branch, head, attempt, updates, moved);
    reached := Held(refs, BranchRef) == Some(head) || BranchRef in moved;
  }

  /**
   Bring the branch to the head the log gives; `others` says what someone else left the refs at
   while attempt `i` ran, if anyone moved one. Attempts follow one another until
   one reaches the branch, at most so many; it is behind if and only if the last
   did not. With nobody else moving refs the first follows: the branch stands at
   the head, no landed commit's landing ref is left, what the branch held is kept
   if it was never a head, and no other ref moves.
   */
  method FollowRoot(project: ProjectDO, repo: RootRepo, branch: string, others: nat -> Option<Refs>)
    returns (behind: bool, ghost tries: seq<Attempt>)
    requires project.Valid()
    modifies repo
    ensures Head(project.log, branch) == None ==> !behind && repo.refs == old(repo.refs)
    ensures Head(project.log, branch).Some? ==>
              var head := Head(project.log, branch).value;
              && 0 < |tries| <= ATTEMPTS && InTurn(project.log, branch, head, old(repo.refs), others, tries)
              && repo.refs == tries[|tries| - 1].after
              && (forall i | 0 <= i < |tries| - 1 :: !Reached(head, tries[i]))
              && (behind <==> !Reached(head, tries[|tries| - 1]))
              && (behind ==> |tries| == ATTEMPTS)
    ensures Head(project.log, branch).Some? && others(0) == None ==>
              !behind && Followed(project.log, branch, Head(project.log, branch).value, old(repo.refs), repo.refs)
  {
    tries := [];
    var attempt: nat := 0;
    while attempt < ATTEMPTS
      invariant attempt <= ATTEMPTS && attempt == |tries|
      invariant repo.refs == if tries == [] then old(repo.refs) else tries[|tries| - 1].after
      invariant attempt > 0 ==> Head(project.log, branch).Some? && others(0).Some?
      invariant Head(project.log, branch).Some? ==>
                  && InTurn(project.log, branch, Head(project.log, branch).value, old(repo.refs), others, tries)
                  && forall i | 0 <= i < |tries| :: !Reached(Head(project.log, branch).value, tries[i])
      decreases ATTEMPTS - attempt
    {
      project.HeadsAreLists(branch);
      var head := Get(project.HeadsOf(branch), ROOT);
      if head.None? { return false, tries; }
      var reached, latest := TryOnce(project, repo, branch, head.value, others(attempt));
      OneMoreTry(project.log, branch, head.value, old(repo.refs), others, tries, latest);
      if latest.met == latest.seen { UndisturbedFollows(project.log, branch, head.value, latest); }
      tries := tries + [latest];
      if reached { return false, tries; }
      attempt := attempt + 1;
    }
    behind := true;
  }

  // ---- two followers at once ------------------------------------------------------------------------------

  const MAIN := "main"
  const FIRST := Move(MAIN, ROOT, None, Some("a"))
  const SECOND := Move(MAIN, ROOT, Some("a"), Some("b"))

  /** `a` has landed; two followers, where they are. */
  function After(log: seq<Move>, refs: Refs, followers: map<nat, Follower>, overwritten: set<Commit>): World {
    World(log, refs, followers, overwritten, {})
  }

  ghost predicate Leads(world: World, after: World, steps: seq<Step>)
    decreases |steps|
  {
    if steps == [] then world == after
    else exists next :: Next(world, next, MAIN, steps[0]) && Leads(next, after, steps[1..])
  }

  lemma Then(world: World, next: World, after: World, step: Step, rest: seq<Step>) returns (steps: seq<Step>)
    requires Next(world, next, MAIN, step) && Leads(next, after, rest)
    ensures Leads(world, after, steps)
  {
    steps := [step] + rest;
    assert steps[0] == step && steps[1..] == rest;
  }

  lemma {:induction false} ThenAll(world: World, next: World, after: World, first: seq<Step>, rest: seq<Step>)
    requires Leads(world, next, first) && Leads(next, after, rest)
    ensures Leads(world, after, first + rest)
    decreases |first|
  {
    if first == [] {
      assert first + rest == rest;
    } else {
      var middle :| Next(world, middle, MAIN, first[0]) && Leads(middle, next, first[1..]);
      ThenAll(middle, next, after, first[1..], rest);
      assert (first + rest)[1..] == first[1..] + rest;
    }
  }

  lemma Logs()
    ensures Chained([FIRST]) && Chained([FIRST, SECOND])
    ensures Head([FIRST], MAIN) == Some("a") && Head([FIRST, SECOND], MAIN) == Some("b")
    ensures Was([FIRST, SECOND], MAIN, "b")
  {
    var none: seq<Move> := [];
    Logged(none, FIRST);
    assert none + [FIRST] == [FIRST];
    assert Replay(none, MAIN) == map[];
    assert Replay([FIRST], MAIN) == map[ROOT := "a"];
    Logged([FIRST], SECOND);
    assert [FIRST] + [SECOND] == [FIRST, SECOND];
    assert Replay([FIRST, SECOND], MAIN) == map[ROOT := "b"];
    HeadWas([FIRST, SECOND], MAIN);
  }

  /** One follower reads the head `a`, and `b` lands. */
  lemma OneReads() returns (steps: seq<Step>)
    ensures Leads(After([FIRST], map[], map[], {}), After(BOTH, map[], map[1 := ReadHead(0, "a")], {}), steps)
  {
    Logs();
    var w0, w1 := After([FIRST], map[], map[], {}), After([FIRST], map[], map[1 := Reading(0)], {});
    var w2, w3 := After([FIRST], map[], map[1 := ReadHead(0, "a")], {}),
        After([FIRST, SECOND], map[], map[1 := ReadHead(0, "a")], {});
    assert [FIRST] + [SECOND] == [FIRST, SECOND];
    steps := Then(w2, w3, w3, Land([SECOND]), []);
    steps := Then(w1, w2, w3, SeeHead(1), steps);
    steps := Then(w0, w1, w3, Start(1), steps);
  }

  lemma UpdatesOf()
    ensures Asked("b", map[]) == {} && Updates("b", map[], {}) == {Update(BranchRef, None, Some("b"))}
    ensures Asked("a", map[BranchRef := "b"]) == {"b"}
    ensures Updates("a", map[BranchRef := "b"], {"b"}) == {TO_A}
  {
    assert "a" != "b";
    assert OtherLandings("b", map[]) == {} && OtherLandings("a", map[BranchRef := "b"]) == {};
  }

  const BOTH := [FIRST, SECOND]
  const TO_B := Update(BranchRef, None, Some("b"))
  const TO_A := Update(BranchRef, Some("b"), Some("a"))

  /** Another reads the head `b`, and the refs. */
  lemma AnotherReads() returns (steps: seq<Step>)
    ensures Leads(After(BOTH, map[], map[1 := ReadHead(0, "a")], {}),
                  After(BOTH, map[], map[1 := ReadHead(0, "a"), 2 := Asking(0, "b", map[], {}, {})], {}), steps)
  {
    Logs();
    UpdatesOf();
    var one := ReadHead(0, "a");
    var w0, w1 := After(BOTH, map[], map[1 := one], {}), After(BOTH, map[], map[1 := one, 2 := Reading(0)], {});
    var w2 := After(BOTH, map[], map[1 := one, 2 := ReadHead(0, "b")], {});
    var w3 := After(BOTH, map[], map[1 := one, 2 := Asking(0, "b", map[], {}, {})], {});
    steps := Then(w2, w3, w3, SeeRefs(2), []);
    steps := Then(w1, w2, w3, SeeHead(2), steps);
    steps := Then(w0, w1, w3, Start(2), steps);
  }

  /** A follower with one update to make, and what making it comes to. */
  lemma OneUpdate(world: World, id: nat, head: Commit, seen: Refs, landed: set<Commit>, update: Update, made: World,
                  after: World)
    returns (steps: seq<Step>)
    requires id in world.followers && world.followers[id] == Asking(0, head, seen, {}, landed)
    requires Updates(head, seen, landed) == {update} && update.ref == BranchRef
             && Held(world.refs, BranchRef) == update.was
    requires made == Put(world, id, Moving(0, head, seen, {update}, {update}, false))
    requires after == Put(Swaps(made, id, update), id, Done(false))
    ensures Leads(world, after, steps)
  {
    var swapped := Swaps(made, id, update);
    assert swapped.followers[id] == Moving(0, head, seen, {update}, {update} - {update}, true);
    steps := Then(swapped, after, after, Finish(id), []);
    steps := Then(made, swapped, after, Swap(id, update), steps);
    steps := Then(world, made, after, Decide(id), steps);
  }

  /** It moves the branch to `b`, and is done. */
  lemma AnotherMoves() returns (steps: seq<Step>)
    ensures Leads(After(BOTH, map[], map[1 := ReadHead(0, "a"), 2 := Asking(0, "b", map[], {}, {})], {}),
                  After(BOTH, map[BranchRef := "b"], map[1 := ReadHead(0, "a"), 2 := Done(false)], {}), steps)
  {
    UpdatesOf();
    var one := ReadHead(0, "a");
    var world := After(BOTH, map[], map[1 := one, 2 := Asking(0, "b", map[], {}, {})], {});
    var made := After(BOTH, map[], map[1 := one, 2 := Moving(0, "b", map[], {TO_B}, {TO_B}, false)], {});
    var after := After(BOTH, map[BranchRef := "b"], map[1 := one, 2 := Done(false)], {});
    assert made == Put(world, 2, Moving(0, "b", map[], {TO_B}, {TO_B}, false));
    assert after == Put(Swaps(made, 2, TO_B), 2, Done(false));
    steps := OneUpdate(world, 2, "b", map[], {}, TO_B, made, after);
  }

  const SEEN: Refs := map[BranchRef := "b"]
  const ASKING := Asking(0, "a", SEEN, {}, {"b"})

  /** The first follower at `first`, and the other done. */
  function Beside(refs: Refs, first: Follower, overwritten: set<Commit>): World {
    After(BOTH, refs, map[1 := first, 2 := Done(false)], overwritten)
  }

  lemma PutBeside(refs: Refs, first: Follower, next: Follower, overwritten: set<Commit>)
    ensures Put(Beside(refs, first, overwritten), 1, next) == Beside(refs, next, overwritten)
  {
  }

  /** The first reads the refs, and learns that `b` was a head. */
  lemma FirstAsks() returns (steps: seq<Step>)
    ensures Leads(Beside(SEEN, ReadHead(0, "a"), {}), Beside(SEEN, ASKING, {}), steps)
  {
    Logs();
    UpdatesOf();
    var w0, w1, w2 := Beside(SEEN, ReadHead(0, "a"), {}), Beside(SEEN, Asking(0, "a", SEEN, {"b"}, {}), {}),
        Beside(SEEN, ASKING, {});
    var none: set<Commit> := {};
    assert {"b"} - {"b"} == none && none + {"b"} == {"b"};
    PutBeside(SEEN, Asking(0, "a", SEEN, {"b"}, none), ASKING, {});
    PutBeside(SEEN, ReadHead(0, "a"), Asking(0, "a", SEEN, {"b"}, none), {});
    steps := Then(w1, w2, w2, Ask(1, "b"), []);
    steps := Then(w0, w1, w2, SeeRefs(1), steps);
  }

  /** Moving the branch from `b` back to `a` overwrites `b`. */
  lemma BranchMovedBack(moving: Follower)
    requires moving.Moving? && moving.left == {TO_A}
    ensures Put(Swaps(Beside(SEEN, moving, {}), 1, TO_A), 1, Done(false))
              == Beside(map[BranchRef := "a"], Done(false), {"b"})
  {
    assert Swapped(SEEN, TO_A) == map[BranchRef := "a"];
  }

  /** It moves the branch to the head it read. */
  lemma FirstMoves() returns (steps: seq<Step>)
    ensures Leads(Beside(SEEN, ASKING, {}), Beside(map[BranchRef := "a"], Done(false), {"b"}), steps)
  {
    UpdatesOf();
    var moving := Moving(0, "a", SEEN, {TO_A}, {TO_A}, false);
    PutBeside(SEEN, ASKING, moving, {});
    BranchMovedBack(moving);
    steps := OneUpdate(Beside(SEEN, ASKING, {}), 1, "a", SEEN, {"b"}, TO_A, Beside(SEEN, moving, {}),
                       Beside(map[BranchRef := "a"], Done(false), {"b"}));
  }

  /**
   Two followers at once need not converge: both end content, and the branch
   stands at a head the list has left.
   */
  lemma OlderHeadMovesBack() returns (steps: seq<Step>, after: World)
    ensures Init(After([FIRST], map[], map[], {})) && Leads(After([FIRST], map[], map[], {}), after, steps)
    ensures after.followers == map[1 := Done(false), 2 := Done(false)]
    ensures Head(after.log, MAIN) == Some("b") && Held(after.refs, BranchRef) == Some("a")
  {
    Logs();
    var w0, w1 := After([FIRST], map[], map[], {}), After(BOTH, map[], map[1 := ReadHead(0, "a")], {});
    var w2 := After(BOTH, map[], map[1 := ReadHead(0, "a"), 2 := Asking(0, "b", map[], {}, {})], {});
    var w3, w4 := Beside(SEEN, ReadHead(0, "a"), {}), Beside(SEEN, ASKING, {});
    after := Beside(map[BranchRef := "a"], Done(false), {"b"});
    var more := FirstMoves();
    steps := FirstAsks();
    ThenAll(w3, w4, after, steps, more);
    more := steps + more;
    steps := AnotherMoves();
    ThenAll(w2, w3, after, steps, more);
    more := steps + more;
    steps := AnotherReads();
    ThenAll(w1, w2, after, steps, more);
    more := steps + more;
    steps := OneReads();
    ThenAll(w0, w1, after, steps, more);
    steps := steps + more;
  }
}
