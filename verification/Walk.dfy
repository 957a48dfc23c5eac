/** Ancestry, by walking commits directly. */
module Walk {
  // A merge's checks by walking commits and trees directly: whether one commit is
  // another's ancestor, and what a root commit holds, pin by pin.

  import opened Wrappers

  type Id = string

  // ---- ancestry ----------------------------------------------------------------------------------

  datatype CommitFacts = CommitFacts(parents: seq<Id>, committedAt: int)

  type Read = Id -> Option<CommitFacts>

  datatype Answer = Yes | No | AskGit

  const WALK_LIMIT := 200
  const CLOCK_SKEW_SECONDS := 24 * 60 * 60

  function ParentsOf(read: Read, at: Id): seq<Id> { if read(at).Some? then read(at).value.parents else [] }

  /** `to` is at most `steps` parents above `from`. */
  ghost predicate Above(read: Read, from: Id, to: Id, steps: nat)
    decreases steps
  {
    from == to || (steps > 0 && exists parent :: parent in ParentsOf(read, from) && Above(read, parent, to, steps - 1))
  }

  ghost predicate Ancestor(read: Read, older: Id, newer: Id) { exists steps: nat :: Above(read, newer, older, steps) }

  /** A way up to a parent of `to` on which every commit walked through is dated `floor` or later. */
  ghost predicate Walked(read: Read, from: Id, to: Id, floor: int, steps: nat)
    decreases steps
  {
    && read(from).Some?
    && (|| to in read(from).value.parents
        || (steps > 0 && read(from).value.committedAt >= floor
            && exists parent :: parent in read(from).value.parents && Walked(read, parent, to, floor, steps - 1)))
  }

  ghost predicate WalkedTo(read: Read, older: Id, newer: Id, floor: int) {
    exists steps: nat :: Walked(read, newer, older, floor, steps)
  }

  lemma {:induction false} OneFurther(read: Read, from: Id, via: Id, to: Id, steps: nat)
    requires Above(read, from, via, steps) && to in ParentsOf(read, via)
    ensures Above(read, from, to, steps + 1)
    decreases steps
  {
    if from == via {
      assert Above(read, to, to, steps);
    } else {
      var parent :| parent in ParentsOf(read, from) && Above(read, parent, via, steps - 1);
      OneFurther(read, parent, via, to, steps - 1);
    }
  }

  /** Nothing still to be looked at, and `older` met nowhere. */
  ghost predicate Closed(read: Read, older: Id, floor: int, seen: set<Id>, frontier: seq<Id>) {
    forall at | at in seen ::
      && read(at).Some? && older !in read(at).value.parents
      && (read(at).value.committedAt >= floor ==>
            forall parent | parent in read(at).value.parents :: parent in seen || parent in frontier)
  }

  lemma {:induction false} NotWalked(read: Read, older: Id, floor: int, seen: set<Id>, at: Id, steps: nat)
    requires Closed(read, older, floor, seen, []) && at in seen
    ensures !Walked(read, at, older, floor, steps)
    decreases steps
  {
    if Walked(read, at, older, floor, steps) {
      var parent :| parent in read(at).value.parents && Walked(read, parent, older, floor, steps - 1);
      NotWalked(read, older, floor, seen, parent, steps - 1);
    }
  }

  ghost predicate MetAll(read: Read, newer: Id, floor: int, met: set<Id>) {
    forall at | at in met :: Met(read, newer, at, floor)
  }

  /** A walk from `newer` meets a commit that cannot be read, or more commits than it may. */
  ghost predicate GoesTooFar(read: Read, newer: Id, floor: int) {
    || (exists at :: Met(read, newer, at, floor) && read(at).None?)
    || (exists met: set<Id> :: |met| > WALK_LIMIT && MetAll(read, newer, floor, met))
  }

  /** What the walk keeps: all it has seen is closed but for what waits, and it met all of it on the way. */
  ghost predicate Walking(read: Read, older: Id, newer: Id, floor: int, seen: set<Id>, frontier: seq<Id>) {
    && (newer in seen || newer in frontier) && Closed(read, older, floor, seen, frontier)
    && MetAll(read, newer, floor, seen) && forall at | at in frontier :: Met(read, newer, at, floor)
  }

  lemma SeenAlready(read: Read, older: Id, newer: Id, floor: int, seen: set<Id>, rest: seq<Id>, at: Id)
    requires Walking(read, older, newer, floor, seen, rest + [at]) && at in seen
    ensures Walking(read, older, newer, floor, seen, rest)
  {
  }

  lemma MetSoFar(read: Read, older: Id, newer: Id, floor: int, seen: set<Id>, rest: seq<Id>, at: Id)
    requires Walking(read, older, newer, floor, seen, rest + [at])
    ensures Met(read, newer, at, floor) && MetAll(read, newer, floor, seen + {at})
  {
    assert at in rest + [at];
  }

  lemma GoesOn(read: Read, older: Id, newer: Id, floor: int, seen: set<Id>, rest: seq<Id>, at: Id, commit: CommitFacts,
               next: seq<Id>)
    requires Walking(read, older, newer, floor, seen, rest + [at])
    requires read(at) == Some(commit) && older !in commit.parents
    requires next == if commit.committedAt < floor then rest else rest + commit.parents
    ensures Walking(read, older, newer, floor, seen + {at}, next)
  {
    MetSoFar(read, older, newer, floor, seen, rest, at);
    forall parent | parent in commit.parents && commit.committedAt >= floor ensures Met(read, newer, parent, floor) {
      var steps: nat :| Way(read, newer, at, floor, steps);
      WayFurther(read, newer, at, parent, floor, steps);
    }
  }

  lemma WalkedOut(read: Read, older: Id, newer: Id, floor: int, seen: set<Id>)
    requires Walking(read, older, newer, floor, seen, [])
    ensures !WalkedTo(read, older, newer, floor)
  {
    forall steps: nat ensures !Walked(read, newer, older, floor, steps) {
      NotWalked(read, older, floor, seen, newer, steps);
    }
  }

  lemma WalkReaches(read: Read, older: Id, newer: Id, floor: int, at: Id)
    requires Met(read, newer, at, floor) && read(at).Some? && older in read(at).value.parents
    ensures WalkedTo(read, older, newer, floor) && Ancestor(read, older, newer)
  {
    var steps: nat :| Way(read, newer, at, floor, steps);
    WayReaches(read, newer, at, older, floor, steps);
  }

  /**
   From `newer` back through parents, turning round at commits too old to matter.
   An answer means just what is said here, and there is one unless the walk goes too far.
   */
  method IsAncestor(read: Read, older: Id, newer: Id) returns (answer: Answer)
    ensures answer != AskGit ==> read(older).Some?
    ensures answer != AskGit ==>
              (answer == Yes <==>
                 older == newer || WalkedTo(read, older, newer, read(older).value.committedAt - CLOCK_SKEW_SECONDS))
    ensures answer == Yes ==> Ancestor(read, older, newer)
    ensures answer == AskGit ==>
              read(older).None? || GoesTooFar(read, newer, read(older).value.committedAt - CLOCK_SKEW_SECONDS)
  {
    var target := read(older);
    if target.None? { return AskGit; }
    if older == newer {
      assert Above(read, newer, older, 0);
      return Yes;
    }
    var floor := target.value.committedAt - CLOCK_SKEW_SECONDS;
    var seen: set<Id>, frontier := {}, [newer];
    assert Way(read, newer, newer, floor, 0);
    while frontier != []
      invariant |seen| <= WALK_LIMIT && Walking(read, older, newer, floor, seen, frontier)
      decreases WALK_LIMIT + 1 - |seen|, |frontier|
    {
      var at, rest := frontier[|frontier| - 1], frontier[..|frontier| - 1];
      assert frontier == rest + [at];
      if at in seen {
        SeenAlready(read, older, newer, floor, seen, rest, at);
        frontier := rest;
        continue;
      }
      MetSoFar(read, older, newer, floor, seen, rest, at);
      if |seen + {at}| > WALK_LIMIT { return AskGit; }
      var commit := read(at);
      if commit.None? { return AskGit; }
      if older in commit.value.parents {
        WalkReaches(read, older, newer, floor, at);
        return Yes;
      }
      // Below a commit this much older there is no looking for the target.
      frontier := if commit.value.committedAt < floor then rest else rest + commit.value.parents;
      GoesOn(read, older, newer, floor, seen, rest, at, commit.value, frontier);
      seen := seen + {at};
    }
    WalkedOut(read, older, newer, floor, seen);
    answer := No;
  }

  ghost predicate Met(read: Read, newer: Id, at: Id, floor: int) {
    exists steps: nat :: Way(read, newer, at, floor, steps)
  }

  /** A way from `from` to `to` through commits dated `floor` or later. */
  ghost predicate Way(read: Read, from: Id, to: Id, floor: int, steps: nat)
    decreases steps
  {
    from == to
    || (steps > 0 && read(from).Some? && read(from).value.committedAt >= floor
        && exists parent :: parent in read(from).value.parents && Way(read, parent, to, floor, steps - 1))
  }

  lemma {:induction false} WayFurther(read: Read, from: Id, via: Id, to: Id, floor: int, steps: nat)
    requires Way(read, from, via, floor, steps)
    requires read(via).Some? && read(via).value.committedAt >= floor && to in read(via).value.parents
    ensures Way(read, from, to, floor, steps + 1)
    decreases steps
  {
    if from == via {
      assert Way(read, to, to, floor, steps);
    } else {
      var parent :| parent in read(from).value.parents && Way(read, parent, via, floor, steps - 1);
      WayFurther(read, parent, via, to, floor, steps - 1);
    }
  }

  lemma {:induction false} WayReaches(read: Read, from: Id, via: Id, older: Id, floor: int, steps: nat)
    requires Way(read, from, via, floor, steps) && read(via).Some? && older in read(via).value.parents
    ensures Walked(read, from, older, floor, steps) && Above(read, from, older, steps + 1)
    decreases steps
  {
    if from == via {
      assert older in ParentsOf(read, from) && Above(read, older, older, steps);
    } else {
      var parent :| parent in read(from).value.parents && Way(read, parent, via, floor, steps - 1);
      WayReaches(read, parent, via, older, floor, steps - 1);
      assert parent in ParentsOf(read, from);
    }
  }

  /** Every commit below `older` is readable, and dated at most a day before it. */
  ghost predicate ClocksHonest(read: Read, older: Id) {
    && read(older).Some?
    && forall at, steps: nat | at != older && Above(read, at, older, steps) ::
         read(at).Some? && read(at).value.committedAt >= read(older).value.committedAt - CLOCK_SKEW_SECONDS
  }

  lemma {:induction false} HonestWalk(read: Read, older: Id, at: Id, steps: nat)
    requires ClocksHonest(read, older) && at != older && Above(read, at, older, steps)
    ensures Walked(read, at, older, read(older).value.committedAt - CLOCK_SKEW_SECONDS, steps)
    decreases steps
  {
    var parent :| parent in ParentsOf(read, at) && Above(read, parent, older, steps - 1);
    if parent != older { HonestWalk(read, older, parent, steps - 1); }
  }

  /** Where clocks are honest, the walk's answer is Git's. */
  lemma HonestAnswer(read: Read, older: Id, newer: Id)
    requires ClocksHonest(read, older)
    ensures older == newer || WalkedTo(read, older, newer, read(older).value.committedAt - CLOCK_SKEW_SECONDS)
            <==> Ancestor(read, older, newer)
  {
    var floor := read(older).value.committedAt - CLOCK_SKEW_SECONDS;
    if Ancestor(read, older, newer) && older != newer {
      var steps: nat :| Above(read, newer, older, steps);
      HonestWalk(read, older, newer, steps);
    }
    if older == newer {
      assert Above(read, newer, older, 0);
    } else if WalkedTo(read, older, newer, floor) {
      var steps: nat :| Walked(read, newer, older, floor, steps);
      WalkIsAbove(read, newer, older, floor, steps);
    }
  }

  lemma {:induction false} WalkIsAbove(read: Read, from: Id, to: Id, floor: int, steps: nat)
    requires Walked(read, from, to, floor, steps)
    ensures Above(read, from, to, steps + 1)
    decreases steps
  {
    if to in read(from).value.parents {
      assert to in ParentsOf(read, from) && Above(read, to, to, steps);
    } else {
      var parent :| parent in read(from).value.parents && Walked(read, parent, to, floor, steps - 1);
      WalkIsAbove(read, parent, to, floor, steps - 1);
      assert parent in ParentsOf(read, from);
    }
  }

  /** A clock more than a day slow hides an ancestor: the walk says no. */
  lemma SlowClockHides(read: Read)
    requires read("old") == Some(CommitFacts([], 100_000)) && read("slow") == Some(CommitFacts(["old"], 0))
    requires read("new") == Some(CommitFacts(["older"], 100_001)) && read("older") == Some(CommitFacts(["slow"], 0))
    ensures Ancestor(read, "old", "new") && !WalkedTo(read, "old", "new", 100_000 - CLOCK_SKEW_SECONDS)
  {
    assert Above(read, "old", "old", 0);
    OneFurtherUp(read, "slow", "old", 0);
    OneFurtherUp(read, "older", "slow", 1);
    OneFurtherUp(read, "new", "older", 2);
    var floor := 100_000 - CLOCK_SKEW_SECONDS;
    forall steps: nat ensures !Walked(read, "new", "old", floor, steps) {
      assert "slow"[0] != "old"[0] && "older" != "old";
      assert steps > 0 ==> !Walked(read, "older", "old", floor, steps - 1);
    }
  }

  lemma OneFurtherUp(read: Read, from: Id, parent: Id, steps: nat)
    requires Above(read, parent, "old", steps) && parent in ParentsOf(read, from)
    ensures Above(read, from, "old", steps + 1)
  {
  }
}
