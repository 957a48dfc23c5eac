/** Fetching every commit a history pins. */
module Snapshots {
  // Making a store whole: rounds of asking for the pins of what came in the round
  // before, until a round has nothing new.

  import opened Names
  import opened Objects
  import opened Compose
  import opened Stores

  /** A tracker, and the commit of it that is pinned. */
  type Mount = (Name, Commit)

  /** What a mount's own commit pins. */
  function ChildMounts(mount: Mount): (children: set<Mount>)
    ensures forall child | child in children :: child.1 < mount.1
  {
    var pins := Pins(mount.1.tree);
    set name | name in pins :: (ChildId(mount.0, name), pins[name])
  }

  ghost function PinDepth(commit: Commit): (depth: nat)
    ensures forall name | name in Pins(commit.tree) ::
              assert Pins(commit.tree)[name] < commit.tree && commit.tree < commit;
              PinDepth(Pins(commit.tree)[name]) < depth
    decreases commit
  {
    var pins := Pins(commit.tree);
    var below := set name | name in pins ::
          assert pins[name] < commit.tree && commit.tree < commit;
          PinDepth(pins[name]);
    assert forall name | name in pins ::
      assert pins[name] < commit.tree && commit.tree < commit;
      PinDepth(pins[name]) in below;
    1 + MaxOf(below)
  }

  lemma ChildrenShallower(mount: Mount)
    ensures forall child | child in ChildMounts(mount) :: PinDepth(child.1) < PinDepth(mount.1)
  {
  }

  // ---- what is fetched -------------------------------------------------------------------------------

  /** The trackers there is a repository for, and what each has. */
  datatype Remote = Remote(source: Name -> bool, has: Mount -> bool)

  class Store {
    var held: set<Commit>

    constructor (commits: set<Commit>)
      ensures held == commits
    {
      held := commits;
    }

    /**
     Whichever of one tracker's `commits` are lacking, from its repository; `arrived`
     is what others brought in meanwhile. The answer is what it does not have.
     */
    method FetchTracker(remote: Remote, tracker: Name, commits: set<Commit>, arrived: set<Commit>)
      returns (missing: set<Commit>)
      modifies this
      ensures old(held) <= held
      ensures remote.source(tracker) ==> forall commit | commit in commits :: commit in held || commit in missing
      ensures forall commit | commit in missing ::
                commit in commits && remote.source(tracker) && !remote.has((tracker, commit))
      ensures forall commit | commit in held ::
                commit in old(held) || commit in arrived
                  || (commit in commits && remote.source(tracker) && remote.has((tracker, commit)))
    {
      if commits <= held || !remote.source(tracker) { return {}; }
      // Other fetches ran while this one waited.
      held := held + arrived;
      var lacking := commits - held;
      if lacking == {} { return {}; }
      missing := set commit | commit in lacking && !remote.has((tracker, commit));
      held := held + (lacking - missing);
    }
  }

  /** The outcome of one mount: held, told absent, or of a tracker with no repository to ask. */
  ghost predicate Settled(remote: Remote, held: set<Commit>, absent: set<Mount>, mount: Mount) {
    mount.1 in held || mount in absent || !remote.source(mount.0)
  }

  /** Nothing is held but what was, what others brought, and what was asked for and there. */
  ghost predicate OnlyAsked(remote: Remote, before: set<Commit>, held: set<Commit>, asked: set<Mount>,
                            arrivals: Name -> set<Commit>)
  {
    forall commit | commit in held ::
      commit in before || (exists tracker :: commit in arrivals(tracker))
      || exists mount :: mount in asked && mount.1 == commit && remote.source(mount.0) && remote.has(mount)
  }

  ghost predicate AbsentTrue(remote: Remote, absent: set<Mount>, asked: set<Mount>) {
    forall mount | mount in absent :: mount in asked && remote.source(mount.0) && !remote.has(mount)
  }

  method FetchLevel(store: Store, remote: Remote, level: set<Mount>, arrivals: Name -> set<Commit>)
    returns (absent: set<Mount>)
    modifies store
    ensures old(store.held) <= store.held
    ensures forall mount | mount in level :: Settled(remote, store.held, absent, mount)
    ensures AbsentTrue(remote, absent, level)
    ensures OnlyAsked(remote, old(store.held), store.held, level, arrivals)
  {
    absent := {};
    var trackers := set mount | mount in level :: mount.0;
    var left, seen := trackers, {};
    while left != {}
      invariant left + seen == trackers
      invariant old(store.held) <= store.held
      invariant forall mount | mount in level && mount.0 in seen :: Settled(remote, store.held, absent, mount)
      invariant AbsentTrue(remote, absent, level)
      invariant OnlyAsked(remote, old(store.held), store.held, level, arrivals)
      decreases left
    {
      var tracker :| tracker in left;
      var commits := set mount | mount in level && mount.0 == tracker :: mount.1;
      ghost var before := store.held;
      var missing := store.FetchTracker(remote, tracker, commits, arrivals(tracker));
      absent := absent + set commit | commit in missing :: (tracker, commit);
      AskedMore(remote, old(store.held), before, store.held, level, tracker, commits, arrivals);
      left, seen := left - {tracker}, seen + {tracker};
    }
  }

  lemma AskedMore(remote: Remote, start: set<Commit>, before: set<Commit>, after: set<Commit>, level: set<Mount>,
                  tracker: Name, commits: set<Commit>, arrivals: Name -> set<Commit>)
    requires OnlyAsked(remote, start, before, level, arrivals)
    requires forall commit | commit in commits :: (tracker, commit) in level
    requires forall commit | commit in after ::
               commit in before || commit in arrivals(tracker)
                 || (commit in commits && remote.source(tracker) && remote.has((tracker, commit)))
    ensures OnlyAsked(remote, start, after, level, arrivals)
  {
    forall commit | commit in after
      ensures commit in start || (exists other :: commit in arrivals(other))
              || exists mount :: mount in level && mount.1 == commit && remote.source(mount.0) && remote.has(mount)
    {
      if commit !in before && commit !in arrivals(tracker) {
        var mount := (tracker, commit);
        assert mount in level && mount.1 == commit && remote.source(mount.0) && remote.has(mount);
      }
    }
  }

  /** What the mounts of a level that are here pin, and was not seen before. */
  method NextLevel(store: Store, level: set<Mount>, before: set<Mount>) returns (next: set<Mount>, entered: set<Mount>)
    ensures entered == set mount | mount in level && mount.1 in store.held
    ensures next !! before
    ensures forall mount | mount in entered :: ChildMounts(mount) <= before + next
    ensures forall child | child in next :: exists mount :: mount in entered && child in ChildMounts(mount)
  {
    next, entered := {}, {};
    var left, done := level, {};
    while left != {}
      invariant left !! done && left + done == level
      invariant entered == set mount | mount in done && mount.1 in store.held
      invariant next !! before
      invariant forall mount | mount in entered :: ChildMounts(mount) <= before + next
      invariant forall child | child in next :: exists mount :: mount in entered && child in ChildMounts(mount)
      decreases left
    {
      var mount :| mount in left;
      if mount.1 in store.held {
        next := next + (ChildMounts(mount) - before);
        entered := entered + {mount};
      }
      left, done := left - {mount}, done + {mount};
    }
  }

  /** What the root history pins, and what else is asked for. */
  function Seeds(root: Name, walk: set<Commit>, extra: map<Name, Commit>): set<Mount> {
    (set commit, mount | commit in walk && mount in ChildMounts((root, commit)) :: mount)
    + set tracker | tracker in extra :: (tracker, extra[tracker])
  }

  /** Pinned by the seeds, by at most `steps` pins one under another. */
  ghost predicate PinnedIn(seeds: set<Mount>, mount: Mount, steps: nat)
    decreases steps
  {
    mount in seeds
      || (steps > 0 && exists parent: Mount :: PinnedIn(seeds, parent, steps - 1) && mount in ChildMounts(parent))
  }

  ghost predicate Pinned(seeds: set<Mount>, mount: Mount) { exists steps: nat :: PinnedIn(seeds, mount, steps) }

  /** What a walked commit of root pins, what is asked for besides, and what any of that pins in turn. */
  ghost predicate HoldsPinned(root: Name, walk: set<Commit>, extra: map<Name, Commit>, member: Mount -> bool) {
    && (forall commit, name | commit in walk && name in Pins(commit.tree) ::
          member((ChildId(root, name), Pins(commit.tree)[name])))
    && (forall tracker | tracker in extra :: member((tracker, extra[tracker])))
    && forall mount: Mount, name | member(mount) && name in Pins(mount.1.tree) ::
         member((ChildId(mount.0, name), Pins(mount.1.tree)[name]))
  }

  /** What is pinned is the least there is of that kind. */
  lemma PinnedIsLeast(root: Name, walk: set<Commit>, extra: map<Name, Commit>)
    ensures HoldsPinned(root, walk, extra, mount => Pinned(Seeds(root, walk, extra), mount))
    ensures forall member, mount | HoldsPinned(root, walk, extra, member) && Pinned(Seeds(root, walk, extra), mount) ::
              member(mount)
  {
    var seeds := Seeds(root, walk, extra);
    forall mount | mount in seeds ensures Pinned(seeds, mount) { assert PinnedIn(seeds, mount, 0); }
    forall commit, name | commit in walk && name in Pins(commit.tree)
      ensures (ChildId(root, name), Pins(commit.tree)[name]) in seeds
    {
      assert (ChildId(root, name), Pins(commit.tree)[name]) in ChildMounts((root, commit));
    }
    forall mount: Mount, name | Pinned(seeds, mount) && name in Pins(mount.1.tree)
      ensures Pinned(seeds, (ChildId(mount.0, name), Pins(mount.1.tree)[name]))
    {
      var steps: nat :| PinnedIn(seeds, mount, steps);
      var child := (ChildId(mount.0, name), Pins(mount.1.tree)[name]);
      assert child in ChildMounts(mount);
      assert PinnedIn(seeds, child, steps + 1);
    }
    forall member, mount | HoldsPinned(root, walk, extra, member) && Pinned(seeds, mount) ensures member(mount) {
      var steps: nat :| PinnedIn(seeds, mount, steps);
      PinnedIsMember(root, walk, extra, member, mount, steps);
    }
  }

  lemma {:induction false} PinnedIsMember(root: Name, walk: set<Commit>, extra: map<Name, Commit>,
                                          member: Mount -> bool, mount: Mount, steps: nat)
    requires HoldsPinned(root, walk, extra, member) && PinnedIn(Seeds(root, walk, extra), mount, steps)
    ensures member(mount)
    decreases steps
  {
    var seeds := Seeds(root, walk, extra);
    if mount !in seeds {
      var parent: Mount :| PinnedIn(seeds, parent, steps - 1) && mount in ChildMounts(parent);
      PinnedIsMember(root, walk, extra, member, parent, steps - 1);
    }
  }

  /** `mount` is `above`, or pinned under it. */
  ghost predicate BelowIn(above: Mount, mount: Mount, steps: nat)
    decreases steps
  {
    mount == above
      || (steps > 0 && exists parent: Mount :: BelowIn(above, parent, steps - 1) && mount in ChildMounts(parent))
  }

  /** Every mount looked at is pinned; what those that were here pin was looked at too. */
  ghost predicate Explored(seeds: set<Mount>, seen: set<Mount>, entered: set<Mount>) {
    && seeds <= seen && entered <= seen
    && (forall mount | mount in entered :: ChildMounts(mount) <= seen)
    && forall mount | mount in seen :: Pinned(seeds, mount)
  }

  lemma PinnedChild(seeds: set<Mount>, parent: Mount, child: Mount)
    requires Pinned(seeds, parent) && child in ChildMounts(parent)
    ensures Pinned(seeds, child)
  {
    var steps: nat :| PinnedIn(seeds, parent, steps);
    assert PinnedIn(seeds, child, steps + 1);
  }

  /** What a finished fetch has made sure of. */
  ghost predicate Fetched(remote: Remote, seeds: set<Mount>, before: set<Commit>, held: set<Commit>, absent: set<Mount>,
                          seen: set<Mount>, entered: set<Mount>, arrivals: Name -> set<Commit>)
  {
    && before <= held && Explored(seeds, seen, entered)
    && (forall mount | mount in entered :: mount.1 in held)
    && (forall mount | mount in seen && mount !in entered :: mount in absent || !remote.source(mount.0))
    && AbsentTrue(remote, absent, seen) && OnlyAsked(remote, before, held, seen, arrivals)
  }

  /** Half way: the mounts in `level` are still to be fetched and entered. */
  ghost predicate Fetching(remote: Remote, seeds: set<Mount>, before: set<Commit>, held: set<Commit>,
                           absent: set<Mount>,
                           seen: set<Mount>, entered: set<Mount>, level: set<Mount>, arrivals: Name -> set<Commit>)
  {
    && before <= held && level <= seen && Explored(seeds, seen, entered)
    && (forall mount | mount in entered :: mount.1 in held)
    && (forall mount | mount in seen - level && mount !in entered :: mount in absent || !remote.source(mount.0))
    && AbsentTrue(remote, absent, seen) && OnlyAsked(remote, before, held, seen, arrivals)
  }

  lemma OneMoreLevel(remote: Remote, seeds: set<Mount>, before: set<Commit>, held: set<Commit>, absent: set<Mount>,
                     seen: set<Mount>, entered: set<Mount>, level: set<Mount>, arrivals: Name -> set<Commit>,
                     more: set<Commit>, missing: set<Mount>, next: set<Mount>, here: set<Mount>)
    requires Fetching(remote, seeds, before, held, absent, seen, entered, level, arrivals)
    requires held <= more && OnlyAsked(remote, held, more, level, arrivals)
    requires (forall mount | mount in level :: Settled(remote, more, missing, mount))
             && AbsentTrue(remote, missing, level)
    requires here == (set mount | mount in level && mount.1 in more)
    requires forall mount | mount in here :: ChildMounts(mount) <= seen + next
    requires forall child | child in next :: exists mount :: mount in here && child in ChildMounts(mount)
    ensures Fetching(remote, seeds, before, more, absent + missing, seen + next, entered + here, next, arrivals)
  {
    forall child | child in next ensures Pinned(seeds, child) {
      var mount :| mount in here && child in ChildMounts(mount);
      PinnedChild(seeds, mount, child);
    }
    AskedThrough(remote, before, held, more, seen, level, next, arrivals);
  }

  lemma AskedThrough(remote: Remote, before: set<Commit>, held: set<Commit>, more: set<Commit>, seen: set<Mount>,
                     level: set<Mount>, next: set<Mount>, arrivals: Name -> set<Commit>)
    requires OnlyAsked(remote, before, held, seen, arrivals) && OnlyAsked(remote, held, more, level, arrivals)
             && level <= seen
    ensures OnlyAsked(remote, before, more, seen + next, arrivals)
  {
    forall commit | commit in more
      ensures commit in before || (exists tracker :: commit in arrivals(tracker))
              || exists mount ::
                   mount in seen + next && mount.1 == commit && remote.source(mount.0) && remote.has(mount)
    {
      if commit in held && commit !in before && !exists tracker :: commit in arrivals(tracker) {
        var mount :| mount in seen && mount.1 == commit && remote.source(mount.0) && remote.has(mount);
        assert mount in seen + next;
      } else if commit !in held && !exists tracker :: commit in arrivals(tracker) {
        var mount :| mount in level && mount.1 == commit && remote.source(mount.0) && remote.has(mount);
        assert mount in seen + next;
      }
    }
  }

  /** Round after round: what a round brings is asked for its own pins in the next. */
  method FetchPins(store: Store, root: Name, walk: set<Commit>, extra: map<Name, Commit>, remote: Remote,
                   arrivals: Name -> set<Commit>)
    returns (absent: set<Mount>, ghost seen: set<Mount>, ghost entered: set<Mount>)
    modifies store
    ensures Fetched(remote, Seeds(root, walk, extra), old(store.held), store.held, absent, seen, entered, arrivals)
  {
    var seeds := Seeds(root, walk, extra);
    var level, known := seeds, seeds;
    absent, entered, seen := {}, {}, seeds;
    ghost var depth := DepthOf(level);
    forall mount | mount in seeds ensures Pinned(seeds, mount) { assert PinnedIn(seeds, mount, 0); }
    while level != {}
      invariant known == seen && DepthOf(level) <= depth
      invariant Fetching(remote, seeds, old(store.held), store.held, absent, seen, entered, level, arrivals)
      decreases depth, level
    {
      ghost var held := store.held;
      var missing := FetchLevel(store, remote, level, arrivals);
      var next, here := NextLevel(store, level, known);
      OneMoreLevel(remote, seeds, old(store.held), held, absent, seen, entered, level, arrivals, store.held, missing,
                   next, here);
      NextShallower(level, next, here);
      depth := DepthOf(next);
      absent, entered, seen := absent + missing, entered + here, seen + next;
      known, level := known + next, next;
    }
  }

  ghost function Depths(level: set<Mount>): set<nat> { set mount | mount in level :: PinDepth(mount.1) }

  ghost function DepthOf(level: set<Mount>): nat { MaxOf(Depths(level)) }

  lemma NextShallower(level: set<Mount>, next: set<Mount>, here: set<Mount>)
    requires here <= level && level != {}
    requires forall child | child in next :: exists mount :: mount in here && child in ChildMounts(mount)
    ensures DepthOf(next) < DepthOf(level)
  {
    forall depth | depth in Depths(next) ensures depth < DepthOf(level) {
      var child :| child in next && depth == PinDepth(child.1);
      var mount :| mount in here && child in ChildMounts(mount);
      ChildrenShallower(mount);
      assert PinDepth(mount.1) in Depths(level);
    }
    var mount :| mount in level;
    assert PinDepth(mount.1) in Depths(level);
  }

  // ---- what that makes sure of --------------------------------------------------------------------------

  lemma {:induction false} SeenOrBelow(seeds: set<Mount>, seen: set<Mount>, entered: set<Mount>, mount: Mount,
                                       steps: nat)
    returns (above: Mount, down: nat)
    requires Explored(seeds, seen, entered) && PinnedIn(seeds, mount, steps)
    ensures above in seen && BelowIn(above, mount, down)
    ensures above == mount || above !in entered
    decreases steps
  {
    if mount in seen {
      above, down := mount, 0;
    } else {
      var parent: Mount :| PinnedIn(seeds, parent, steps - 1) && mount in ChildMounts(parent);
      above, down := SeenOrBelow(seeds, seen, entered, parent, steps - 1);
      assert parent in entered ==> mount in seen;
      down := down + 1;
    }
  }

  /** Not held when its turn came: its repository said it has none, or there is none to ask. */
  ghost predicate Unavailable(remote: Remote, absent: set<Mount>, mount: Mount) {
    !remote.source(mount.0) || (mount in absent && !remote.has(mount))
  }

  /**
   Once the fetch ends every commit pinned, however deep, is held, reported absent
   by a repository that does not have it, of a tracker with none to ask, or below
   one of those.
   */
  lemma EveryPinAccountedFor(remote: Remote, seeds: set<Mount>, before: set<Commit>, held: set<Commit>,
                             absent: set<Mount>,
                             seen: set<Mount>, entered: set<Mount>, arrivals: Name -> set<Commit>, mount: Mount)
    requires Fetched(remote, seeds, before, held, absent, seen, entered, arrivals) && Pinned(seeds, mount)
    ensures mount.1 in held
            || exists above: Mount, down: nat ::
                 BelowIn(above, mount, down) && Pinned(seeds, above) && Unavailable(remote, absent, above)
  {
    var steps: nat :| PinnedIn(seeds, mount, steps);
    var above, down := SeenOrBelow(seeds, seen, entered, mount, steps);
    if above !in entered {
      assert above in absent ==> !remote.has(above);
      assert BelowIn(above, mount, down) && Pinned(seeds, above) && Unavailable(remote, absent, above);
    }
  }

  lemma {:induction false} AllEntered(seeds: set<Mount>, seen: set<Mount>, entered: set<Mount>, mount: Mount,
                                      steps: nat)
    requires Explored(seeds, seen, entered) && entered == seen && PinnedIn(seeds, mount, steps)
    ensures mount in entered
    decreases steps
  {
    if mount !in seeds {
      var parent: Mount :| PinnedIn(seeds, parent, steps - 1) && mount in ChildMounts(parent);
      AllEntered(seeds, seen, entered, parent, steps - 1);
    }
  }

  /** `walk` holds a commit's whole history. */
  ghost predicate Walked(walk: set<Commit>, commit: Commit)
    decreases commit
  {
    commit in walk && forall i | 0 <= i < |commit.parents| :: Walked(walk, commit.parents[i])
  }

  lemma {:induction false} PinsHeld(world: World, held: set<Commit>, entered: set<Mount>, mount: Mount)
    requires world.held == (commit => commit in held)
    requires forall other | other in entered :: other.1 in held && ChildMounts(other) <= entered
    requires ChildMounts(mount) <= entered
    ensures HoldsPins(world, mount.1)
    decreases mount.1
  {
    var pins := Pins(mount.1.tree);
    forall name | name in pins ensures world.held(pins[name]) && HoldsPins(world, pins[name]) {
      assert pins[name] < mount.1.tree && mount.1.tree < mount.1;
      var child := (ChildId(mount.0, name), pins[name]);
      assert child in ChildMounts(mount);
      PinsHeld(world, held, entered, child);
    }
  }

  lemma {:induction false} HistoryHeld(world: World, held: set<Commit>, entered: set<Mount>, root: Name,
                                       walk: set<Commit>, commit: Commit)
    requires world.held == (commit => commit in held)
    requires forall other | other in entered :: other.1 in held && ChildMounts(other) <= entered
    requires forall other | other in walk :: ChildMounts((root, other)) <= entered
    requires Walked(walk, commit)
    ensures HoldsHistoryPins(world, commit)
    decreases commit
  {
    PinsHeld(world, held, entered, (root, commit));
    forall i | 0 <= i < |commit.parents| ensures HoldsHistoryPins(world, commit.parents[i]) {
      HistoryHeld(world, held, entered, root, walk, commit.parents[i]);
    }
  }

  /**
   With every tracker's repository there to ask and nothing reported absent, the
   store holds what composing that history needs: it composes the same view
   commits, for any reader, as a store holding everything.
   */
  lemma FetchedComposesTheSame(remote: Remote, root: Name, walk: set<Commit>, extra: map<Name, Commit>,
                               before: set<Commit>,
                               held: set<Commit>, seen: set<Mount>, entered: set<Mount>, arrivals: Name -> set<Commit>,
                               shallow: World, whole: World, reader: Reader, tracker: Name, commit: Commit)
    requires Fetched(remote, Seeds(root, walk, extra), before, held, {}, seen, entered, arrivals)
    requires forall name :: remote.source(name)
    requires shallow.held == (other => other in held) && Alike(shallow, whole)
    requires Walked(walk, commit) && HoldsHistoryPins(whole, commit)
    ensures View(shallow, reader, tracker, commit) == View(whole, reader, tracker, commit)
  {
    assert entered == seen;
    forall other | other in walk ensures ChildMounts((root, other)) <= entered {
      assert ChildMounts((root, other)) <= Seeds(root, walk, extra);
    }
    HistoryHeld(shallow, held, entered, root, walk, commit);
    ShallowIsEnough(shallow, whole, reader, tracker, commit);
  }
}
