/** The commits below a root commit. */
module Index {
  // The commits reached from a root commit through pins, itself among them, each with its mount.
  // Two walks list it, one where Git is and one where only tree reads are.

  import opened Wrappers
  import opened Names
  import opened Sets

  type Id = string

  /** The pins of a commit, by name, in tree order; nothing when it cannot be read. */
  type Pins = Id -> Option<seq<(string, Id)>>

  /** A tracker and the commit of it that is pinned. */
  type Mount = (string, Id)

  function ChildrenOf(pins: Pins, mount: Mount): (children: seq<Mount>) {
    var found := pins(mount.1);
    if found.None? then []
    else seq(|found.value|, i requires 0 <= i < |found.value| => (ChildId(mount.0, found.value[i].0), found.value[i].1))
  }

  /** Reached from the root commit by at most `steps` pins. */
  ghost predicate MountedIn(pins: Pins, root: Id, mount: Mount, steps: nat)
    decreases steps
  {
    mount == (ROOT, root)
    || (steps > 0 && exists parent: Mount ::
          MountedIn(pins, root, parent, steps - 1) && mount in ChildrenOf(pins, parent))
  }

  ghost predicate Mounted(pins: Pins, root: Id, mount: Mount) {
    exists steps: nat :: MountedIn(pins, root, mount, steps)
  }

  lemma ChildMounted(pins: Pins, root: Id, parent: Mount, child: Mount)
    requires Mounted(pins, root, parent) && child in ChildrenOf(pins, parent)
    ensures Mounted(pins, root, child)
  {
    var steps: nat :| MountedIn(pins, root, parent, steps);
    assert MountedIn(pins, root, child, steps + 1);
  }

  /** Root is mounted, and what a mounted commit pins is, under the name it pins it by. */
  ghost predicate HoldsPinned(pins: Pins, root: Id, member: Mount -> bool) {
    && member((ROOT, root))
    && forall mount: Mount, i | member(mount) && pins(mount.1).Some? && 0 <= i < |pins(mount.1).value| ::
         var (name, pin) := pins(mount.1).value[i];
         member((if mount.0 == ROOT then name else mount.0 + "__" + name, pin))
  }

  /** What is mounted is the least there is of that kind. */
  lemma MountedIsLeast(pins: Pins, root: Id)
    ensures HoldsPinned(pins, root, mount => Mounted(pins, root, mount))
    ensures forall member, mount | HoldsPinned(pins, root, member) && Mounted(pins, root, mount) :: member(mount)
  {
    assert MountedIn(pins, root, (ROOT, root), 0);
    forall mount: Mount, i | Mounted(pins, root, mount) && pins(mount.1).Some? && 0 <= i < |pins(mount.1).value|
      ensures Mounted(pins, root, (ChildId(mount.0, pins(mount.1).value[i].0), pins(mount.1).value[i].1))
    {
      assert ChildrenOf(pins, mount)[i] in ChildrenOf(pins, mount);
      ChildMounted(pins, root, mount, ChildrenOf(pins, mount)[i]);
    }
    forall member, mount | HoldsPinned(pins, root, member) && Mounted(pins, root, mount) ensures member(mount) {
      var steps: nat :| MountedIn(pins, root, mount, steps);
      MountedIsMember(pins, root, member, mount, steps);
    }
  }

  lemma {:induction false} MountedIsMember(pins: Pins, root: Id, member: Mount -> bool, mount: Mount, steps: nat)
    requires HoldsPinned(pins, root, member) && MountedIn(pins, root, mount, steps)
    ensures member(mount)
    decreases steps
  {
    if mount != (ROOT, root) {
      var parent: Mount :| MountedIn(pins, root, parent, steps - 1) && mount in ChildrenOf(pins, parent);
      MountedIsMember(pins, root, member, parent, steps - 1);
      var i :| 0 <= i < |ChildrenOf(pins, parent)| && ChildrenOf(pins, parent)[i] == mount;
      var (name, pin) := pins(parent.1).value[i];
      assert mount == (ChildId(parent.0, name), pin);
    }
  }

  /** Every pin of a mount in `universe` is in it: history is finite. */
  ghost predicate Bounds(pins: Pins, root: Id, universe: set<Mount>) {
    (ROOT, root) in universe && forall mount, child | mount in universe && child in ChildrenOf(pins, mount) ::
      child in universe
  }

  /** Each tracker is pinned at one commit. */
  ghost predicate OneMountEach(pins: Pins, root: Id) {
    forall one: Mount, other: Mount | Mounted(pins, root, one) && Mounted(pins, root, other) && one.0 == other.0 ::
      one == other
  }

  type State = map<string, Id>

  /** Every tracker listed is mounted at that commit, root is, and so are those a listed one pins. */
  ghost predicate IsIndex(pins: Pins, root: Id, state: State) {
    && ROOT in state
    && (forall name | name in state :: Mounted(pins, root, (name, state[name])))
    && forall name, child | name in state && child in ChildrenOf(pins, (name, state[name])) :: child.0 in state
  }

  lemma {:induction false} IndexHolds(pins: Pins, root: Id, state: State, mount: Mount, steps: nat)
    requires IsIndex(pins, root, state) && OneMountEach(pins, root) && MountedIn(pins, root, mount, steps)
    ensures mount.0 in state && state[mount.0] == mount.1
    decreases steps
  {
    if mount != (ROOT, root) {
      var parent: Mount :| MountedIn(pins, root, parent, steps - 1) && mount in ChildrenOf(pins, parent);
      IndexHolds(pins, root, state, parent, steps - 1);
    }
    assert Mounted(pins, root, mount);
    assert mount.0 in state ==> Mounted(pins, root, (mount.0, state[mount.0]));
  }

  /** Where each tracker is pinned once there is one index, so both walks give it, and it is every mount. */
  lemma OneIndex(pins: Pins, root: Id, one: State, other: State)
    requires OneMountEach(pins, root) && IsIndex(pins, root, one) && IsIndex(pins, root, other)
    ensures one == other
    ensures forall mount: Mount :: Mounted(pins, root, mount) <==> mount.0 in one && one[mount.0] == mount.1
  {
    forall mount: Mount ensures Mounted(pins, root, mount) <==> mount.0 in one && one[mount.0] == mount.1 {
      if Mounted(pins, root, mount) {
        var steps: nat :| MountedIn(pins, root, mount, steps);
        IndexHolds(pins, root, one, mount, steps);
      }
    }
    forall name ensures (name in one <==> name in other) && (name in one ==> one[name] == other[name]) {
      if name in one {
        var steps: nat :| MountedIn(pins, root, (name, one[name]), steps);
        IndexHolds(pins, root, other, (name, one[name]), steps);
      }
      if name in other {
        var steps: nat :| MountedIn(pins, root, (name, other[name]), steps);
        IndexHolds(pins, root, one, (name, other[name]), steps);
      }
    }
  }

  // ---- the walk ------------------------------------------------------------------------------------

  /** What the walk has yet to look at covers what it has not listed. */
  ghost predicate Walking(pins: Pins, root: Id, universe: set<Mount>, state: State, stack: seq<Mount>) {
    && (forall mount | mount in stack :: mount in universe && Mounted(pins, root, mount))
    && (forall name | name in state :: (name, state[name]) in universe && Mounted(pins, root, (name, state[name])))
    && (ROOT in state || (ROOT, root) in stack)
    && forall name, child | name in state && child in ChildrenOf(pins, (name, state[name])) ::
         child.0 in state || child in stack
  }

  ghost function Unlisted(universe: set<Mount>, state: State): set<Mount> {
    set mount | mount in universe && mount.0 !in state
  }

  lemma Listed(universe: set<Mount>, state: State, mount: Mount)
    requires mount in universe && mount.0 !in state
    ensures |Unlisted(universe, state[mount.0 := mount.1])| < |Unlisted(universe, state)|
  {
    var before, after := Unlisted(universe, state), Unlisted(universe, state[mount.0 := mount.1]);
    assert after <= before - {mount};
    SubsetSize(after, before - {mount});
  }

  lemma WalkStep(pins: Pins, root: Id, universe: set<Mount>, state: State, stack: seq<Mount>, mount: Mount,
                 more: seq<Mount>)
    requires Bounds(pins, root, universe) && Walking(pins, root, universe, state, stack + [mount]) && mount.0 !in state
    requires forall child :: child in more <==> child in stack || child in ChildrenOf(pins, mount)
    ensures Walking(pins, root, universe, state[mount.0 := mount.1], more)
  {
    assert mount in stack + [mount];
    var after := state[mount.0 := mount.1];
    forall child | child in ChildrenOf(pins, mount) ensures Mounted(pins, root, child) {
      ChildMounted(pins, root, mount, child);
    }
    forall other | other in stack ensures other in universe && Mounted(pins, root, other) {
      assert other in stack + [mount];
    }
    forall name, child | name in after && child in ChildrenOf(pins, (name, after[name]))
      ensures child.0 in after || child in more
    {
      if name != mount.0 { assert child.0 in state || child in stack + [mount]; }
    }
  }

  lemma LastTaken(stack: seq<Mount>)
    requires stack != []
    ensures stack == stack[..|stack| - 1] + [stack[|stack| - 1]] && stack[|stack| - 1] in stack
  {
  }

  ghost predicate AllRead(pins: Pins, state: State) {
    forall name | name in state :: pins(state[name]).Some?
  }

  lemma WalkEnds(pins: Pins, root: Id, universe: set<Mount>, state: State)
    requires Walking(pins, root, universe, state, [])
    ensures IsIndex(pins, root, state)
  {
  }

  lemma WalkPast(pins: Pins, root: Id, universe: set<Mount>, state: State, stack: seq<Mount>, mount: Mount)
    requires Walking(pins, root, universe, state, stack + [mount]) && mount.0 in state
    ensures Walking(pins, root, universe, state, stack)
  {
    forall other | other in stack ensures other in universe && Mounted(pins, root, other) {
      assert other in stack + [mount];
    }
    forall name, child | name in state && child in ChildrenOf(pins, (name, state[name]))
      ensures child.0 in state || child in stack
    {
      assert child.0 in state || child in stack + [mount];
    }
  }

  function Reversed(mounts: seq<Mount>): (reversed: seq<Mount>)
    ensures forall mount :: mount in reversed <==> mount in mounts
  {
    if mounts == [] then []
    else
      assert mounts == [mounts[0]] + mounts[1..];
      Reversed(mounts[1..]) + [mounts[0]]
  }

  /** Where Git is: a commit that cannot be read pins nothing. */
  method IndexWith(pins: Pins, root: Id, ghost universe: set<Mount>) returns (state: State)
    requires Bounds(pins, root, universe)
    ensures IsIndex(pins, root, state)
  {
    state := map[];
    var stack: seq<Mount> := [(ROOT, root)];
    assert MountedIn(pins, root, (ROOT, root), 0);
    while stack != []
      invariant Walking(pins, root, universe, state, stack)
      decreases |Unlisted(universe, state)|, |stack|
    {
      var mount, rest := stack[|stack| - 1], stack[..|stack| - 1];
      LastTaken(stack);
      if mount.0 in state {
        WalkPast(pins, root, universe, state, rest, mount);
        stack := rest;
        continue;
      }
      stack := rest + Reversed(ChildrenOf(pins, mount));
      WalkStep(pins, root, universe, state, rest, mount, stack);
      Listed(universe, state, mount);
      state := state[mount.0 := mount.1];
    }
  }

  datatype IndexAnswer = AskGit | Answered(matches: bool, actual: State)

  /** From tree reads alone: a commit that cannot be read makes the question Git's. */
  method ReadIndex(pins: Pins, list: State, ghost universe: set<Mount>) returns (answer: IndexAnswer)
    requires ROOT in list ==> Bounds(pins, list[ROOT], universe)
    ensures ROOT !in list ==> answer == Answered(false, map[])
    ensures ROOT in list && answer.Answered? ==>
              && IsIndex(pins, list[ROOT], answer.actual) && (answer.matches <==> answer.actual == list)
              && AllRead(pins, answer.actual)
    ensures answer.AskGit? ==> exists mount: Mount :: Mounted(pins, list[ROOT], mount) && pins(mount.1).None?
  {
    if ROOT !in list { return Answered(false, map[]); }
    var root := list[ROOT];
    var actual: State := map[];
    var stack: seq<Mount> := [(ROOT, root)];
    assert MountedIn(pins, root, (ROOT, root), 0);
    while stack != []
      invariant Walking(pins, root, universe, actual, stack)
      invariant AllRead(pins, actual)
      decreases |Unlisted(universe, actual)|, |stack|
    {
      var mount, rest := stack[|stack| - 1], stack[..|stack| - 1];
      LastTaken(stack);
      if mount.0 in actual {
        WalkPast(pins, root, universe, actual, rest, mount);
        stack := rest;
        continue;
      }
      if pins(mount.1).None? {
        assert Mounted(pins, root, mount);
        return AskGit;
      }
      stack := rest + ChildrenOf(pins, mount);
      WalkStep(pins, root, universe, actual, rest, mount, stack);
      Listed(universe, actual, mount);
      actual := actual[mount.0 := mount.1];
    }
    WalkEnds(pins, root, universe, actual);
    answer := Answered(actual == list, actual);
  }
}
