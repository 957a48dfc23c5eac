/** What a store must hold for composing. */
module Stores {
  // Views depend on few commits: the walk from root, and the pins met on it without
  // their histories. Two stores that agree on these make the same views.

  import opened Names
  import opened Objects
  import opened Compose

  /** Two stores that read files alike and name commits alike. */
  ghost predicate Alike(left: World, right: World) {
    && (forall commit :: left.id(commit) == right.id(commit))
    && (forall data :: left.toml(data) == right.toml(data))
  }

  /**
   Both stores hold the same of what `commit` pins, and of what those pin. The
   parents of a pinned commit are never asked for.
   */
  ghost predicate AgreeOnPins(left: World, right: World, commit: Commit)
    decreases commit
  {
    forall name | name in Pins(commit.tree) ::
      assert Pins(commit.tree)[name] < commit.tree && commit.tree < commit;
      var pin := Pins(commit.tree)[name];
      left.held(pin) == right.held(pin) && (left.held(pin) ==> AgreeOnPins(left, right, pin))
  }

  /** They agree on the pins of a root commit and of every commit behind it. */
  ghost predicate AgreeOnHistory(left: World, right: World, commit: Commit)
    decreases commit
  {
    && AgreeOnPins(left, right, commit)
    && forall i | 0 <= i < |commit.parents| :: AgreeOnHistory(left, right, commit.parents[i])
  }

  lemma {:induction false} SamePinnedDefinitions(left: World, right: World, pins: map<Name, Commit>, order: seq<Name>)
    requires Alike(left, right)
    requires forall name | name in order :: name in pins && left.held(pins[name]) == right.held(pins[name])
    ensures PinnedDefinitions(left, pins, order) == PinnedDefinitions(right, pins, order)
    decreases |order|
  {
    if order != [] { SamePinnedDefinitions(left, right, pins, order[1..]); }
  }

  lemma SameReadablePins(left: World, right: World, reader: Reader, tracker: Name, commit: Commit)
    requires AgreeOnPins(left, right, commit)
    ensures ReadablePins(left, reader, tracker, Pins(commit.tree))
              == ReadablePins(right, reader, tracker, Pins(commit.tree))
  {
  }

  lemma SameMountsOf(left: World, right: World, tree: Tree, pins: map<Name, Commit>, wanted: set<Name>)
    requires Alike(left, right) && DefinitionsTree(left, tree, pins) == DefinitionsTree(right, tree, pins)
    ensures MountsOf(left, tree, pins, wanted) == MountsOf(right, tree, pins, wanted)
  {
    var definitions := DefinitionsTree(left, tree, pins);
    if definitions.Ok? {
      assert forall name :: DefinedMount(left, definitions.value, name) == DefinedMount(right, definitions.value, name);
      if wanted != {} && forall name | name in wanted :: DefinedMount(left, definitions.value, name).Ok? {
        assert MountsOf(left, tree, pins, wanted).value == MountsOf(right, tree, pins, wanted).value;
      }
    }
  }

  lemma SameMounts(left: World, right: World, reader: Reader, tracker: Name, commit: Commit)
    requires Alike(left, right) && AgreeOnPins(left, right, commit)
    ensures Mounts(left, reader, tracker, commit) == Mounts(right, reader, tracker, commit)
    ensures ReadablePins(left, reader, tracker, Pins(commit.tree))
              == ReadablePins(right, reader, tracker, Pins(commit.tree))
  {
    var pins := Pins(commit.tree);
    SameReadablePins(left, right, reader, tracker, commit);
    SamePinnedDefinitions(left, right, pins, ByName(pins.Keys));
    SameMountsOf(left, right, commit.tree, pins, ReadablePins(left, reader, tracker, pins).Keys);
  }

  lemma {:induction false} SameTree(left: World, right: World, reader: Reader, tracker: Name, commit: Commit)
    requires Alike(left, right) && AgreeOnPins(left, right, commit)
    ensures TreeFor(left, reader, tracker, commit) == TreeFor(right, reader, tracker, commit)
    decreases commit
  {
    SameMounts(left, right, reader, tracker, commit);
    KidsOf(left, reader, tracker, commit);
    KidsOf(right, reader, tracker, commit);
    forall name | name in KidTrees(left, reader, tracker, commit)
      ensures KidTrees(left, reader, tracker, commit)[name] == KidTrees(right, reader, tracker, commit)[name]
    {
      assert Pins(commit.tree)[name] < commit.tree && commit.tree < commit;
      SameTree(left, right, reader, ChildId(tracker, name), Pins(commit.tree)[name]);
    }
    assert KidTrees(left, reader, tracker, commit) == KidTrees(right, reader, tracker, commit);
  }

  lemma SameOne(left: World, right: World, reader: Reader, tracker: Name, commit: Commit, views: seq<Composed>)
    requires Alike(left, right) && AgreeOnPins(left, right, commit) && |views| == |commit.parents|
    ensures ComposeOne(left, reader, tracker, commit, views) == ComposeOne(right, reader, tracker, commit, views)
  {
    SameMounts(left, right, reader, tracker, commit);
    SameTree(left, right, reader, tracker, commit);
    forall tree, data
      ensures MadeView(left, tree, Dedup(Views(views)), data) == MadeView(right, tree, Dedup(Views(views)), data)
    {
    }
    forall holder ensures MetadataOf(left, commit, holder) == MetadataOf(right, commit, holder) {
    }
    SameOneGiven(left, right, reader, tracker, commit, views);
  }

  lemma SameOneGiven(left: World, right: World, reader: Reader, tracker: Name, commit: Commit, views: seq<Composed>)
    requires |views| == |commit.parents|
    requires Mounts(left, reader, tracker, commit) == Mounts(right, reader, tracker, commit)
    requires TreeFor(left, reader, tracker, commit) == TreeFor(right, reader, tracker, commit)
    requires forall tree, data ::
               MadeView(left, tree, Dedup(Views(views)), data) == MadeView(right, tree, Dedup(Views(views)), data)
    requires forall holder :: MetadataOf(left, commit, holder) == MetadataOf(right, commit, holder)
    ensures ComposeOne(left, reader, tracker, commit, views) == ComposeOne(right, reader, tracker, commit, views)
  {
  }

  /** Stores that agree on the pins of a history compose the very same views from it. */
  lemma {:induction false} SameViews(left: World, right: World, reader: Reader, tracker: Name, commit: Commit)
    requires Alike(left, right) && AgreeOnHistory(left, right, commit)
    ensures View(left, reader, tracker, commit) == View(right, reader, tracker, commit)
    decreases commit
  {
    var l := seq(|commit.parents|,
                 i requires 0 <= i < |commit.parents| => View(left, reader, tracker, commit.parents[i]));
    var r := seq(|commit.parents|,
                 i requires 0 <= i < |commit.parents| => View(right, reader, tracker, commit.parents[i]));
    forall i | 0 <= i < |commit.parents| ensures l[i] == r[i] {
      SameViews(left, right, reader, tracker, commit.parents[i]);
    }
    assert l == r;
    if forall i | 0 <= i < |l| :: l[i].Ok? {
      var views := seq(|l|, i requires 0 <= i < |l| => l[i].value);
      SameOne(left, right, reader, tracker, commit, views);
      assert views == seq(|r|, i requires 0 <= i < |r| => r[i].value);
    }
  }

  /** The commits a history pins, and those pin in turn: what composing it may read besides it. */
  ghost predicate HoldsPins(world: World, commit: Commit)
    decreases commit
  {
    forall name | name in Pins(commit.tree) ::
      assert Pins(commit.tree)[name] < commit.tree && commit.tree < commit;
      world.held(Pins(commit.tree)[name]) && HoldsPins(world, Pins(commit.tree)[name])
  }

  ghost predicate HoldsHistoryPins(world: World, commit: Commit)
    decreases commit
  {
    && HoldsPins(world, commit)
    && forall i | 0 <= i < |commit.parents| :: HoldsHistoryPins(world, commit.parents[i])
  }

  lemma {:induction false} PinsHeldAgree(left: World, right: World, commit: Commit)
    requires HoldsPins(left, commit) && HoldsPins(right, commit)
    ensures AgreeOnPins(left, right, commit)
    decreases commit
  {
    forall name | name in Pins(commit.tree) ensures AgreeOnPins(left, right, Pins(commit.tree)[name]) {
      assert Pins(commit.tree)[name] < commit.tree && commit.tree < commit;
      PinsHeldAgree(left, right, Pins(commit.tree)[name]);
    }
  }

  lemma {:induction false} HistoryHeldAgrees(left: World, right: World, commit: Commit)
    requires HoldsHistoryPins(left, commit) && HoldsHistoryPins(right, commit)
    ensures AgreeOnHistory(left, right, commit)
    decreases commit
  {
    PinsHeldAgree(left, right, commit);
    forall i | 0 <= i < |commit.parents| ensures AgreeOnHistory(left, right, commit.parents[i]) {
      HistoryHeldAgrees(left, right, commit.parents[i]);
    }
  }

  /**
   A shallow store, holding each pinned commit and nothing of its history,
   composes for any reader the same view commits as a store holding everything.
   */
  lemma ShallowIsEnough(shallow: World, whole: World, reader: Reader, tracker: Name, commit: Commit)
    requires Alike(shallow, whole)
    requires HoldsHistoryPins(shallow, commit) && HoldsHistoryPins(whole, commit)
    ensures View(shallow, reader, tracker, commit) == View(whole, reader, tracker, commit)
  {
    HistoryHeldAgrees(shallow, whole, commit);
    SameViews(shallow, whole, reader, tracker, commit);
  }
}
