/** What any one reader gets to see. */
module Readers {
  // Views for an arbitrary reader: when they exist, which tree they have, and that
  // no file comes from a withheld child.

  import opened Wrappers
  import opened Names
  import opened Objects
  import opened Compose

  // ---- dropped commits ------------------------------------------------------------

  /** Whether `commit` was dropped: its view is its one parent's. */
  ghost predicate Dropped(world: World, reader: Reader, tracker: Name, commit: Commit) {
    && |commit.parents| == 1
    && Mounts(world, reader, tracker, commit).Ok?
    && View(world, reader, tracker, commit.parents[0]).Ok?
    && OnlyWithheldMoved(commit, Mounts(world, reader, tracker, commit).value, commit.parents[0],
                         View(world, reader, tracker, commit.parents[0]).value.expanded)
  }

  /**
   If `commit` was dropped it left the readable children's mounts where they were,
   and so did what it was dropped for.
   */
  ghost predicate DropsKeepMounts(world: World, reader: Reader, tracker: Name, commit: Commit)
    decreases commit
  {
    Dropped(world, reader, tracker, commit) ==>
      && Mounts(world, reader, tracker, commit) == Mounts(world, reader, tracker, commit.parents[0])
      && DropsKeepMounts(world, reader, tracker, commit.parents[0])
  }

  /** The nearest commit that was not dropped: `commit`, or one behind it. */
  ghost function Undropped(world: World, reader: Reader, tracker: Name, commit: Commit): Commit
    decreases commit
  {
    if Dropped(world, reader, tracker, commit) then Undropped(world, reader, tracker, commit.parents[0]) else commit
  }

  /** Commits that agree on their own files, mounts and readable pins have one tree. */
  lemma SameParts(world: World, reader: Reader, tracker: Name, left: Commit, right: Commit, mounts: map<Name, Path>)
    requires Own(left.tree) == Own(right.tree)
    requires Mounts(world, reader, tracker, left) == Ok(mounts) == Mounts(world, reader, tracker, right)
    requires forall name | name in mounts ::
               name in Pins(left.tree) && name in Pins(right.tree) && Pins(left.tree)[name] == Pins(right.tree)[name]
    ensures TreeFor(world, reader, tracker, left) == TreeFor(world, reader, tracker, right)
  {
    var l, r := KidTrees(world, reader, tracker, left), KidTrees(world, reader, tracker, right);
    assert l.Keys == mounts.Keys == r.Keys;
    forall name | name in l ensures l[name] == r[name] {
      KidAt(world, reader, tracker, left, name);
      KidAt(world, reader, tracker, right, name);
    }
    assert l == r;
    SameKids(world, reader, tracker, left, right);
  }

  lemma SameKids(world: World, reader: Reader, tracker: Name, left: Commit, right: Commit)
    requires Own(left.tree) == Own(right.tree)
    requires Mounts(world, reader, tracker, left) == Mounts(world, reader, tracker, right)
    requires KidTrees(world, reader, tracker, left) == KidTrees(world, reader, tracker, right)
    ensures TreeFor(world, reader, tracker, left) == TreeFor(world, reader, tracker, right)
  {
  }

  lemma UnmovedPins(commit: Commit, parent: Commit, mounts: map<Name, Path>, expanded: set<Name>)
    requires OnlyWithheldMoved(commit, mounts, parent, expanded) && mounts.Keys <= Pins(commit.tree).Keys
    ensures forall name | name in mounts ::
              name in Pins(parent.tree) && Pins(commit.tree)[name] == Pins(parent.tree)[name]
  {
    assert forall name | name in mounts :: name !in Moved(Pins(commit.tree), Pins(parent.tree));
  }

  /** What composing one commit comes to: its parent's view if it is dropped, and a commit of its own tree otherwise. */
  lemma OneOf(world: World, commit: Commit, mounts: map<Name, Path>, tree: Tree, views: seq<Composed>)
    requires |views| == |commit.parents| && mounts.Keys <= Pins(commit.tree).Keys
    ensures var one := Decided(world, commit, mounts, tree, views);
            if |views| == 1 && OnlyWithheldMoved(commit, mounts, commit.parents[0], views[0].expanded)
            then one == views[0] else one.view.tree == tree
  {
  }

  /** For any reader and history, a view commit's tree is what the nearest undropped commit has for them. */
  lemma {:induction false} ViewTreeIs(world: World, reader: Reader, tracker: Name, commit: Commit)
    requires View(world, reader, tracker, commit).Ok?
    ensures TreeFor(world, reader, tracker, Undropped(world, reader, tracker, commit))
            == Ok(View(world, reader, tracker, commit).value.view.tree)
    decreases commit
  {
    var views := ViewsOfParents(world, reader, tracker, commit);
    OneOf(world, commit, Mounts(world, reader, tracker, commit).value, TreeFor(world, reader, tracker, commit).value,
          views);
    if Dropped(world, reader, tracker, commit) { ViewTreeIs(world, reader, tracker, commit.parents[0]); }
  }

  /** For any reader, the view commit of a root commit has the tree that root commit has for them. */
  lemma {:induction false} ViewHasTree(world: World, reader: Reader, tracker: Name, commit: Commit)
    requires View(world, reader, tracker, commit).Ok? && DropsKeepMounts(world, reader, tracker, commit)
    ensures TreeFor(world, reader, tracker, commit) == Ok(View(world, reader, tracker, commit).value.view.tree)
    decreases commit
  {
    var views := ViewsOfParents(world, reader, tracker, commit);
    var mounts := Mounts(world, reader, tracker, commit).value;
    OneOf(world, commit, mounts, TreeFor(world, reader, tracker, commit).value, views);
    if |views| == 1 {
      var parent := commit.parents[0];
      if OnlyWithheldMoved(commit, mounts, parent, views[0].expanded) {
        assert Dropped(world, reader, tracker, commit);
        ViewHasTree(world, reader, tracker, parent);
        UnmovedPins(commit, parent, mounts, views[0].expanded);
        SameParts(world, reader, tracker, commit, parent, mounts);
      }
    }
  }

  /** A root commit composes exactly when every commit behind it does on its own. */
  ghost predicate EveryCommitReads(world: World, reader: Reader, tracker: Name, commit: Commit)
    decreases commit
  {
    && Mounts(world, reader, tracker, commit).Ok? && TreeFor(world, reader, tracker, commit).Ok?
    && forall i | 0 <= i < |commit.parents| :: EveryCommitReads(world, reader, tracker, commit.parents[i])
  }

  lemma {:induction false} ComposesExactlyWhen(world: World, reader: Reader, tracker: Name, commit: Commit)
    ensures View(world, reader, tracker, commit).Ok? <==> EveryCommitReads(world, reader, tracker, commit)
    decreases commit
  {
    forall i | 0 <= i < |commit.parents|
      ensures View(world, reader, tracker, commit.parents[i]).Ok? <==>
                EveryCommitReads(world, reader, tracker, commit.parents[i])
    {
      ComposesExactlyWhen(world, reader, tracker, commit.parents[i]);
    }
    if View(world, reader, tracker, commit).Ok? {
      var views := ViewsOfParents(world, reader, tracker, commit);
    }
  }

  // ---- when mounts cannot move under a dropped commit --------------------------------

  /** The definitions are the tracker's own files, and no merge joins withheld pins. */
  ghost predicate Plain(world: World, reader: Reader, tracker: Name, commit: Commit)
    decreases commit
  {
    && Subtree(commit.tree, DEFINITIONS_DIR).Some?
    && (|commit.parents| > 1 && Mounts(world, reader, tracker, commit).Ok? ==>
          !JoinsWithheld(Pins(commit.tree), Mounts(world, reader, tracker, commit).value, commit.parents))
    && forall i | 0 <= i < |commit.parents| :: Plain(world, reader, tracker, commit.parents[i])
  }

  lemma DefinitionsOwn(tree: Tree)
    ensures Subtree(Own(tree), DEFINITIONS_DIR) == Subtree(tree, DEFINITIONS_DIR)
  {
    assert PINS_DIR[1] != DEFINITIONS_DIR[1];
    SetPathElsewhere(tree, PINS_DIR, None, DEFINITIONS_DIR);
  }

  lemma SameDefinitions(world: World, left: Tree, right: Tree, leftPins: map<Name, Commit>,
                        rightPins: map<Name, Commit>, wanted: set<Name>)
    requires Own(left) == Own(right) && Subtree(left, DEFINITIONS_DIR).Some?
    ensures MountsOf(world, left, leftPins, wanted) == MountsOf(world, right, rightPins, wanted)
  {
    DefinitionsOwn(left);
    DefinitionsOwn(right);
  }

  lemma SameReadable(world: World, reader: Reader, tracker: Name, commit: Commit, parent: Commit,
                     mounts: map<Name, Path>, parentMounts: map<Name, Path>)
    requires OnlyWithheldMoved(commit, mounts, parent, parentMounts.Keys)
    requires mounts.Keys == ReadablePins(world, reader, tracker, Pins(commit.tree)).Keys
    requires parentMounts.Keys == ReadablePins(world, reader, tracker, Pins(parent.tree)).Keys
    ensures mounts.Keys == parentMounts.Keys
  {
    var moved := Moved(Pins(commit.tree), Pins(parent.tree));
    forall name | name in mounts || name in parentMounts ensures name in mounts && name in parentMounts {
      assert name !in moved;
    }
  }

  /**
   In a plain history every drop keeps the mounts, so the view's tree is the
   root commit's with no further premise.
   */
  lemma {:induction false} PlainDropsKeepMounts(world: World, reader: Reader, tracker: Name, commit: Commit)
    requires View(world, reader, tracker, commit).Ok? && Plain(world, reader, tracker, commit)
    ensures DropsKeepMounts(world, reader, tracker, commit)
    ensures Mounts(world, reader, tracker, commit).Ok?
    ensures View(world, reader, tracker, commit).value.expanded == Mounts(world, reader, tracker, commit).value.Keys
    decreases commit
  {
    var views := ViewsOfParents(world, reader, tracker, commit);
    forall i | 0 <= i < |views|
      ensures DropsKeepMounts(world, reader, tracker, commit.parents[i])
      ensures Mounts(world, reader, tracker, commit.parents[i]).Ok?
      ensures views[i].expanded == Mounts(world, reader, tracker, commit.parents[i]).value.Keys
    {
      PlainDropsKeepMounts(world, reader, tracker, commit.parents[i]);
    }
    var mounts := Mounts(world, reader, tracker, commit).value;
    NotMerged(world, reader, tracker, commit, views);
    if |views| == 1 && OnlyWithheldMoved(commit, mounts, commit.parents[0], views[0].expanded) {
      var parent := commit.parents[0];
      var parentMounts := Mounts(world, reader, tracker, parent).value;
      SameReadable(world, reader, tracker, commit, parent, mounts, parentMounts);
      SameDefinitions(world, commit.tree, parent.tree, Pins(commit.tree), Pins(parent.tree), mounts.Keys);
    }
  }

  lemma NotMerged(world: World, reader: Reader, tracker: Name, commit: Commit, views: seq<Composed>)
    requires |views| == |commit.parents|
    requires Mounts(world, reader, tracker, commit).Ok? && TreeFor(world, reader, tracker, commit).Ok?
    requires |views| > 1 ==>
               !JoinsWithheld(Pins(commit.tree), Mounts(world, reader, tracker, commit).value, commit.parents)
    ensures var mounts := Mounts(world, reader, tracker, commit).value;
            var composed := ComposeOne(world, reader, tracker, commit, views).value;
            if |views| == 1 && OnlyWithheldMoved(commit, mounts, commit.parents[0], views[0].expanded)
            then composed == views[0]
            else composed.expanded == mounts.Keys
  {
  }

  lemma PlainViewHasTree(world: World, reader: Reader, tracker: Name, commit: Commit)
    requires View(world, reader, tracker, commit).Ok? && Plain(world, reader, tracker, commit)
    ensures TreeFor(world, reader, tracker, commit) == Ok(View(world, reader, tracker, commit).value.view.tree)
  {
    PlainDropsKeepMounts(world, reader, tracker, commit);
    ViewHasTree(world, reader, tracker, commit);
  }

  // ---- nothing withheld is seen ----------------------------------------------------

  /**
   The reader gets child `name` of this commit: it is pinned, they may read it by
   its id, the pin is one they may expand, and its commit is here.
   */
  ghost predicate Gets(world: World, reader: Reader, tracker: Name, commit: Commit, name: Name) {
    var pins, id := Pins(commit.tree), ChildId(tracker, name);
    name in pins && reader.readable(id) && reader.admit(id, pins[name]) && world.held(pins[name])
  }

  /** Mounted are exactly the children the reader gets, and so are those whose trees are made. */
  lemma MountedAreGot(world: World, reader: Reader, tracker: Name, commit: Commit, name: Name)
    ensures name in KidTrees(world, reader, tracker, commit) <==> Gets(world, reader, tracker, commit, name)
    ensures Mounts(world, reader, tracker, commit).Ok? ==>
              (name in Mounts(world, reader, tracker, commit).value <==> Gets(world, reader, tracker, commit, name))
  {
  }

  /**
   `entry` at `path` comes from what the reader may read: a file of the tracker's
   own at this commit, or of a child they get, at its mount.
   */
  ghost predicate MaySee(world: World, reader: Reader, tracker: Name, commit: Commit, path: Path, entry: Entry)
    decreases commit
  {
    || FileAt(Own(commit.tree), path) == Some(entry)
    || (Mounts(world, reader, tracker, commit).Ok? &&
        var pins, mounts := Pins(commit.tree), Mounts(world, reader, tracker, commit).value;
        exists name | name in pins && name in mounts && mounts[name] <= path ::
          assert pins[name] < commit.tree && commit.tree < commit;
          Gets(world, reader, tracker, commit, name)
          && MaySee(world, reader, ChildId(tracker, name), pins[name], path[|mounts[name]|..], entry))
  }

  /** Grafting adds files of the child's at its mount, and no others. */
  lemma GraftFiles(tree: Tree, mount: Path, child: Tree, path: Path)
    requires Clean(tree) && Clean(child)
    ensures var found := FileAt(Graft(tree, mount, child), path);
            found.Some? ==> found == FileAt(tree, path)
                            || (mount <= path && found == FileAt(child, path[|mount|..]))
    ensures Clean(Graft(tree, mount, child))
  {
    if mount == [] {
      OverlayFiles(tree, child, path);
      OverlayClean(tree, child);
      assert path[0..] == path;
    } else {
      var existing := Subtree(tree, mount);
      var merged := if existing.Some? then Overlay(existing.value, child) else child;
      if existing.Some? {
        SubtreeClean(tree, mount);
        OverlayClean(existing.value, child);
      }
      var entry := if merged == EMPTY then None else Some(Sub(merged));
      SetPathFiles(tree, mount, entry, path);
      SetPathClean(tree, mount, entry);
      if mount <= path && existing.Some? {
        var rest := path[|mount|..];
        OverlayFiles(existing.value, child, rest);
        assert path == mount + rest;
        SubtreeFiles(tree, mount, rest);
      }
    }
  }

  /** Every file of `tree` is `own`'s or some child's in `order`, at its mount. */
  lemma {:induction false} GraftedFiles(own: Tree, order: seq<Name>, mounts: map<Name, Path>, kids: map<Name, Tree>,
                                        path: Path)
    requires forall name | name in order :: name in mounts && name in kids && Clean(kids[name])
    requires Clean(own)
    ensures var found := FileAt(WithChildren(own, order, mounts, kids), path);
            found.Some? ==> found == FileAt(own, path)
                            || exists name | name in order && mounts[name] <= path ::
                                 found == FileAt(kids[name], path[|mounts[name]|..])
    ensures Clean(WithChildren(own, order, mounts, kids))
    decreases |order|
  {
    if order != [] {
      assert order == [order[0]] + order[1..];
      GraftFiles(own, mounts[order[0]], kids[order[0]], path);
      GraftedFiles(Graft(own, mounts[order[0]], kids[order[0]]), order[1..], mounts, kids, path);
    }
  }

  /** Trees as Git stores them, this commit's and every pinned one's. */
  ghost predicate CleanPins(commit: Commit)
    decreases commit
  {
    && Clean(commit.tree)
    && forall name | name in Pins(commit.tree) ::
         assert Pins(commit.tree)[name] < commit.tree && commit.tree < commit;
         CleanPins(Pins(commit.tree)[name])
  }

  lemma TreeForParts(world: World, reader: Reader, tracker: Name, commit: Commit)
    returns (mounts: map<Name, Path>, kids: map<Name, Tree>)
    requires TreeFor(world, reader, tracker, commit).Ok?
    ensures Mounts(world, reader, tracker, commit) == Ok(mounts)
    ensures mounts.Keys == kids.Keys == ReadablePins(world, reader, tracker, Pins(commit.tree)).Keys
    ensures forall name | name in kids ::
              TreeFor(world, reader, ChildId(tracker, name), Pins(commit.tree)[name]) == Ok(kids[name])
    ensures TreeFor(world, reader, tracker, commit).value
              == WithChildren(Own(commit.tree), ByDepth(mounts), mounts, kids)
  {
    mounts := Mounts(world, reader, tracker, commit).value;
    KidsOf(world, reader, tracker, commit);
    kids := Trees(KidTrees(world, reader, tracker, commit));
  }

  /**
   Every file a reader's tree holds is one they may see: what is withheld, and
   everything mounted inside it, is left out.
   */
  lemma {:induction false} OnlyWhatMayBeSeen(world: World, reader: Reader, tracker: Name, commit: Commit, path: Path)
    requires TreeFor(world, reader, tracker, commit).Ok? && CleanPins(commit)
    ensures Clean(TreeFor(world, reader, tracker, commit).value)
    ensures var found := FileAt(TreeFor(world, reader, tracker, commit).value, path);
            found.Some? ==> MaySee(world, reader, tracker, commit, path, found.value)
    decreases commit
  {
    var mounts, kids := TreeForParts(world, reader, tracker, commit);
    forall name | name in kids ensures Clean(kids[name]) {
      assert Pins(commit.tree)[name] < commit.tree && commit.tree < commit;
      OnlyWhatMayBeSeen(world, reader, ChildId(tracker, name), Pins(commit.tree)[name], []);
    }
    SetPathClean(commit.tree, PINS_DIR, None);
    GraftedFiles(Own(commit.tree), ByDepth(mounts), mounts, kids, path);
    var found := FileAt(TreeFor(world, reader, tracker, commit).value, path);
    if found.Some? && found != FileAt(Own(commit.tree), path) {
      var name :| name in ByDepth(mounts) && mounts[name] <= path
          && found == FileAt(kids[name], path[|mounts[name]|..]);
      assert Pins(commit.tree)[name] < commit.tree && commit.tree < commit;
      MountedAreGot(world, reader, tracker, commit, name);
      OnlyWhatMayBeSeen(world, reader, ChildId(tracker, name), Pins(commit.tree)[name], path[|mounts[name]|..]);
    }
  }
}
