/** Whose view a commit's is. */
module Views {
  // For any reader: when a commit's view is a parent's, and otherwise whose author,
  // message and headers it carries.

  import opened Wrappers
  import opened Objects
  import opened Order
  import opened Compose
  import opened Readers
  import Messages

  function PinOf(commit: Commit, name: Name): Option<Commit> {
    if name in Pins(commit.tree) then Some(Pins(commit.tree)[name]) else None
  }

  // ---- one decision ------------------------------------------------------------

  /** Own files are the parent's, some pin is not, and no pin that differs is among `mounts` or was among `expanded`. */
  ghost predicate Withheld(commit: Commit, parent: Commit, mounts: set<Name>, expanded: set<Name>) {
    && Own(commit.tree) == Own(parent.tree)
    && (exists name :: PinOf(commit, name) != PinOf(parent, name))
    && forall name | PinOf(commit, name) != PinOf(parent, name) :: name !in mounts && name !in expanded
  }

  /** Something is pinned here and not among `mounts` that two of the parents have different pins for, or one none. */
  ghost predicate JoinsOthers(commit: Commit, mounts: set<Name>) {
    exists name, i, j | 0 <= i < |commit.parents| && 0 <= j < |commit.parents| ::
      && PinOf(commit, name).Some? && name !in mounts
      && PinOf(commit.parents[i], name) != PinOf(commit.parents[j], name)
  }

  /** The `i`-th view has this tree, and every other is behind it. */
  ghost predicate Leads(views: seq<Composed>, tree: Tree, i: int) {
    && 0 <= i < |views| && views[i].view.tree == tree
    && forall other | other in views :: other.view == views[i].view || IsAncestor(other.view, views[i].view)
  }

  lemma WithheldIs(commit: Commit, parent: Commit, mounts: map<Name, Path>, expanded: set<Name>)
    ensures OnlyWithheldMoved(commit, mounts, parent, expanded) <==> Withheld(commit, parent, mounts.Keys, expanded)
  {
    var moved := Moved(Pins(commit.tree), Pins(parent.tree));
    assert forall name :: name in moved <==> PinOf(commit, name) != PinOf(parent, name);
    if moved != {} {
      var name :| name in moved;
      assert PinOf(commit, name) != PinOf(parent, name);
    }
  }

  lemma JoinsIs(commit: Commit, mounts: map<Name, Path>)
    ensures JoinsWithheld(Pins(commit.tree), mounts, commit.parents) <==> JoinsOthers(commit, mounts.Keys)
  {
    var pins, parents := Pins(commit.tree), commit.parents;
    if JoinsWithheld(pins, mounts, parents) {
      var name :| name in pins && name !in mounts && exists i | 0 <= i < |parents| ::
        var side, first := Pins(parents[i].tree), Pins(parents[0].tree);
        (if name in side then Some(side[name]) else None) != (if name in first then Some(first[name]) else None);
      var i :| 0 <= i < |parents| && PinOf(parents[i], name) != PinOf(parents[0], name);
      assert PinOf(commit, name).Some?;
    }
    if JoinsOthers(commit, mounts.Keys) {
      var name, i, j :| 0 <= i < |parents| && 0 <= j < |parents| && PinOf(commit, name).Some? && name !in mounts
                        && PinOf(parents[i], name) != PinOf(parents[j], name);
      assert PinOf(parents[i], name) != PinOf(parents[0], name) || PinOf(parents[j], name) != PinOf(parents[0], name);
    }
  }

  lemma {:induction false} EmptyMergeIs(views: seq<Composed>, tree: Tree, from: nat)
    requires from <= |views|
    ensures var found := EmptyMerge(views, tree, from);
            && (found.Some? ==> from <= found.value < |views| && Leads(views, tree, found.value))
            && forall i | from <= i < |views| && (found.None? || i < found.value) :: !Leads(views, tree, i)
    decreases |views| - from
  {
    if from < |views| {
      assert Leads(views, tree, from) <==> views[from].view.tree == tree && AheadOfAll(views, from);
      EmptyMergeIs(views, tree, from + 1);
    }
  }

  /** A commit that is made has the parents' views for parents, so it is none of them. */
  lemma MadeIsNew(world: World, tree: Tree, views: seq<Composed>, data: Metadata, i: nat)
    requires i < |views|
    ensures MadeView(world, tree, Dedup(Views(views)), data) != views[i].view
  {
    var made := MadeView(world, tree, Dedup(Views(views)), data);
    assert Views(views)[i] == views[i].view && views[i].view in made.parents;
  }

  /** Which of its parents' views a commit's is, if any. */
  ghost predicate PassesOver(commit: Commit, mounts: set<Name>, tree: Tree, views: seq<Composed>, i: int)
    requires |views| == |commit.parents|
  {
    || (|views| == 1 && i == 0 && Withheld(commit, commit.parents[0], mounts, views[0].expanded))
    || (|views| > 1 && JoinsOthers(commit, mounts) && Leads(views, tree, i)
        && forall k | 0 <= k < i :: !Leads(views, tree, k))
  }

  /** The view of a commit is a parent's, or made with all of theirs for parents. */
  lemma DecidedIs(world: World, commit: Commit, mounts: map<Name, Path>, tree: Tree, views: seq<Composed>)
    requires |views| == |commit.parents| && mounts.Keys <= Pins(commit.tree).Keys
    ensures var one := Decided(world, commit, mounts, tree, views);
            && (forall i | PassesOver(commit, mounts.Keys, tree, views, i) :: 0 <= i < |views| && one == views[i])
            && ((forall i :: !PassesOver(commit, mounts.Keys, tree, views, i)) ==>
                  one == Composed(MadeView(world, tree, Dedup(Views(views)),
                                           MetadataOf(world, commit, HolderOf(commit, mounts, views))), mounts.Keys))
  {
    if |views| == 1 {
      WithheldIs(commit, commit.parents[0], mounts, views[0].expanded);
      assert PassesOver(commit, mounts.Keys, tree, views, 0)
          <==> OnlyWithheldMoved(commit, mounts, commit.parents[0], views[0].expanded);
    } else if |views| > 1 {
      JoinsIs(commit, mounts);
      EmptyMergeIs(views, tree, 0);
      var found := EmptyMerge(views, tree, 0);
      if JoinsOthers(commit, mounts.Keys) && found.Some? {
        assert PassesOver(commit, mounts.Keys, tree, views, found.value);
        forall i | PassesOver(commit, mounts.Keys, tree, views, i) ensures i == found.value { }
      }
    }
  }

  // ---- any reader's view ---------------------------------------------------------

  /** The children the reader gets of this commit. */
  ghost function Got(world: World, reader: Reader, tracker: Name, commit: Commit): set<Name> {
    set name | name in Pins(commit.tree) && Gets(world, reader, tracker, commit, name)
  }

  lemma MountsAreGot(world: World, reader: Reader, tracker: Name, commit: Commit, mounts: map<Name, Path>)
    requires Mounts(world, reader, tracker, commit) == Ok(mounts)
    ensures mounts.Keys == Got(world, reader, tracker, commit)
  {
    forall name ensures name in mounts <==> name in Got(world, reader, tracker, commit) {
      MountedAreGot(world, reader, tracker, commit, name);
    }
  }

  /** These are the parents' views. */
  ghost predicate AreViews(world: World, reader: Reader, tracker: Name, commit: Commit, views: seq<Composed>) {
    && |views| == |commit.parents|
    && forall i | 0 <= i < |views| :: View(world, reader, tracker, commit.parents[i]) == Ok(views[i])
  }

  lemma ViewIsDecided(world: World, reader: Reader, tracker: Name, commit: Commit, views: seq<Composed>)
    returns (mounts: map<Name, Path>, tree: Tree)
    requires View(world, reader, tracker, commit).Ok? && AreViews(world, reader, tracker, commit, views)
    ensures Mounts(world, reader, tracker, commit) == Ok(mounts) && mounts.Keys == Got(world, reader, tracker, commit)
    ensures TreeFor(world, reader, tracker, commit) == Ok(tree) && mounts.Keys <= Pins(commit.tree).Keys
    ensures View(world, reader, tracker, commit) == Ok(Decided(world, commit, mounts, tree, views))
  {
    ViewGiven(world, reader, tracker, commit, views);
    ComposedNeeds(world, reader, tracker, commit, views);
    mounts, tree := Mounts(world, reader, tracker, commit).value, TreeFor(world, reader, tracker, commit).value;
    MountsAreGot(world, reader, tracker, commit, mounts);
  }

  /**
   A commit's view is one of its parents' views if and only if only pins of children this reader does
   not get moved, nor had in the parent's view; or the commit merges such pins, and leaves the reader
   with what one parent had, which is ahead of all the others. The first such view it is.
   */
  lemma PassedOverExactlyWhen(world: World, reader: Reader, tracker: Name, commit: Commit, views: seq<Composed>)
    requires View(world, reader, tracker, commit).Ok? && AreViews(world, reader, tracker, commit, views)
    ensures TreeFor(world, reader, tracker, commit).Ok?
    ensures var got, tree := Got(world, reader, tracker, commit), TreeFor(world, reader, tracker, commit).value;
            && (View(world, reader, tracker, commit).value in views <==>
                  exists i :: PassesOver(commit, got, tree, views, i))
            && forall i | PassesOver(commit, got, tree, views, i) ::
                 0 <= i < |views| && View(world, reader, tracker, commit) == Ok(views[i])
  {
    var mounts, tree := ViewIsDecided(world, reader, tracker, commit, views);
    DecidedIs(world, commit, mounts, tree, views);
    if forall i :: !PassesOver(commit, mounts.Keys, tree, views, i) { NewOrOld(world, commit, mounts, tree, views); }
  }

  lemma NewOrOld(world: World, commit: Commit, mounts: map<Name, Path>, tree: Tree, views: seq<Composed>)
    requires |views| == |commit.parents| && mounts.Keys <= Pins(commit.tree).Keys
    requires forall i :: !PassesOver(commit, mounts.Keys, tree, views, i)
    ensures Decided(world, commit, mounts, tree, views) !in views
  {
    DecidedIs(world, commit, mounts, tree, views);
    forall i: nat | i < |views| ensures Decided(world, commit, mounts, tree, views) != views[i] {
      MadeIsNew(world, tree, views, MetadataOf(world, commit, HolderOf(commit, mounts, views)), i);
    }
  }

  // ---- author, message and headers ---------------------------------------------------

  /** The child's pin is none that a parent had in its view. */
  ghost predicate NewTo(commit: Commit, views: seq<Composed>, name: Name)
    requires |views| == |commit.parents|
  {
    && name in Pins(commit.tree)
    && forall i | 0 <= i < |views| ::
         PinOf(commit.parents[i], name) != PinOf(commit, name) || name !in views[i].expanded
  }

  lemma KeptIsNotNew(commit: Commit, views: seq<Composed>, name: Name)
    requires |views| == |commit.parents| && name in Pins(commit.tree)
    ensures PinKept(name, Pins(commit.tree)[name], commit.parents, views) <==> !NewTo(commit, views, name)
  {
  }

  /** The first new child in `order` is at `at`; at the end, there is none. */
  ghost predicate FirstAt(order: seq<Name>, commit: Commit, views: seq<Composed>, at: nat)
    requires |views| == |commit.parents|
  {
    && at <= |order| && (at < |order| ==> NewTo(commit, views, order[at]))
    && forall k | 0 <= k < at :: !NewTo(commit, views, order[k])
  }

  lemma FirstLater(order: seq<Name>, commit: Commit, views: seq<Composed>, rest: nat)
    requires |views| == |commit.parents| && order != [] && !NewTo(commit, views, order[0])
    requires FirstAt(order[1..], commit, views, rest)
    ensures FirstAt(order, commit, views, rest + 1)
  {
    forall k | 0 < k <= rest ensures !NewTo(commit, views, order[k]) { assert order[1..][k - 1] == order[k]; }
  }

  lemma WorkHolderNext(order: seq<Name>, commit: Commit, views: seq<Composed>)
    requires |views| == |commit.parents| && forall name | name in order :: name in Pins(commit.tree)
    requires order != []
    ensures WorkHolder(order, Pins(commit.tree), commit.parents, views)
            == if NewTo(commit, views, order[0]) then PinOf(commit, order[0])
               else WorkHolder(order[1..], Pins(commit.tree), commit.parents, views)
  {
    KeptIsNotNew(commit, views, order[0]);
  }

  lemma {:induction false} WorkHolderIs(order: seq<Name>, commit: Commit, views: seq<Composed>)
    returns (at: nat)
    requires |views| == |commit.parents| && forall name | name in order :: name in Pins(commit.tree)
    ensures FirstAt(order, commit, views, at)
    ensures WorkHolder(order, Pins(commit.tree), commit.parents, views)
            == if at == |order| then None else PinOf(commit, order[at])
    decreases |order|
  {
    at := 0;
    if order != [] {
      WorkHolderNext(order, commit, views);
      if !NewTo(commit, views, order[0]) {
        var rest := WorkHolderIs(order[1..], commit, views);
        at := rest + 1;
        FirstLater(order, commit, views, rest);
      }
    }
  }

  /** The first such child, shallow mounts before deep ones. */
  ghost predicate FirstNew(commit: Commit, views: seq<Composed>, mounts: map<Name, Path>, name: Name)
    requires |views| == |commit.parents|
  {
    && name in mounts && NewTo(commit, views, name)
    && forall other | other in mounts && NewTo(commit, views, other) ::
         KeyAtMost(DepthKey(mounts)(name), DepthKey(mounts)(other))
  }

  lemma FirstInOrder(mounts: map<Name, Path>, i: nat, j: nat)
    requires i <= j < |ByDepth(mounts)|
    ensures KeyAtMost(DepthKey(mounts)(ByDepth(mounts)[i]), DepthKey(mounts)(ByDepth(mounts)[j]))
  {
    KeyAtMostTotal(DepthKey(mounts)(ByDepth(mounts)[i]), DepthKey(mounts)(ByDepth(mounts)[j]));
  }

  /** Mounts are written with slashes. */
  lemma {:induction false} MountText(mount: Path, name: Name)
    ensures PathText([]) == "." && PathText([name]) == name
    ensures mount != [] ==> PathText(mount + [name]) == PathText(mount) + "/" + name
    decreases |mount|
  {
    if |mount| == 1 {
      assert (mount + [name])[1..] == [name];
    } else if |mount| > 1 {
      MountText(mount[1..], name);
      assert (mount + [name])[1..] == mount[1..] + [name];
      assert mount[0] + "/" + (PathText(mount[1..]) + "/" + name) == mount[0] + "/" + PathText(mount[1..]) + "/" + name;
    }
  }

  /**
   The first new child has the least deep mount of them, of those as deep the first
   as written, and the lesser name.
   */
  lemma FirstByMount(commit: Commit, views: seq<Composed>, mounts: map<Name, Path>, name: Name, other: Name)
    requires |views| == |commit.parents| && FirstNew(commit, views, mounts, name)
    requires other in mounts && NewTo(commit, views, other)
    ensures var mine, its := mounts[name], mounts[other];
            || |mine| < |its|
            || (|mine| == |its| && PathText(mine) != PathText(its) && AtMost(PathText(mine), PathText(its)))
            || (PathText(mine) == PathText(its) && AtMost(name, other))
  {
    assert KeyAtMost(DepthKey(mounts)(name), DepthKey(mounts)(other));
  }

  /** The commit changed files of its own, against its first parent. */
  ghost predicate TouchesOwn(commit: Commit) {
    Own(commit.tree) != if commit.parents == [] then EMPTY else Own(commit.parents[0].tree)
  }

  lemma HolderGiven(commit: Commit, mounts: map<Name, Path>, views: seq<Composed>, split: Option<Messages.SplitFrom>)
    requires |views| == |commit.parents| && mounts.Keys <= Pins(commit.tree).Keys
    requires split == Messages.ParseSplit(commit.message)
    ensures HolderOf(commit, mounts, views)
            == if split.Some? && !TouchesOwn(commit)
               then WorkHolder(ByDepth(mounts), Pins(commit.tree), commit.parents, views) else None
  {
  }

  /** `holder` is the first new child's commit, if there is one and it counts. */
  ghost predicate Holds(commit: Commit, mounts: map<Name, Path>, views: seq<Composed>, counts: bool,
                        holder: Option<Commit>)
    requires |views| == |commit.parents|
  {
    && (holder.Some? ==> counts && exists name :: FirstNew(commit, views, mounts, name))
    && (counts ==> forall name | FirstNew(commit, views, mounts, name) :: holder == PinOf(commit, name))
  }

  /** Whose author and message a commit's view has: the first new child's, where the commit only moved pins. */
  lemma HolderIs(commit: Commit, mounts: map<Name, Path>, views: seq<Composed>, split: Option<Messages.SplitFrom>)
    requires |views| == |commit.parents| && mounts.Keys <= Pins(commit.tree).Keys
    requires split == Messages.ParseSplit(commit.message)
    ensures Holds(commit, mounts, views, split.Some? && !TouchesOwn(commit), HolderOf(commit, mounts, views))
  {
    HolderGiven(commit, mounts, views, split);
    FirstHolds(commit, mounts, views, WorkHolder(ByDepth(mounts), Pins(commit.tree), commit.parents, views));
  }

  lemma FirstHolds(commit: Commit, mounts: map<Name, Path>, views: seq<Composed>, holder: Option<Commit>)
    requires |views| == |commit.parents| && mounts.Keys <= Pins(commit.tree).Keys
    requires holder == WorkHolder(ByDepth(mounts), Pins(commit.tree), commit.parents, views)
    ensures Holds(commit, mounts, views, true, holder)
  {
    var at := WorkHolderIs(ByDepth(mounts), commit, views);
    FirstIs(commit, views, mounts, at);
    if at < |ByDepth(mounts)| { assert FirstNew(commit, views, mounts, ByDepth(mounts)[at]); }
  }

  lemma FirstIs(commit: Commit, views: seq<Composed>, mounts: map<Name, Path>, at: nat)
    requires |views| == |commit.parents| && FirstAt(ByDepth(mounts), commit, views, at)
    ensures forall name :: FirstNew(commit, views, mounts, name) <==>
              at < |ByDepth(mounts)| && name == ByDepth(mounts)[at]
  {
    var order := ByDepth(mounts);
    forall other | other in mounts && NewTo(commit, views, other)
      ensures at < |order| && KeyAtMost(DepthKey(mounts)(order[at]), DepthKey(mounts)(other))
    {
      var k :| 0 <= k < |order| && order[k] == other;
      FirstInOrder(mounts, at, k);
    }
    if at < |order| {
      assert order[at] in order;
      forall name | FirstNew(commit, views, mounts, name) ensures name == order[at] {
        KeyAtMostAntisymmetric(DepthKey(mounts)(name), DepthKey(mounts)(order[at]));
      }
    }
  }

  /** Headers kept whole where that makes the commit the id it had, and without signatures elsewhere. */
  ghost predicate HeadersFor(world: World, view: Commit, headers: Bytes, id: Bytes) {
    if world.id(view.(headers := headers)) == id then view.headers == headers
    else view.headers == Messages.UnsignedHeaders(headers)
  }

  /** The view's parents are the parents' views, each once; in their order where none comes twice. */
  ghost predicate OnTheViews(view: Commit, views: seq<Composed>) {
    && Distinct(view.parents)
    && (forall parent :: parent in view.parents <==> exists i :: 0 <= i < |views| && views[i].view == parent)
    && (Distinct(Views(views)) ==> view.parents == Views(views))
  }

  lemma OnViews(views: seq<Composed>)
    ensures Distinct(Dedup(Views(views)))
    ensures forall parent :: parent in Dedup(Views(views)) <==> exists i :: 0 <= i < |views| && views[i].view == parent
  {
    forall parent
      ensures parent in Dedup(Views(views)) <==> exists i :: 0 <= i < |views| && views[i].view == parent
    {
      if i :| 0 <= i < |views| && views[i].view == parent { assert Views(views)[i] == parent; }
    }
  }

  /** Who the author is, and what the message. */
  ghost predicate Signed(view: Commit, author: Bytes, committer: Bytes, message: Bytes) {
    view.author == author && view.committer == committer && view.message == message
  }

  /**
   A commit no split made keeps its author, committer and message in any reader's
   view, and its headers where the view is a commit of the same id.
   */
  lemma OwnMetadata(world: World, reader: Reader, tracker: Name, commit: Commit, views: seq<Composed>)
    requires View(world, reader, tracker, commit).Ok? && AreViews(world, reader, tracker, commit, views)
    requires View(world, reader, tracker, commit).value !in views && Messages.ParseSplit(commit.message).None?
    ensures var one := View(world, reader, tracker, commit).value;
            && TreeFor(world, reader, tracker, commit) == Ok(one.view.tree)
            && one.expanded == Got(world, reader, tracker, commit)
            && OnTheViews(one.view, views)
            && Signed(one.view, commit.author, commit.committer, commit.message)
            && HeadersFor(world, one.view, commit.headers, world.id(commit))
  {
    var mounts, tree := MadeHere(world, reader, tracker, commit, views);
    HolderIs(commit, mounts, views, None);
    OnViews(views);
  }

  /** A view that is none of the parents' is made. */
  lemma MadeHere(world: World, reader: Reader, tracker: Name, commit: Commit, views: seq<Composed>)
    returns (mounts: map<Name, Path>, tree: Tree)
    requires View(world, reader, tracker, commit).Ok? && AreViews(world, reader, tracker, commit, views)
    requires View(world, reader, tracker, commit).value !in views
    ensures Mounts(world, reader, tracker, commit) == Ok(mounts) && mounts.Keys == Got(world, reader, tracker, commit)
    ensures TreeFor(world, reader, tracker, commit) == Ok(tree) && mounts.Keys <= Pins(commit.tree).Keys
    ensures View(world, reader, tracker, commit)
            == Ok(Composed(MadeView(world, tree, Dedup(Views(views)),
                                    MetadataOf(world, commit, HolderOf(commit, mounts, views))), mounts.Keys))
  {
    mounts, tree := ViewIsDecided(world, reader, tracker, commit, views);
    DecidedIs(world, commit, mounts, tree, views);
  }

  /**
   A commit a split made gives the view the message, headers and id its trailers tell of; author and
   message are its own if it changed files of its own, or else those of the first new child's commit.
   */
  lemma SplitMetadata(world: World, reader: Reader, tracker: Name, commit: Commit, views: seq<Composed>,
                      split: Messages.SplitFrom)
    requires View(world, reader, tracker, commit).Ok? && AreViews(world, reader, tracker, commit, views)
    requires View(world, reader, tracker, commit).value !in views && Messages.ParseSplit(commit.message) == Some(split)
    ensures var one, mounts := View(world, reader, tracker, commit).value, Mounts(world, reader, tracker, commit);
            && mounts.Ok? && TreeFor(world, reader, tracker, commit) == Ok(one.view.tree)
            && OnTheViews(one.view, views)
            && HeadersFor(world, one.view, split.headers, split.source)
            && Credits(commit, mounts.value, views, split, one.view)
  {
    var mounts, tree := MadeHere(world, reader, tracker, commit, views);
    HolderIs(commit, mounts, views, Some(split));
    OnViews(views);
    var holder := HolderOf(commit, mounts, views);
    MadeSigned(world, tree, Dedup(Views(views)), commit, holder, split);
    HolderCredited(commit, mounts, views, split, holder, View(world, reader, tracker, commit).value.view);
  }

  /** The first new child's author and message where the commit only moved pins, and otherwise its own. */
  ghost predicate Credits(commit: Commit, mounts: map<Name, Path>, views: seq<Composed>, split: Messages.SplitFrom,
                          view: Commit)
    requires |views| == |commit.parents|
  {
    && (TouchesOwn(commit) || (forall name :: !FirstNew(commit, views, mounts, name)) ==>
          Signed(view, commit.author, commit.committer, split.message))
    && (!TouchesOwn(commit) ==>
          forall name | FirstNew(commit, views, mounts, name) :: SignedBy(view, PinOf(commit, name)))
  }

  lemma HolderCredited(commit: Commit, mounts: map<Name, Path>, views: seq<Composed>, split: Messages.SplitFrom,
                       holder: Option<Commit>, view: Commit)
    requires |views| == |commit.parents| && Holds(commit, mounts, views, !TouchesOwn(commit), holder)
    requires holder.None? ==> Signed(view, commit.author, commit.committer, split.message)
    requires holder.Some? ==> SignedBy(view, holder)
    ensures Credits(commit, mounts, views, split, view)
  {
    forall name | FirstNew(commit, views, mounts, name) ensures PinOf(commit, name).Some? { }
  }

  lemma MadeSigned(world: World, tree: Tree, parents: seq<Commit>, commit: Commit, holder: Option<Commit>,
                   split: Messages.SplitFrom)
    requires Messages.ParseSplit(commit.message) == Some(split)
    ensures var view := MadeView(world, tree, parents, MetadataOf(world, commit, holder));
            && view.tree == tree && view.parents == parents && HeadersFor(world, view, split.headers, split.source)
            && (holder.None? ==> Signed(view, commit.author, commit.committer, split.message))
            && (holder.Some? ==> SignedBy(view, holder))
  {
  }

  /** Author and message are this commit's, less the trailers of a split. */
  ghost predicate SignedBy(view: Commit, pin: Option<Commit>) {
    pin.Some? &&
    var carried := Messages.ParseSplit(pin.value.message);
    Signed(view, pin.value.author, pin.value.committer,
           if carried.Some? then carried.value.message else pin.value.message)
  }

  // ---- a history that pins nothing -----------------------------------------------------

  /** No commit of this history pins anything, was made by a split, or has one parent twice. */
  ghost predicate Unpinned(commit: Commit)
    decreases commit
  {
    && Clean(commit.tree) && EntryAt(commit.tree, PINS_DIR).None?
    && Messages.ParseSplit(commit.message).None? && Distinct(commit.parents)
    && forall i | 0 <= i < |commit.parents| :: Unpinned(commit.parents[i])
  }

  lemma NothingPinned(tree: Tree)
    requires Clean(tree) && EntryAt(tree, PINS_DIR).None?
    ensures Pins(tree) == map[] && Own(tree) == tree
  {
    SetPathClean(tree, PINS_DIR, None);
    forall path ensures FileAt(Own(tree), path) == FileAt(tree, path) {
      SetPathFiles(tree, PINS_DIR, None, path);
      if PINS_DIR <= path {
        var rest := path[|PINS_DIR|..];
        assert path == PINS_DIR + rest;
        if rest == [] { assert path == PINS_DIR; } else { NoSubtreeNoFiles(tree, PINS_DIR, rest); }
      }
    }
    FilesDecide(Own(tree), tree);
  }

  lemma NothingMounted(world: World, reader: Reader, tracker: Name, commit: Commit)
    requires Pins(commit.tree) == map[]
    ensures Mounts(world, reader, tracker, commit) == Ok(map[])
    ensures TreeFor(world, reader, tracker, commit) == Ok(Own(commit.tree))
  {
    var none: map<Name, Path>, kids := map[], KidTrees(world, reader, tracker, commit);
    assert kids.Keys == {};
    TreesAre(kids, map[]);
    TreeForGiven(world, reader, tracker, commit, none, map[]);
    assert forall name :: name in ByDepth(none) <==> name in none;
    assert ByDepth(none) == [];
  }

  /** Such a history composes to itself for any reader, commit for commit. */
  lemma {:induction false} UnpinnedIsItself(world: World, reader: Reader, tracker: Name, commit: Commit)
    requires Unpinned(commit)
    ensures View(world, reader, tracker, commit) == Ok(Composed(commit, {}))
    decreases commit
  {
    var views := seq(|commit.parents|, i requires 0 <= i < |commit.parents| => Composed(commit.parents[i], {}));
    forall i | 0 <= i < |views| ensures View(world, reader, tracker, commit.parents[i]) == Ok(views[i]) {
      UnpinnedIsItself(world, reader, tracker, commit.parents[i]);
    }
    assert Views(views) == commit.parents;
    NothingPinned(commit.tree);
    NothingMounted(world, reader, tracker, commit);
    ViewGiven(world, reader, tracker, commit, views);
    UnpinnedDecided(world, commit, views);
  }

  lemma UnpinnedDecided(world: World, commit: Commit, views: seq<Composed>)
    requires Pins(commit.tree) == map[] && Own(commit.tree) == commit.tree
    requires Messages.ParseSplit(commit.message).None? && Distinct(commit.parents)
    requires |views| == |commit.parents| && Views(views) == commit.parents
    requires forall i | 0 <= i < |views| :: Pins(commit.parents[i].tree) == map[]
    ensures Decided(world, commit, map[], commit.tree, views) == Composed(commit, {})
  {
    var none: map<Name, Path> := map[];
    if |views| == 1 { assert Moved(Pins(commit.tree), Pins(commit.parents[0].tree)) == {}; }
    assert none.Keys == {};
  }
}
