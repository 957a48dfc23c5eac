/**
 Composing with memo tables: each pinned commit expanded once, each root commit
 composed once, parents first, and the tables proved to hold what they are for.
 */
module Composer {
  import opened Wrappers
  import opened Names
  import opened Objects
  import opened Compose
  import Messages

  /** Each commit is pinned under one tracker name: the memo tables go by commit alone. */
  ghost predicate OneName(nameOf: Commit -> Name, owner: Name, commit: Commit)
    decreases commit
  {
    forall name | name in Pins(commit.tree) ::
      assert Pins(commit.tree)[name] < commit.tree && commit.tree < commit;
      var pin := Pins(commit.tree)[name];
      nameOf(pin) == ChildId(owner, name) && OneName(nameOf, ChildId(owner, name), pin)
  }

  ghost predicate OneNameInHistory(nameOf: Commit -> Name, owner: Name, commit: Commit)
    decreases commit
  {
    OneName(nameOf, owner, commit) && forall i | 0 <= i < |commit.parents| ::
      OneNameInHistory(nameOf, owner, commit.parents[i])
  }

  /** The tables hold what they are for. */
  ghost predicate TreesRight(world: World, reader: Reader, nameOf: Commit -> Name, children: map<Commit, Tree>) {
    forall pin {:trigger TreeRight(world, reader, nameOf, children, pin)} | pin in children ::
      TreeRight(world, reader, nameOf, children, pin)
  }

  ghost predicate TreeRight(world: World, reader: Reader, nameOf: Commit -> Name, children: map<Commit, Tree>,
                            pin: Commit)
    requires pin in children
  {
    TreeFor(world, reader, nameOf(pin), pin) == Ok(children[pin])
  }

  ghost predicate ViewsRight(world: World, reader: Reader, tracker: Name, views: map<Commit, Commit>,
                             expanded: map<Commit, set<Name>>)
  {
    && views.Keys <= expanded.Keys
    && forall commit {:trigger ViewRight(world, reader, tracker, views, expanded, commit)} | commit in views ::
         ViewRight(world, reader, tracker, views, expanded, commit)
  }

  ghost predicate ViewRight(world: World, reader: Reader, tracker: Name, views: map<Commit, Commit>,
                            expanded: map<Commit, set<Name>>, commit: Commit)
    requires commit in views && commit in expanded
  {
    View(world, reader, tracker, commit) == Ok(Composed(views[commit], expanded[commit]))
  }

  lemma MoreTrees(world: World, reader: Reader, nameOf: Commit -> Name, children: map<Commit, Tree>, pin: Commit,
                  tree: Tree)
    requires TreesRight(world, reader, nameOf, children) && TreeFor(world, reader, nameOf(pin), pin) == Ok(tree)
    ensures TreesRight(world, reader, nameOf, children[pin := tree])
  {
    var more := children[pin := tree];
    forall other | other in more ensures TreeRight(world, reader, nameOf, more, other) {
      assert other != pin ==> TreeRight(world, reader, nameOf, children, other);
    }
  }

  lemma MoreViews(world: World, reader: Reader, tracker: Name, views: map<Commit, Commit>,
                  expanded: map<Commit, set<Name>>, commit: Commit, composed: Composed)
    requires ViewsRight(world, reader, tracker, views, expanded) && View(world, reader, tracker, commit) == Ok(composed)
    ensures ViewsRight(world, reader, tracker, views[commit := composed.view], expanded[commit := composed.expanded])
  {
    var moreViews, moreExpanded := views[commit := composed.view], expanded[commit := composed.expanded];
    forall other | other in moreViews ensures ViewRight(world, reader, tracker, moreViews, moreExpanded, other) {
      assert other != commit ==> ViewRight(world, reader, tracker, views, expanded, other);
    }
  }

  /** The readable pins' trees, from the table. */
  function KidsFrom(children: map<Commit, Tree>, pins: map<Name, Commit>, names: set<Name>): map<Name, Tree>
    requires forall name | name in names :: name in pins && pins[name] in children
  {
    map name | name in names :: children[pins[name]]
  }

  lemma KidsRight(world: World, reader: Reader, nameOf: Commit -> Name, children: map<Commit, Tree>, owner: Name,
                  commit: Commit, names: set<Name>)
    requires TreesRight(world, reader, nameOf, children) && OneName(nameOf, owner, commit)
    requires names == ReadablePins(world, reader, owner, Pins(commit.tree)).Keys
    requires forall name | name in names :: name in Pins(commit.tree) && Pins(commit.tree)[name] in children
    ensures var kids := KidTrees(world, reader, owner, commit);
            AllTrees(kids) && Trees(kids) == KidsFrom(children, Pins(commit.tree), names)
  {
    KidsOf(world, reader, owner, commit);
    var kids, pins := KidTrees(world, reader, owner, commit), Pins(commit.tree);
    forall name | name in kids ensures kids[name] == Ok(children[pins[name]]) {
      KidRight(world, reader, nameOf, children, owner, commit, name);
    }
    TreesAre(kids, KidsFrom(children, pins, names));
  }

  lemma OneNameAt(nameOf: Commit -> Name, owner: Name, commit: Commit, name: Name)
    requires OneName(nameOf, owner, commit) && name in Pins(commit.tree)
    ensures var pin := Pins(commit.tree)[name];
            nameOf(pin) == ChildId(owner, name) && OneName(nameOf, ChildId(owner, name), pin)
  {
  }

  lemma KidRight(world: World, reader: Reader, nameOf: Commit -> Name, children: map<Commit, Tree>, owner: Name,
                 commit: Commit, name: Name)
    requires TreesRight(world, reader, nameOf, children) && OneName(nameOf, owner, commit)
    requires name in KidTrees(world, reader, owner, commit) && name in Pins(commit.tree)
             && Pins(commit.tree)[name] in children
    ensures KidTrees(world, reader, owner, commit)[name] == Ok(children[Pins(commit.tree)[name]])
  {
    KidAt(world, reader, owner, commit, name);
    OneNameAt(nameOf, owner, commit, name);
    assert TreeRight(world, reader, nameOf, children, Pins(commit.tree)[name]);
  }

  lemma TreeIs(world: World, reader: Reader, nameOf: Commit -> Name, children: map<Commit, Tree>, owner: Name,
               commit: Commit, mounts: map<Name, Path>)
    requires TreesRight(world, reader, nameOf, children) && OneName(nameOf, owner, commit)
    requires Mounts(world, reader, owner, commit) == Ok(mounts)
    requires forall name | name in mounts :: name in Pins(commit.tree) && Pins(commit.tree)[name] in children
    ensures TreeFor(world, reader, owner, commit)
            == Ok(WithChildren(Own(commit.tree), ByDepth(mounts), mounts,
                               KidsFrom(children, Pins(commit.tree), mounts.Keys)))
  {
    KidsRight(world, reader, nameOf, children, owner, commit, mounts.Keys);
  }

  lemma KidsFail(world: World, reader: Reader, owner: Name, commit: Commit)
    requires !AllTrees(KidTrees(world, reader, owner, commit))
    ensures TreeFor(world, reader, owner, commit).Err?
  {
  }

  lemma TreeFails(world: World, reader: Reader, owner: Name, commit: Commit, name: Name)
    requires name in ReadablePins(world, reader, owner, Pins(commit.tree))
    requires TreeFor(world, reader, ChildId(owner, name), Pins(commit.tree)[name]).Err?
    ensures TreeFor(world, reader, owner, commit).Err?
  {
    KidAt(world, reader, owner, commit, name);
    KidsFail(world, reader, owner, commit);
  }

  /** These children's pins are all among `done`. */
  ghost predicate AllIn(done: set<Commit>, pins: map<Name, Commit>, names: seq<Name>) {
    forall name | name in names :: name in pins && pins[name] in done
  }

  lemma AllInMore(before: set<Commit>, after: set<Commit>, pins: map<Name, Commit>, names: seq<Name>, i: nat)
    requires i < |names| && before <= after && AllIn(before, pins, names[..i]) && names[i] in pins
             && pins[names[i]] in after
    ensures AllIn(after, pins, names[..i + 1])
  {
    assert names[..i + 1] == names[..i] + [names[i]];
  }

  class Composer {
    const world: World
    const reader: Reader
    const tracker: Name
    /** Root commit to its view commit. */
    var views: map<Commit, Commit>
    /** Each pin met so far, with its composed tree. */
    var children: map<Commit, Tree>
    /** For each commit in `views`, the names that were expanded. */
    var expanded: map<Commit, set<Name>>
    /** The tracker each commit is pinned under. */
    ghost const nameOf: Commit -> Name

    ghost predicate Valid()
      reads this
    {
      TreesRight(world, reader, nameOf, children) && ViewsRight(world, reader, tracker, views, expanded)
    }

    constructor (world: World, reader: Reader, tracker: Name, ghost nameOf: Commit -> Name)
      ensures Valid() && this.world == world && this.reader == reader && this.tracker == tracker
              && this.nameOf == nameOf
      ensures views == map[] && children == map[]
    {
      this.world, this.reader, this.tracker, this.nameOf := world, reader, tracker, nameOf;
      views, children, expanded := map[], map[], map[];
    }

    /** `WithChildren`, the children's trees taken from the table. */
    method GraftChildren(own: Tree, order: seq<Name>, mounts: map<Name, Path>, pins: map<Name, Commit>)
      returns (tree: Tree)
      requires forall name | name in mounts :: name in pins && pins[name] in children
      requires forall name | name in order :: name in mounts
      ensures tree == WithChildren(own, order, mounts, KidsFrom(children, pins, mounts.Keys))
    {
      tree := own;
      var i := 0;
      assert order[0..] == order;
      while i < |order|
        invariant 0 <= i <= |order|
        invariant WithChildren(tree, order[i..], mounts, KidsFrom(children, pins, mounts.Keys))
                  == WithChildren(own, order, mounts, KidsFrom(children, pins, mounts.Keys))
      {
        assert order[i..][1..] == order[i + 1..];
        tree := Graft(tree, mounts[order[i]], children[pins[order[i]]]);
        i := i + 1;
      }
    }

    /** Make sure the table has `pin`, and all that it mounts. */
    method ExpandChild(name: Name, pin: Commit) returns (expands: bool)
      requires Valid() && nameOf(pin) == name && OneName(nameOf, name, pin)
      modifies this`children
      ensures Valid() && old(children).Keys <= children.Keys
      ensures expands <==> TreeFor(world, reader, name, pin).Ok?
      ensures expands ==> pin in children
      decreases pin, 4
    {
      if pin in children {
        assert TreeRight(world, reader, nameOf, children, pin);
        return true;
      }
      var tree := ChildTree(name, pin);
      if tree.Err? { return false; }
      MoreTrees(world, reader, nameOf, children, pin, tree.value);
      children := children[pin := tree.value];
      expands := true;
    }

    method ChildTree(name: Name, pin: Commit) returns (tree: Result<Tree>)
      requires Valid() && OneName(nameOf, name, pin)
      modifies this`children
      ensures Valid() && old(children).Keys <= children.Keys
      ensures tree == TreeFor(world, reader, name, pin)
      decreases pin, 3
    {
      var mounts := ExpandChildren(name, pin);
      if mounts.Err? { return Err; }
      TreeIs(world, reader, nameOf, children, name, pin, mounts.value);
      var grafted := GraftChildren(Own(pin.tree), ByDepth(mounts.value), mounts.value, Pins(pin.tree));
      tree := Ok(grafted);
    }

    /** The commit's mounts, the table having a tree for every name among them. */
    method ExpandChildren(owner: Name, commit: Commit) returns (mounts: Result<map<Name, Path>>)
      requires Valid() && OneName(nameOf, owner, commit)
      modifies this`children
      ensures Valid() && old(children).Keys <= children.Keys
      ensures mounts.Err? ==> TreeFor(world, reader, owner, commit).Err?
      ensures mounts.Ok? ==>
                && mounts == Mounts(world, reader, owner, commit)
                && forall name | name in mounts.value ::
                     name in Pins(commit.tree) && Pins(commit.tree)[name] in children
      decreases commit, 2
    {
      mounts := Mounts(world, reader, owner, commit);
      if mounts.Err? { return; }
      var readable := ReadablePins(world, reader, owner, Pins(commit.tree));
      var failed := ExpandAll(owner, commit, ByName(readable.Keys));
      if failed.Some? {
        TreeFails(world, reader, owner, commit, failed.value);
        return Err;
      }
    }

    /** Each of these children expanded in turn, up to one that cannot be. */
    method ExpandAll(owner: Name, commit: Commit, order: seq<Name>) returns (failed: Option<Name>)
      requires Valid() && OneName(nameOf, owner, commit)
      requires forall name | name in order :: name in Pins(commit.tree)
      modifies this`children
      ensures Valid() && old(children).Keys <= children.Keys
      ensures failed.None? ==> AllIn(children.Keys, Pins(commit.tree), order)
      ensures failed.Some? ==>
                failed.value in order
                  && TreeFor(world, reader, ChildId(owner, failed.value), Pins(commit.tree)[failed.value]).Err?
      decreases commit, 1
    {
      var i := 0;
      while i < |order|
        invariant 0 <= i <= |order| && Valid() && old(children).Keys <= children.Keys
        invariant AllIn(children.Keys, Pins(commit.tree), order[..i])
      {
        assert order[i] in order;
        ghost var before := children;
        var expands := ExpandOne(owner, commit, order[i]);
        if !expands { return Some(order[i]); }
        AllInMore(before.Keys, children.Keys, Pins(commit.tree), order, i);
        i := i + 1;
      }
      assert order[..i] == order;
      failed := None;
    }

    method ExpandOne(owner: Name, commit: Commit, name: Name) returns (expands: bool)
      requires Valid() && OneName(nameOf, owner, commit) && name in Pins(commit.tree)
      modifies this`children
      ensures Valid() && old(children).Keys <= children.Keys
      ensures expands <==> TreeFor(world, reader, ChildId(owner, name), Pins(commit.tree)[name]).Ok?
      ensures expands ==> Pins(commit.tree)[name] in children
      decreases commit, 0
    {
      var pin := Pins(commit.tree)[name];
      assert pin < commit.tree && commit.tree < commit;
      OneNameAt(nameOf, owner, commit, name);
      expands := ExpandChild(ChildId(owner, name), pin);
    }

    // ---- one commit ------------------------------------------------------------------------

    /** What the tables say of each parent. */
    method Parents(parents: seq<Commit>) returns (composed: seq<Composed>)
      requires forall i | 0 <= i < |parents| :: parents[i] in views && parents[i] in expanded
      ensures FromTables(views, expanded, parents, composed)
    {
      composed := [];
      var i := 0;
      while i < |parents|
        invariant 0 <= i <= |parents| && FromTables(views, expanded, parents[..i], composed)
      {
        composed := composed + [Composed(views[parents[i]], expanded[parents[i]])];
        i := i + 1;
      }
      assert parents[..i] == parents;
    }

    method Record(commit: Commit, composed: Composed)
      requires Valid()
      requires ViewsRight(world, reader, tracker, views[commit := composed.view], expanded[commit := composed.expanded])
      modifies this`views, this`expanded
      ensures Valid() && views == old(views)[commit := composed.view]
    {
      views, expanded := views[commit := composed.view], expanded[commit := composed.expanded];
    }

    /** A root commit's view, its children expanded and its parents composed already. */
    method MakeView(commit: Commit, mounts: map<Name, Path>) returns (one: Composed)
      requires Valid() && OneName(nameOf, tracker, commit)
               && ShapedOne(world, reader, tracker, children, commit, mounts)
      requires forall i | 0 <= i < |commit.parents| :: commit.parents[i] in views
      ensures View(world, reader, tracker, commit) == Ok(one)
    {
      var tree := GraftChildren(Own(commit.tree), ByDepth(mounts), mounts, Pins(commit.tree));
      var parents := Parents(commit.parents);
      one := DecideView(world, commit, mounts, tree, parents);
      CommitView(world, reader, nameOf, children, tracker, views, expanded, commit, mounts, tree, parents, one);
    }

    method ComposeCommit(commit: Commit, mounts: map<Name, Path>)
      requires Valid() && OneName(nameOf, tracker, commit)
               && ShapedOne(world, reader, tracker, children, commit, mounts)
      requires forall i | 0 <= i < |commit.parents| :: commit.parents[i] in views
      modifies this`views, this`expanded
      ensures Valid() && views.Keys == old(views).Keys + {commit}
    {
      var one := MakeView(commit, mounts);
      MoreViews(world, reader, tracker, views, expanded, commit, one);
      Record(commit, one);
    }

    // ---- the whole history --------------------------------------------------------------------

    /** Mounts for the whole walk: when it is done the table lacks no tree that grafting needs. */
    method ExpandHistory(walk: seq<Commit>) returns (shapes: Result<seq<map<Name, Path>>>)
      requires Valid() && forall i | 0 <= i < |walk| :: OneName(nameOf, tracker, walk[i])
      modifies this`children
      ensures Valid()
      ensures shapes.Ok? ==> |shapes.value| == |walk| && Shaped(world, reader, tracker, children, walk, shapes.value)
      ensures shapes.Err? ==> exists i :: 0 <= i < |walk| && TreeFor(world, reader, tracker, walk[i]).Err?
    {
      var found := [];
      var i := 0;
      while i < |walk|
        invariant 0 <= i <= |walk| && |found| == i && Valid()
        invariant Shaped(world, reader, tracker, children, walk[..i], found)
      {
        ghost var before := children;
        var mounts := ExpandChildren(tracker, walk[i]);
        if mounts.Err? { return Err; }
        ShapedMore(world, reader, tracker, before, children, walk, i, found, mounts.value);
        found := found + [mounts.value];
        i := i + 1;
      }
      assert walk[..i] == walk;
      shapes := Ok(found);
    }

    /** Parents before children: each commit's view, from its parents'. */
    method ComposeRoot(walk: seq<Commit>) returns (composes: bool)
      requires Valid() && forall i | 0 <= i < |walk| :: OneName(nameOf, tracker, walk[i])
      requires forall i, k | 0 <= i < |walk| && 0 <= k < |walk[i].parents| :: walk[i].parents[k] in walk[..i]
      modifies this
      ensures Valid()
      ensures composes ==> forall i | 0 <= i < |walk| :: walk[i] in views
      ensures !composes ==> exists i :: 0 <= i < |walk| && View(world, reader, tracker, walk[i]).Err?
    {
      var shapes := ExpandHistory(walk);
      if shapes.Err? {
        NoTreeNoViews(world, reader, tracker, walk);
        return false;
      }
      ComposeWalk(walk, shapes.value);
      composes := true;
    }

    method ComposeWalk(walk: seq<Commit>, shapes: seq<map<Name, Path>>)
      requires Valid() && forall i | 0 <= i < |walk| :: OneName(nameOf, tracker, walk[i])
      requires forall i, k | 0 <= i < |walk| && 0 <= k < |walk[i].parents| :: walk[i].parents[k] in walk[..i]
      requires Shaped(world, reader, tracker, children, walk, shapes)
      modifies this`views, this`expanded
      ensures Valid() && forall i | 0 <= i < |walk| :: walk[i] in views
    {
      var i := 0;
      while i < |walk|
        invariant 0 <= i <= |walk| && Valid()
        invariant forall k | 0 <= k < i :: walk[k] in views
      {
        assert ShapedOne(world, reader, tracker, children, walk[i], shapes[i]);
        forall k | 0 <= k < |walk[i].parents| ensures walk[i].parents[k] in views {
          assert walk[i].parents[k] in walk[..i];
        }
        ComposeCommit(walk[i], shapes[i]);
        i := i + 1;
      }
    }
  }

  ghost predicate FromTables(views: map<Commit, Commit>, expanded: map<Commit, set<Name>>, parents: seq<Commit>,
                             composed: seq<Composed>)
  {
    && |composed| == |parents|
    && forall i | 0 <= i < |parents| ::
         parents[i] in views && parents[i] in expanded
           && composed[i] == Composed(views[parents[i]], expanded[parents[i]])
  }

  lemma CommitView(world: World, reader: Reader, nameOf: Commit -> Name, children: map<Commit, Tree>, tracker: Name,
                   views: map<Commit, Commit>, expanded: map<Commit, set<Name>>,
                   commit: Commit, mounts: map<Name, Path>, tree: Tree, parents: seq<Composed>, one: Composed)
    requires TreesRight(world, reader, nameOf, children) && OneName(nameOf, tracker, commit)
    requires ViewsRight(world, reader, tracker, views, expanded) && FromTables(views, expanded, commit.parents, parents)
    requires ShapedOne(world, reader, tracker, children, commit, mounts)
    requires tree
               == WithChildren(Own(commit.tree), ByDepth(mounts), mounts,
                               KidsFrom(children, Pins(commit.tree), mounts.Keys))
    requires one == Decided(world, commit, mounts, tree, parents)
    ensures View(world, reader, tracker, commit) == Ok(one)
  {
    TreeIs(world, reader, nameOf, children, tracker, commit, mounts);
    forall i | 0 <= i < |parents| ensures View(world, reader, tracker, commit.parents[i]) == Ok(parents[i]) {
      assert ViewRight(world, reader, tracker, views, expanded, commit.parents[i]);
    }
    ViewGiven(world, reader, tracker, commit, parents);
  }

  ghost predicate Shaped(world: World, reader: Reader, tracker: Name, children: map<Commit, Tree>, walk: seq<Commit>,
                         shapes: seq<map<Name, Path>>)
  {
    |shapes| == |walk| && forall i | 0 <= i < |walk| :: ShapedOne(world, reader, tracker, children, walk[i], shapes[i])
  }

  ghost predicate ShapedOne(world: World, reader: Reader, tracker: Name, children: map<Commit, Tree>, commit: Commit,
                            mounts: map<Name, Path>)
  {
    && Mounts(world, reader, tracker, commit) == Ok(mounts)
    && forall name | name in mounts :: name in Pins(commit.tree) && Pins(commit.tree)[name] in children
  }

  lemma ShapedMore(world: World, reader: Reader, tracker: Name, before: map<Commit, Tree>, after: map<Commit, Tree>,
                   walk: seq<Commit>, i: nat, shapes: seq<map<Name, Path>>, mounts: map<Name, Path>)
    requires i < |walk| && before.Keys <= after.Keys
    requires Shaped(world, reader, tracker, before, walk[..i], shapes)
             && ShapedOne(world, reader, tracker, after, walk[i], mounts)
    ensures Shaped(world, reader, tracker, after, walk[..i + 1], shapes + [mounts])
  {
    forall k | 0 <= k <= i ensures ShapedOne(world, reader, tracker, after, walk[..i + 1][k], (shapes + [mounts])[k]) {
      if k < i { assert ShapedOne(world, reader, tracker, before, walk[..i][k], shapes[k]); }
    }
  }

  lemma NoTreeNoViews(world: World, reader: Reader, tracker: Name, walk: seq<Commit>)
    requires exists i :: 0 <= i < |walk| && TreeFor(world, reader, tracker, walk[i]).Err?
    ensures exists i :: 0 <= i < |walk| && View(world, reader, tracker, walk[i]).Err?
  {
    var i :| 0 <= i < |walk| && TreeFor(world, reader, tracker, walk[i]).Err?;
    NoTreeNoView(world, reader, tracker, walk[i]);
  }

  lemma NoTreeNoView(world: World, reader: Reader, tracker: Name, commit: Commit)
    requires TreeFor(world, reader, tracker, commit).Err?
    ensures View(world, reader, tracker, commit).Err?
  {
  }

  // ---- deciding a view commit ------------------------------------------------------------------

  method DecideView(world: World, commit: Commit, mounts: map<Name, Path>, tree: Tree, parents: seq<Composed>)
    returns (one: Composed)
    requires |parents| == |commit.parents| && mounts.Keys <= Pins(commit.tree).Keys
    ensures one == Decided(world, commit, mounts, tree, parents)
  {
    // Nothing in it for this reader: its parent's view stands for it.
    if |commit.parents| == 1 && OnlyWithheldMoved(commit, mounts, commit.parents[0], parents[0].expanded) {
      return parents[0];
    }
    var ids := DistinctViews(parents);
    if |commit.parents| > 1 && JoinsWithheld(Pins(commit.tree), mounts, commit.parents) {
      var kept := FindEmptyMerge(parents, tree);
      if kept.Some? { return parents[kept.value]; }
    }
    var holder := None;
    if Messages.ParseSplit(commit.message).Some? && OwnUnchanged(commit) {
      holder := FindHolder(ByDepth(mounts), Pins(commit.tree), commit.parents, parents);
    }
    one := Composed(MadeView(world, tree, ids, MetadataOf(world, commit, holder)), mounts.Keys);
  }

  method DistinctViews(parents: seq<Composed>) returns (ids: seq<Commit>)
    ensures ids == Dedup(Views(parents))
  {
    ids := [];
    var i := 0;
    while i < |parents|
      invariant 0 <= i <= |parents| && ids == Dedup(Views(parents)[..i])
    {
      assert Views(parents)[..i + 1][..i] == Views(parents)[..i];
      if parents[i].view !in ids { ids := ids + [parents[i].view]; }
      i := i + 1;
    }
    assert Views(parents)[..i] == Views(parents);
  }

  predicate AtOrBehind(one: Commit, other: Commit) { one == other || IsAncestor(one, other) }

  method IsAheadOfAll(parents: seq<Composed>, at: nat) returns (ahead: bool)
    requires at < |parents|
    ensures ahead == AheadOfAll(parents, at)
  {
    ahead := true;
    var k := 0;
    while k < |parents|
      invariant 0 <= k <= |parents|
      invariant ahead <==> forall j | 0 <= j < k :: AtOrBehind(parents[j].view, parents[at].view)
    {
      ahead := ahead && AtOrBehind(parents[k].view, parents[at].view);
      k := k + 1;
    }
  }

  method FindEmptyMerge(parents: seq<Composed>, tree: Tree) returns (found: Option<nat>)
    ensures found == EmptyMerge(parents, tree, 0)
  {
    var i := 0;
    while i < |parents|
      invariant 0 <= i <= |parents| && EmptyMerge(parents, tree, 0) == EmptyMerge(parents, tree, i)
    {
      if parents[i].view.tree == tree {
        var ahead := IsAheadOfAll(parents, i);
        if ahead { return Some(i); }
      }
      i := i + 1;
    }
    found := None;
  }

  method FindHolder(order: seq<Name>, pins: map<Name, Commit>, parents: seq<Commit>, views: seq<Composed>)
    returns (holder: Option<Commit>)
    requires |parents| == |views| && forall name | name in order :: name in pins
    ensures holder == WorkHolder(order, pins, parents, views)
  {
    var i := 0;
    assert order[0..] == order;
    while i < |order|
      invariant 0 <= i <= |order|
                && WorkHolder(order, pins, parents, views) == WorkHolder(order[i..], pins, parents, views)
    {
      assert order[i] in order;
      var tip, moved, k := pins[order[i]], true, 0;
      while k < |parents|
        invariant 0 <= k <= |parents|
        invariant moved <==> forall j | 0 <= j < k :: !KeptBy(order[i], tip, parents[j], views[j])
      {
        if KeptBy(order[i], tip, parents[k], views[k]) { moved := false; }
        k := k + 1;
      }
      assert moved <==> !PinKept(order[i], tip, parents, views);
      if moved { return Some(tip); }
      assert order[i..][1..] == order[i + 1..];
      i := i + 1;
    }
    holder := None;
  }

  /** The pin is not new: it stands in `view` already. */
  predicate KeptBy(name: Name, pin: Commit, parent: Commit, view: Composed) {
    name in Pins(parent.tree) && Pins(parent.tree)[name] == pin && name in view.expanded
  }
}
