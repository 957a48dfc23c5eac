/** All a reader gets is seen. */
module Seen {
  // What file a reader's tree has at a path, said outright: the deepest child they
  // get that has anything to say there decides, and the tracker's own files elsewhere.

  import opened Wrappers
  import opened Names
  import opened Objects
  import opened Order
  import opened Compose
  import opened Readers

  /** `path` is the mount of `child`, or the child has a file there, above it or below it. */
  ghost predicate Over(child: Tree, mount: Path, path: Path) {
    path == mount || exists at :: FileAt(child, at).Some? && (mount + at <= path || path <= mount + at)
  }

  /** Inside the mount, what the child has is what it covers. */
  lemma OverInside(child: Tree, mount: Path, rest: Path)
    requires Clean(child) && rest != []
    ensures Over(child, mount, mount + rest) <==> Covers(child, rest)
  {
    CoversMeansFile(child, rest);
    forall at ensures mount + at <= mount + rest <==> at <= rest { InsideAlike(mount, at, rest); }
    forall at ensures mount + rest <= mount + at <==> rest <= at { InsideAlike(mount, rest, at); }
  }

  lemma InsideAlike(mount: Path, left: Path, right: Path)
    ensures mount + left <= mount + right <==> left <= right
  {
    assert (mount + left)[|mount|..] == left && (mount + right)[|mount|..] == right;
    if mount + left <= mount + right { assert (mount + right)[..|mount + left|][|mount|..] == right[..|left|]; }
  }

  /** Above the mount, it has something there unless it is empty. */
  lemma OverAbove(child: Tree, mount: Path, path: Path)
    requires Clean(child) && path < mount
    ensures Over(child, mount, path) <==> child != EMPTY
  {
    if child != EMPTY {
      var at := SomeFile(child);
      assert path <= mount + at;
    }
  }

  lemma NotOver(child: Tree, mount: Path, path: Path)
    requires !(mount <= path) && !(path <= mount)
    ensures !Over(child, mount, path)
  {
    forall at ensures !(mount + at <= path) && !(path <= mount + at) {
      assert mount == (mount + at)[..|mount|];
      assert |path| <= |mount| ==> (mount + at)[..|path|] == mount[..|path|];
    }
  }

  /** The file the child has at a path it is over. */
  function FileOf(child: Tree, mount: Path, path: Path): Option<Entry> {
    if mount <= path then FileAt(child, path[|mount|..]) else None
  }

  /** A grafted child decides where it is over a path, and nowhere else. */
  lemma GraftDecides(tree: Tree, mount: Path, child: Tree, path: Path)
    requires Clean(tree) && Clean(child)
    ensures FileAt(Graft(tree, mount, child), path)
            == if Over(child, mount, path) then FileOf(child, mount, path) else FileAt(tree, path)
  {
    if mount <= path {
      var rest := path[|mount|..];
      assert path == mount + rest;
      if rest != [] { OverInside(child, mount, rest); }
      GraftInside(tree, mount, child, rest);
    } else if path < mount {
      OverAbove(child, mount, path);
      GraftAbove(tree, mount, child, path);
    } else {
      NotOver(child, mount, path);
      MergedClean(tree, mount, child);
      SetPathFiles(tree, mount, Merged(tree, mount, child), path);
    }
  }

  /** What a graft leaves at the mount. */
  function Merged(tree: Tree, mount: Path, child: Tree): Option<Entry> {
    var existing := Subtree(tree, mount);
    var merged := if existing.Some? then Overlay(existing.value, child) else child;
    if merged == EMPTY then None else Some(Sub(merged))
  }

  lemma MergedClean(tree: Tree, mount: Path, child: Tree)
    requires Clean(tree) && Clean(child) && mount != []
    ensures Merged(tree, mount, child).Some? ==> CleanEntry(Merged(tree, mount, child).value)
    ensures Merged(tree, mount, child).None? <==> child == EMPTY && Subtree(tree, mount).None?
  {
    var existing := Subtree(tree, mount);
    if existing.Some? {
      SubtreeClean(tree, mount);
      OverlayClean(existing.value, child);
      var name :| name in existing.value.entries;
      assert name in Overlay(existing.value, child).entries;
    }
  }

  lemma GraftInside(tree: Tree, mount: Path, child: Tree, rest: Path)
    requires Clean(tree) && Clean(child)
    ensures FileAt(Graft(tree, mount, child), mount + rest)
            == if rest == [] || Covers(child, rest) then FileAt(child, rest) else FileAt(tree, mount + rest)
  {
    if mount == [] {
      assert mount + rest == rest;
      OverlayFiles(tree, child, rest);
    } else {
      MergedClean(tree, mount, child);
      SetPathFiles(tree, mount, Merged(tree, mount, child), mount + rest);
      assert (mount + rest)[|mount|..] == rest;
      if Subtree(tree, mount).Some? {
        SubtreeFiles(tree, mount, rest);
        OverlayFiles(Subtree(tree, mount).value, child, rest);
      } else if rest != [] {
        NoSubtreeNoFiles(tree, mount, rest);
        CoversMeansFile(child, rest);
      }
    }
  }

  lemma GraftAbove(tree: Tree, mount: Path, child: Tree, path: Path)
    requires Clean(tree) && Clean(child) && path < mount
    ensures FileAt(Graft(tree, mount, child), path) == if child != EMPTY then None else FileAt(tree, path)
  {
    MergedClean(tree, mount, child);
    SetPathFiles(tree, mount, Merged(tree, mount, child), path);
    if Subtree(tree, mount).Some? {
      assert mount == path + mount[|path|..];
      AboveIsSubtree(tree, path, mount[|path|..]);
    }
  }

  // ---- all of the children ---------------------------------------------------------

  lemma {:induction false} NoneOver(own: Tree, order: seq<Name>, mounts: map<Name, Path>, kids: map<Name, Tree>,
                                    path: Path)
    requires Clean(own) && forall name | name in order :: name in mounts && name in kids && Clean(kids[name])
    requires forall name | name in order :: !Over(kids[name], mounts[name], path)
    ensures FileAt(WithChildren(own, order, mounts, kids), path) == FileAt(own, path)
    decreases |order|
  {
    if order != [] {
      var mount, child := mounts[order[0]], kids[order[0]];
      GraftFiles(own, mount, child, path);
      GraftDecides(own, mount, child, path);
      NoneOver(Graft(own, mount, child), order[1..], mounts, kids, path);
    }
  }

  /** The `i`-th child is over the path, and none after it is. */
  ghost predicate IsLast(order: seq<Name>, mounts: map<Name, Path>, kids: map<Name, Tree>, path: Path, i: int)
    requires forall name | name in order :: name in mounts && name in kids
  {
    && 0 <= i < |order| && Over(kids[order[i]], mounts[order[i]], path)
    && forall j | i < j < |order| :: !Over(kids[order[j]], mounts[order[j]], path)
  }

  lemma {:induction false} LastOver(own: Tree, order: seq<Name>, mounts: map<Name, Path>, kids: map<Name, Tree>,
                                    path: Path, i: nat)
    requires Clean(own) && forall name | name in order :: name in mounts && name in kids && Clean(kids[name])
    requires IsLast(order, mounts, kids, path, i)
    ensures FileAt(WithChildren(own, order, mounts, kids), path) == FileOf(kids[order[i]], mounts[order[i]], path)
    decreases |order|
  {
    var mount, child := mounts[order[0]], kids[order[0]];
    GraftFiles(own, mount, child, path);
    if i == 0 {
      GraftDecides(own, mount, child, path);
      forall name | name in order[1..] ensures !Over(kids[name], mounts[name], path) {
        var k :| 0 <= k < |order[1..]| && order[1..][k] == name;
        assert order[k + 1] == name;
      }
      NoneOver(Graft(own, mount, child), order[1..], mounts, kids, path);
    } else {
      LastOver(Graft(own, mount, child), order[1..], mounts, kids, path, i - 1);
    }
  }

  /**
   `found` is what the deepest of these children that is over the path has there;
   where none is, what `own` has.
   */
  ghost predicate Shows(own: Tree, mounts: map<Name, Path>, kids: map<Name, Tree>, path: Path, found: Option<Entry>)
    requires mounts.Keys == kids.Keys
  {
    var order := ByDepth(mounts);
    && ((forall name | name in kids :: !Over(kids[name], mounts[name], path)) ==> found == FileAt(own, path))
    && forall i | IsLast(order, mounts, kids, path, i) ::
         found == FileOf(kids[order[i]], mounts[order[i]], path)
  }

  lemma GraftedShows(own: Tree, mounts: map<Name, Path>, kids: map<Name, Tree>, path: Path)
    requires mounts.Keys == kids.Keys && Clean(own) && forall name | name in kids :: Clean(kids[name])
    ensures Shows(own, mounts, kids, path, FileAt(WithChildren(own, ByDepth(mounts), mounts, kids), path))
  {
    var order := ByDepth(mounts);
    if forall name | name in kids :: !Over(kids[name], mounts[name], path) { NoneOver(own, order, mounts, kids, path); }
    forall i | IsLast(order, mounts, kids, path, i)
      ensures FileAt(WithChildren(own, order, mounts, kids), path) == FileOf(kids[order[i]], mounts[order[i]], path)
    {
      LastOver(own, order, mounts, kids, path, i);
    }
  }

  /**
   The tree a reader gets, with the trees of exactly the children they get: a path has the file of the
   deepest of them that has anything there, above it or below it, or else the tracker's own.
   */
  lemma DeepestDecides(world: World, reader: Reader, tracker: Name, commit: Commit, path: Path)
    returns (mounts: map<Name, Path>, kids: map<Name, Tree>)
    requires TreeFor(world, reader, tracker, commit).Ok? && CleanPins(commit)
    ensures Mounts(world, reader, tracker, commit) == Ok(mounts) && mounts.Keys == kids.Keys
    ensures forall name :: name in kids <==> Gets(world, reader, tracker, commit, name)
    ensures forall name | name in kids ::
              TreeFor(world, reader, ChildId(tracker, name), Pins(commit.tree)[name]) == Ok(kids[name])
    ensures Shows(Own(commit.tree), mounts, kids, path,
                  FileAt(TreeFor(world, reader, tracker, commit).value, path))
  {
    mounts, kids := TreeForParts(world, reader, tracker, commit);
    KidsClean(world, reader, tracker, commit, kids);
    SetPathClean(commit.tree, PINS_DIR, None);
    GraftedShows(Own(commit.tree), mounts, kids, path);
  }

  lemma KidsClean(world: World, reader: Reader, tracker: Name, commit: Commit, kids: map<Name, Tree>)
    requires CleanPins(commit) && kids.Keys <= Pins(commit.tree).Keys
    requires forall name | name in kids ::
               TreeFor(world, reader, ChildId(tracker, name), Pins(commit.tree)[name]) == Ok(kids[name])
    ensures forall name | name in kids :: Clean(kids[name])
  {
    forall name | name in kids ensures Clean(kids[name]) {
      OnlyWhatMayBeSeen(world, reader, ChildId(tracker, name), Pins(commit.tree)[name], []);
    }
  }

  // ---- where children are mounted ----------------------------------------------------

  /** A definition file for `name` in `directory` says it is mounted at `mount`. */
  ghost predicate SaysWhere(world: World, directory: Tree, name: Name, mount: Path) {
    var file := EntryAt(directory, [name + ".toml"]);
    && file.Some? && file.value.Blob? && world.toml(file.value.data).Some?
    && world.toml(file.value.data).value.mount == mount
  }

  /** A pin that is here, and whose own files say it is mounted where definitions are. */
  ghost predicate Defining(world: World, pins: map<Name, Commit>, name: Name) {
    name in pins && world.held(pins[name]) && SaysWhere(world, pins[name].tree, name, [".newgit", "trackers"])
  }

  lemma {:induction false} FirstDefining(world: World, pins: map<Name, Commit>, order: seq<Name>) returns (at: nat)
    requires (forall name | name in order :: name in pins) && PinnedDefinitions(world, pins, order).Ok?
    ensures at <= |order| && forall k | 0 <= k < at :: !Defining(world, pins, order[k])
    ensures at < |order| ==> Defining(world, pins, order[at])
    ensures PinnedDefinitions(world, pins, order) == Ok(if at == |order| then None else Some(pins[order[at]].tree))
    decreases |order|
  {
    at := 0;
    if order != [] && !Defining(world, pins, order[0]) {
      var rest := FirstDefining(world, pins, order[1..]);
      at := rest + 1;
    }
  }

  /** The first of the defining pins, by name. */
  ghost predicate DefinesFirst(world: World, pins: map<Name, Commit>, name: Name) {
    Defining(world, pins, name) && forall other | Defining(world, pins, other) :: AtMost(name, other)
  }

  lemma DefinitionsAreFirst(world: World, tree: Tree, pins: map<Name, Commit>, found: Tree)
    requires Subtree(tree, DEFINITIONS_DIR).None? && DefinitionsTree(world, tree, pins) == Ok(Some(found))
    ensures exists access :: DefinesFirst(world, pins, access) && found == pins[access].tree
  {
    var order := ByName(pins.Keys);
    var at := FirstDefining(world, pins, order);
    forall other | Defining(world, pins, other) ensures AtMost(order[at], other) {
      var k :| 0 <= k < |order| && order[k] == other;
      AtMostTotal(other, other);
      assert k == at || KeyAtMost(NameKey(order[at]), NameKey(order[k]));
    }
    assert DefinesFirst(world, pins, order[at]);
  }

  /**
   Every mount is where a definition file says: among the commit's own files if it has the directory,
   and otherwise in the first pinned child, by name, that says it is mounted there itself.
   */
  lemma MountsAreSaid(world: World, reader: Reader, tracker: Name, commit: Commit, mounts: map<Name, Path>, name: Name)
    requires Mounts(world, reader, tracker, commit) == Ok(mounts) && name in mounts
    ensures exists directory ::
              && SaysWhere(world, directory, name, mounts[name])
              && (Subtree(commit.tree, [".newgit", "trackers"]) == Some(directory)
                  || (Subtree(commit.tree, [".newgit", "trackers"]).None?
                      && exists access ::
                           DefinesFirst(world, Pins(commit.tree), access)
                             && directory == Pins(commit.tree)[access].tree))
  {
    var definitions := DefinitionsTree(world, commit.tree, Pins(commit.tree));
    assert definitions.Ok? && DefinedMount(world, definitions.value, name) == Ok(mounts[name]);
    var directory := definitions.value.value;
    assert SaysWhere(world, directory, name, mounts[name]);
    if Subtree(commit.tree, DEFINITIONS_DIR).None? {
      DefinitionsAreFirst(world, commit.tree, Pins(commit.tree), directory);
    }
  }
}
