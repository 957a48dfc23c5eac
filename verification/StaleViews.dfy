/**
 Why a dropped commit must leave mounts as they were: a history where a withheld
 `access` moves a readable child, and the reader's view keeps the old place.
 */
module StaleViews {
  import opened Wrappers
  import opened Names
  import opened Objects
  import opened Order
  import opened Compose
  import opened Readers
  import opened RoundTrip

  const LIB := "lib"
  const ACCESS := "access"

  function Mounting(mount: Path): Definition { Definition(true, mount, [], [], true) }

  /** Every commit is here, and three definition files are read. */
  function StaleWorld(): World {
    World(_ => "", data => if data == "definitions" then Some(Mounting(DEFINITIONS_DIR))
                           else if data == "x" || data == "y" then Some(Mounting([data])) else None, _ => true)
  }

  /** Someone who may read `lib`, and not `access`. */
  function LibReader(): Reader { Reader(name => name == LIB, (_, _) => true) }

  function LibTree(): Tree { Tree(map["f" := Blob("100644", "")]) }

  /** `access` says where it is mounted itself, and where `lib` is. */
  function AccessTree(place: Bytes): Tree {
    Tree(map[ACCESS + TOML := Blob("100644", "definitions"), LIB + TOML := Blob("100644", place)])
  }

  function PinsAt(place: Bytes): map<Name, Commit> {
    map[ACCESS := Silent(AccessTree(place), []), LIB := Silent(LibTree(), [])]
  }

  function PinsTree(place: Bytes): Tree {
    Tree(map[ACCESS := Link(Silent(AccessTree(place), [])), LIB := Link(Silent(LibTree(), []))])
  }

  function RootTree(place: Bytes): Tree { Tree(map[".newgit" := Sub(Tree(map["pins" := Sub(PinsTree(place))]))]) }

  /** A root commit whose `access` mounts `lib` at `place`. */
  function RootAt(place: Bytes, parents: seq<Commit>): Commit { Silent(RootTree(place), parents) }

  /** `lib`'s files at `place`. */
  function Mounted(place: Bytes): Tree { Tree(map[place := Sub(LibTree())]) }

  lemma RootReads(place: Bytes)
    ensures Pins(RootTree(place)) == PinsAt(place)
    ensures Own(RootTree(place)) == EMPTY
    ensures Subtree(RootTree(place), DEFINITIONS_DIR).None?
  {
    var tree, inner := RootTree(place), Tree(map["pins" := Sub(PinsTree(place))]);
    assert tree.entries[".newgit"] == Sub(inner);
    assert PINS_DIR[1..] == ["pins"] && DEFINITIONS_DIR[1..] == ["trackers"];
    assert Subtree(tree, PINS_DIR) == Some(PinsTree(place));
    assert "trackers" != "pins";
    assert EntryAt(inner, ["trackers"]) == None;
    assert EntryAt(tree, DEFINITIONS_DIR) == EntryAt(inner, ["trackers"]);
    assert SetPath(inner, ["pins"], None) == EMPTY;
    assert SetPath(tree, PINS_DIR, None) == EMPTY;
  }

  lemma DefinesAccess(place: Bytes)
    requires place == "x" || place == "y"
    ensures EntryAt(AccessTree(place), [ACCESS + TOML]) == Some(Blob("100644", "definitions"))
  {
  }

  lemma OnlyOneDefiner(place: Bytes)
    ensures NoOtherRival(StaleWorld(), PinsAt(place), ACCESS)
  {
    assert LIB + TOML != "f";
    assert EntryAt(LibTree(), [LIB + TOML]) == None;
    assert NoRival(StaleWorld(), LibTree(), LIB);
  }

  lemma Definitions(place: Bytes)
    requires place == "x" || place == "y"
    ensures DefinitionsTree(StaleWorld(), RootTree(place), PinsAt(place)) == Ok(Some(AccessTree(place)))
  {
    RootReads(place);
    DefinesAccess(place);
    OnlyOneDefiner(place);
    var order := ByName(PinsAt(place).Keys);
    assert ACCESS in order;
    PinnedDefinitionsAre(StaleWorld(), PinsAt(place), order, ACCESS);
  }

  /** A reader who gets one child gets its mount from the definitions. */
  lemma OneChildMounts(world: World, reader: Reader, commit: Commit, definitions: Tree, name: Name, mount: Path)
    requires DefinitionsTree(world, commit.tree, Pins(commit.tree)) == Ok(Some(definitions))
    requires ReadablePins(world, reader, ROOT, Pins(commit.tree)).Keys == {name}
    requires DefinedMount(world, Some(definitions), name) == Ok(mount)
    ensures Mounts(world, reader, ROOT, commit) == Ok(map[name := mount])
  {
    var mounts := map[name := mount];
    MountsOfIs(world, commit.tree, Pins(commit.tree), definitions, mounts);
    assert mounts.Keys == {name};
  }

  lemma LibMounted(place: Bytes, parents: seq<Commit>)
    requires place == "x" || place == "y"
    ensures Mounts(StaleWorld(), LibReader(), ROOT, RootAt(place, parents)) == Ok(map[LIB := [place]])
  {
    RootReads(place);
    Definitions(place);
    OnlyLib(place);
    LibDefined(place);
    OneChildMounts(StaleWorld(), LibReader(), RootAt(place, parents), AccessTree(place), LIB, [place]);
  }

  lemma OnlyLib(place: Bytes)
    ensures ReadablePins(StaleWorld(), LibReader(), ROOT, PinsAt(place)).Keys == {LIB}
  {
    assert ACCESS != LIB;
  }

  lemma LibDefined(place: Bytes)
    requires place == "x" || place == "y"
    ensures DefinedMount(StaleWorld(), Some(AccessTree(place)), LIB) == Ok([place])
  {
    assert EntryAt(AccessTree(place), [LIB + TOML]) == Some(Blob("100644", place));
  }

  lemma LibReads()
    ensures TreeFor(StaleWorld(), LibReader(), LIB, Silent(LibTree(), [])) == Ok(LibTree())
  {
    var commit := Silent(LibTree(), []);
    assert ".newgit" !in LibTree().entries by { assert ".newgit" != "f"; }
    assert EntryAt(LibTree(), PINS_DIR) == None;
    assert Pins(LibTree()) == map[];
    assert Own(LibTree()) == LibTree();
    var none: map<Name, Path> := map[];
    assert Mounts(StaleWorld(), LibReader(), LIB, commit) == Ok(none);
    var kids := KidTrees(StaleWorld(), LibReader(), LIB, commit);
    KidsOf(StaleWorld(), LibReader(), LIB, commit);
    TreesAre(kids, map[]);
    TreeForGiven(StaleWorld(), LibReader(), LIB, commit, none, map[]);
    assert forall name :: name in ByDepth(none) <==> name in none;
    assert ByDepth(none) == [];
  }

  /** A commit whose only file is one child's tree. */
  lemma OneChildTree(world: World, reader: Reader, commit: Commit, name: Name, place: Name, tree: Tree)
    requires Mounts(world, reader, ROOT, commit) == Ok(map[name := [place]]) && Own(commit.tree) == EMPTY
             && tree != EMPTY
    requires name in Pins(commit.tree)
             && TreeFor(world, reader, ChildId(ROOT, name), Pins(commit.tree)[name]) == Ok(tree)
    ensures TreeFor(world, reader, ROOT, commit) == Ok(Tree(map[place := Sub(tree)]))
  {
    var mounts, kids := map[name := [place]], map[name := tree];
    var found := KidTrees(world, reader, ROOT, commit);
    KidsOf(world, reader, ROOT, commit);
    assert found.Keys == mounts.Keys == {name};
    TreesAre(found, kids);
    TreeForGiven(world, reader, ROOT, commit, mounts, kids);
    OneMounted(place, name, tree, mounts, kids);
  }

  lemma OneMounted(place: Name, name: Name, tree: Tree, mounts: map<Name, Path>, kids: map<Name, Tree>)
    requires mounts == map[name := [place]] && kids == map[name := tree] && tree != EMPTY
    ensures WithChildren(EMPTY, ByDepth(mounts), mounts, kids) == Tree(map[place := Sub(tree)])
  {
    var order := ByDepth(mounts);
    assert name in order;
    forall i | 0 <= i < |order| ensures order[i] == name { assert order[i] in order; }
    var first, last := order[0], order[|order| - 1];
    assert Distinct(order) && first == last;
    assert order == [name];
    assert [name][1..] == [];
    assert Subtree(EMPTY, [place]) == None;
    assert Graft(EMPTY, [place], tree) == Tree(map[place := Sub(tree)]);
  }

  lemma RootTreeIs(place: Bytes, parents: seq<Commit>)
    requires place == "x" || place == "y"
    ensures TreeFor(StaleWorld(), LibReader(), ROOT, RootAt(place, parents)) == Ok(Mounted(place))
  {
    RootReads(place);
    LibMounted(place, parents);
    LibReads();
    assert "f" in LibTree().entries;
    OneChildTree(StaleWorld(), LibReader(), RootAt(place, parents), LIB, place, LibTree());
  }

  /** A commit that only moved what is withheld is dropped onto its parent. */
  lemma DroppedView(world: World, reader: Reader, first: Commit, second: Commit, mounts: map<Name, Path>,
                    view: Composed)
    requires second.parents == [first] && View(world, reader, ROOT, first) == Ok(view)
    requires Mounts(world, reader, ROOT, second) == Ok(mounts) && TreeFor(world, reader, ROOT, second).Ok?
    requires OnlyWithheldMoved(second, mounts, first, view.expanded)
    ensures View(world, reader, ROOT, second) == Ok(view) && Dropped(world, reader, ROOT, second)
  {
    ViewGiven(world, reader, ROOT, second, [view]);
  }

  /** A first commit is its own view. */
  lemma FirstView(world: World, reader: Reader, commit: Commit, mounts: map<Name, Path>, tree: Tree)
    returns (view: Composed)
    requires commit.parents == [] && Mounts(world, reader, ROOT, commit) == Ok(mounts)
             && TreeFor(world, reader, ROOT, commit) == Ok(tree)
    ensures View(world, reader, ROOT, commit) == Ok(view) && view.view.tree == tree && view.expanded == mounts.Keys
  {
    ViewGiven(world, reader, ROOT, commit, []);
    view := View(world, reader, ROOT, commit).value;
  }

  lemma PlacesDiffer(x: Bytes, y: Bytes)
    requires x != y
    ensures Mounted(x) != Mounted(y) && map[LIB := [x]] != map[LIB := [y]]
  {
    assert x in Mounted(x).entries && x !in Mounted(y).entries;
    assert map[LIB := [x]][LIB] != map[LIB := [y]][LIB];
  }

  /** The two places, either way round. */
  ghost predicate Places(x: Bytes, y: Bytes) { x != y && (x == "x" || x == "y") && (y == "x" || y == "y") }

  /**
   The second commit only moved `access`, which this reader may not read, so it is
   dropped: their view still has `lib` at `x`, where that commit mounts it at `y`.
   */
  lemma StaleAfterDrop(x: Bytes, y: Bytes, first: Commit, second: Commit)
    requires Places(x, y) && first == RootAt(x, []) && second == RootAt(y, [first])
    ensures View(StaleWorld(), LibReader(), ROOT, second).Ok?
    ensures View(StaleWorld(), LibReader(), ROOT, second).value.view.tree == Mounted(x)
    ensures TreeFor(StaleWorld(), LibReader(), ROOT, second) == Ok(Mounted(y))
    ensures Mounted(x) != Mounted(y) && !DropsKeepMounts(StaleWorld(), LibReader(), ROOT, second)
  {
    StaleCase(x, y, first, second);
    PlacesDiffer(x, y);
    DropMovesMount(StaleWorld(), LibReader(), first, second, map[LIB := [x]], map[LIB := [y]], Mounted(x), Mounted(y));
  }

  /** How a commit reads: its mounts and its tree. */
  ghost predicate Reads(world: World, reader: Reader, commit: Commit, mounts: map<Name, Path>, tree: Tree) {
    Mounts(world, reader, ROOT, commit) == Ok(mounts) && TreeFor(world, reader, ROOT, commit) == Ok(tree)
  }

  lemma RootAtReads(place: Bytes, parents: seq<Commit>)
    requires place == "x" || place == "y"
    ensures Reads(StaleWorld(), LibReader(), RootAt(place, parents), map[LIB := [place]], Mounted(place))
  {
    RootTreeIs(place, parents);
    LibMounted(place, parents);
  }

  /** The second commit, read on its own, mounts elsewhere; it only moved what is withheld. */
  ghost predicate DropCase(world: World, reader: Reader, first: Commit, second: Commit,
                           before: map<Name, Path>, after: map<Name, Path>, was: Tree, now: Tree)
  {
    && first.parents == [] && second.parents == [first]
    && Reads(world, reader, first, before, was) && Reads(world, reader, second, after, now)
    && OnlyWithheldMoved(second, after, first, before.Keys)
  }

  lemma StaleCase(x: Bytes, y: Bytes, first: Commit, second: Commit)
    requires Places(x, y) && first == RootAt(x, []) && second == RootAt(y, [first])
    ensures DropCase(StaleWorld(), LibReader(), first, second, map[LIB := [x]], map[LIB := [y]], Mounted(x), Mounted(y))
  {
    RootAtReads(x, []);
    RootAtReads(y, [first]);
    OnlyAccessMoved(x, y);
    OneKey(LIB, [x]);
    IsDropCase(StaleWorld(), LibReader(), first, second, map[LIB := [x]], map[LIB := [y]], Mounted(x), Mounted(y));
  }

  lemma OneKey(name: Name, mount: Path)
    ensures map[name := mount].Keys == {name}
  {
  }

  lemma IsDropCase(world: World, reader: Reader, first: Commit, second: Commit,
                   before: map<Name, Path>, after: map<Name, Path>, was: Tree, now: Tree)
    requires first.parents == [] && second.parents == [first]
    requires Reads(world, reader, first, before, was) && Reads(world, reader, second, after, now)
    requires OnlyWithheldMoved(second, after, first, before.Keys)
    ensures DropCase(world, reader, first, second, before, after, was, now)
  {
  }

  /** A drop that moves a mount leaves the tree of the parent. */
  lemma DropMovesMount(world: World, reader: Reader, first: Commit, second: Commit,
                       before: map<Name, Path>, after: map<Name, Path>, was: Tree, now: Tree)
    requires DropCase(world, reader, first, second, before, after, was, now) && before != after
    ensures View(world, reader, ROOT, second).Ok? && View(world, reader, ROOT, second).value.view.tree == was
    ensures TreeFor(world, reader, ROOT, second) == Ok(now) && !DropsKeepMounts(world, reader, ROOT, second)
  {
    var view := FirstView(world, reader, first, before, was);
    DroppedView(world, reader, first, second, after, view);
  }

  lemma OnlyAccessMoved(x: Bytes, y: Bytes)
    requires x != y
    ensures OnlyWithheldMoved(RootAt(y, [RootAt(x, [])]), map[LIB := [y]], RootAt(x, []), {LIB})
  {
    RootReads(x);
    RootReads(y);
    assert AccessTree(x).entries[LIB + TOML] != AccessTree(y).entries[LIB + TOML];
    assert PinsAt(x)[ACCESS].tree != PinsAt(y)[ACCESS].tree;
    assert Moved(PinsAt(y), PinsAt(x)) == {ACCESS};
    assert ACCESS != LIB;
  }
}
