/**
 A split that loses a file: someone without a tracker's commit writes a file at
 its mount, the split carries the tracker's pin over, and the file is nowhere.
 */
module LostFiles {
  import opened Wrappers
  import opened Names
  import opened Objects
  import opened Compose
  import opened Split
  import opened Carried
  import opened Partition
  import opened RoundTrip

  const LIB := "lib"
  const FILE := Blob("100644", "")

  /** `lib` is mounted at `lib`, and its commits are not here. */
  function LosingWorld(): World {
    World(_ => "", _ => Some(Definition(true, [LIB], [[LIB]], [], true)), _ => false)
  }

  function Definitions(): Tree { Tree(map[LIB + TOML := FILE]) }

  /** The pin of `lib`: what is in it does not matter. */
  function LibPin(): Commit { Silent(EMPTY, []) }

  function PinsTree(): Tree { Tree(map[LIB := Link(LibPin())]) }

  /** The root commit: the definition of `lib`, and its pin. */
  function Root(): Commit {
    Silent(Tree(map[".newgit" := Sub(Tree(map["trackers" := Sub(Definitions()), "pins" := Sub(PinsTree())]))]), [])
  }

  function LibFiles(): Tree { Tree(map["new" := FILE]) }

  /** The view tree written on it: the definition, and a file at `lib`. */
  function Written(): Tree {
    Tree(map[".newgit" := Sub(Tree(map["trackers" := Sub(Definitions())])), LIB := Sub(LibFiles())])
  }

  lemma WrittenReads()
    ensures Subtree(Written(), DEFINITIONS_DIR) == Some(Definitions())
    ensures Subtree(Written(), [LIB]) == Some(LibFiles())
    ensures EntryAt(Written(), [LIB, "new"]) == Some(FILE)
  {
    var tree, inner := Written(), Tree(map["trackers" := Sub(Definitions())]);
    assert LIB != ".newgit";
    assert tree.entries[".newgit"] == Sub(inner);
    assert DEFINITIONS_DIR[1..] == ["trackers"];
    assert EntryAt(tree, DEFINITIONS_DIR) == EntryAt(inner, ["trackers"]);
    assert [LIB, "new"][1..] == ["new"];
    assert EntryAt(tree, [LIB, "new"]) == EntryAt(LibFiles(), ["new"]);
  }

  lemma RootPins()
    ensures Pins(Root().tree) == map[LIB := LibPin()]
    ensures Before([Root()], LIB) == [LibPin()]
  {
    var tree := Root().tree;
    var inner := Tree(map["trackers" := Sub(Definitions()), "pins" := Sub(PinsTree())]);
    assert tree.entries[".newgit"] == Sub(inner);
    assert PINS_DIR[1..] == ["pins"];
    assert EntryAt(tree, PINS_DIR) == EntryAt(inner, ["pins"]);
    assert Subtree(tree, PINS_DIR) == Some(PinsTree());
    assert Pins(tree) == map[LIB := LibPin()];
    assert [Root()][..0] == [];
    assert Before([], LIB) == [];
  }

  lemma LibFits()
    ensures FitsId(LIB) && LeafName(ROOT) == ROOT && LIB != ROOT
  {
    assert LeafBelow(ROOT, 0) == LeafBelow(ROOT, 1) == LeafBelow(ROOT, 2) == LeafBelow(ROOT, 3) == LeafBelow(ROOT, 4);
  }

  lemma LibDefined()
    ensures DefinedNames(Definitions()) == {LIB}
  {
    LibFits();
    forall name ensures name in DefinedNames(Definitions()) <==> name == LIB {
      DefinedNamesAre(Definitions(), name);
      if name + TOML == LIB + TOML { assert (name + TOML)[..|name|] == (LIB + TOML)[..|LIB|]; }
    }
  }

  function LibDefinition(): Definition { Definition(true, [LIB], [[LIB]], [], true) }

  lemma OneDefinition(world: World, directory: Tree, name: Name, definition: Definition)
    requires name + TOML in directory.entries
    requires ReadDefinition(world, directory.entries[name + TOML]) == Ok(Some(definition))
    ensures ReadDefinitions(world, directory, {name}, false) == Ok(map[name := definition])
  {
    var found := ReadDefinitions(world, directory, {name}, false);
    assert found.value == map[name := definition];
  }

  lemma LibReads()
    ensures DefinitionsIn(LosingWorld(), Written(), ROOT) == Ok(map[LIB := LibDefinition()])
  {
    WrittenReads();
    LibDefined();
    OneDefinition(LosingWorld(), Definitions(), LIB, LibDefinition());
  }

  lemma OneChild(world: World, tree: Tree, definitions: map<Name, Definition>, children: map<Name, Path>)
    requires DefinitionsIn(world, tree, ROOT) == Ok(definitions) && children == Children(definitions, ROOT)
    requires forall name | name in children :: name in definitions && OwnsWholeMount(definitions, ROOT, name)
    ensures ChildrenIn(world, tree, ROOT) == Ok(children)
  {
  }

  lemma LibIsChild()
    ensures ChildrenIn(LosingWorld(), Written(), ROOT) == Ok(map[LIB := [LIB]])
  {
    LibReads();
    LibFits();
    var definitions, children := map[LIB := LibDefinition()], map[LIB := [LIB]];
    assert Children(definitions, ROOT) == children;
    assert OwnsWholeMount(definitions, ROOT, LIB);
    OneChild(LosingWorld(), Written(), definitions, children);
  }

  /** `lib`'s part is what was written at its mount. */
  lemma LibPart()
    ensures PartOf(Written(), map[LIB := [LIB]], LIB) == Some(LibFiles())
  {
    WrittenReads();
    var children := map[LIB := [LIB]];
    var order := DeepestFirst(children);
    assert forall name | name in order :: name == LIB;
    NothingInside(LibFiles(), children, order);
  }

  lemma {:induction false} NothingInside(part: Tree, children: map<Name, Path>, order: seq<Name>)
    requires (forall name | name in order :: name in children) && children == map[LIB := [LIB]]
    ensures Trimmed(Some(part), [LIB], children, order) == Some(part)
    decreases |order|
  {
    if order != [] {
      assert order[0] in order;
      assert !Inside(children[order[0]], [LIB]);
      assert forall name | name in order[1..] :: name in order;
      NothingInside(part, children, order[1..]);
    }
  }

  /** `lib`'s part mounts nothing. */
  lemma LibMountsNothing()
    ensures ChildrenIn(LosingWorld(), LibFiles(), ChildId(ROOT, LIB)) == Ok(map[])
    ensures Clean(LibFiles()) && NothingUnder(LibFiles(), PINS_DIR)
  {
    var tree := LibFiles();
    assert ".newgit" !in tree.entries;
    assert Subtree(tree, DEFINITIONS_DIR).None?;
    forall rest ensures FileAt(tree, PINS_DIR + rest).None? { assert (PINS_DIR + rest)[0] == ".newgit"; }
  }

  lemma OneChildSplittable(world: World, tree: Tree, children: map<Name, Path>, name: Name, parents: seq<Commit>)
    requires ChildrenIn(world, tree, ROOT) == Ok(children) && children.Keys == {name}
    requires Clean(tree) && NothingUnder(tree, PINS_DIR)
    requires FileAt(tree, children[name]).None? && !(children[name] <= DEFINITIONS_DIR)
    requires Splittable(world, ChildId(ROOT, name), PartOf(tree, children, name).Or(EMPTY), Before(parents, name))
    ensures Splittable(world, ROOT, tree, parents)
  {
    assert DefinitionsFindable(world, tree, children, parents);
  }

  lemma WrittenSplittable()
    ensures Splittable(LosingWorld(), ROOT, Written(), [Root()])
  {
    WrittenReads();
    LibIsChild();
    LibPart();
    LibPartSplittable();
    NothingPinned();
    RootPins();
    assert FileAt(Written(), [LIB]).None?;
    OneChildSplittable(LosingWorld(), Written(), map[LIB := [LIB]], LIB, [Root()]);
  }

  lemma LibPartSplittable()
    ensures Splittable(LosingWorld(), ChildId(ROOT, LIB), LibFiles(), [LibPin()])
  {
    LibMountsNothing();
  }

  lemma NothingPinned()
    ensures Clean(Written()) && NothingUnder(Written(), PINS_DIR)
  {
    var tree, inner := Written(), Tree(map["trackers" := Sub(Definitions())]);
    assert tree.entries[".newgit"] == Sub(inner);
    assert LIB + TOML in Definitions().entries && "trackers" in inner.entries && "new" in LibFiles().entries;
    assert Clean(Definitions()) && Clean(inner) && Clean(LibFiles());
    forall rest ensures FileAt(tree, PINS_DIR + rest).None? {
      assert (PINS_DIR + rest)[0] == ".newgit" && (PINS_DIR + rest)[1..][0] == "pins";
      assert EntryAt(tree, PINS_DIR + rest) == EntryAt(inner, (PINS_DIR + rest)[1..]);
    }
  }

  /** The split goes well, and pins what was pinned: `lib`'s commit, with nothing made for what was written. */
  lemma LibCarried(bound: Bound, view: Commit)
    ensures var part := SplitPart(LosingWorld(), bound, view, ROOT, Written(), [Root()]);
            part.Ok? && part.value.made == [] && part.value.pins == map[LIB := LibPin()]
            && FileAt(part.value.own, [LIB, "new"]).None?
  {
    RootPins();
    LibIsChild();
    OneCarried(LosingWorld(), bound, view, ROOT, Written(), map[LIB := [LIB]], LIB, [Root()], LibPin());
    assert [LIB] <= [LIB, "new"];
    OwnPartFiles(Written(), map[LIB := [LIB]], [LIB, "new"]);
  }

  /** So a file of the view is in no commit the split makes, though nothing is wrong with what was written. */
  lemma FileIsLost(bound: Bound, view: Commit)
    requires view.tree == Written()
    ensures Splittable(LosingWorld(), ROOT, view.tree, [Root()])
    ensures var part := SplitPart(LosingWorld(), bound, view, ROOT, view.tree, [Root()]);
            part.Ok? && part.value.made == [] && FileAt(part.value.own, [LIB, "new"]).None?
            && FileAt(view.tree, [LIB, "new"]).Some?
            && TreeFor(LosingWorld(), EVERYONE, ROOT, RootCommit(LosingWorld(), view, part.value, [Root()]))
                 != Ok(view.tree)
  {
    WrittenSplittable();
    LibCarried(bound, view);
    WrittenReads();
    var world := LosingWorld();
    var part := SplitPart(world, bound, view, ROOT, view.tree, [Root()]).value;
    PartComposes(world, bound, view, ROOT, view.tree, [Root()], part, RootCommit(world, view, part, [Root()]));
    WrittenLost(bound);
  }

  lemma WrittenLost(bound: Bound)
    ensures !NothingLost(LosingWorld(), bound, ROOT, Written(), [Root()])
  {
    LibIsChild();
    LibPart();
    RootPins();
    assert !AllHeld(LosingWorld(), Before([Root()], LIB)) by { assert LibPin() in Before([Root()], LIB); }
    CarriedLoses(LosingWorld(), bound, ROOT, Written(), [Root()], map[LIB := [LIB]], LIB);
  }
}
