/** What was split composes back. */
module RoundTrip {
  // Split and compose as inverses: which view commits come back from the root commits
  // made of them, in every field, and which do not.

  import opened Wrappers
  import opened Names
  import opened Objects
  import opened Order
  import opened Compose
  import opened Split
  import opened Carried
  import opened Partition
  import opened PinnedTrees
  import Messages
  import Text

  /** Ids look like ids: forty hex digits. */
  ghost predicate Ids(world: World) {
    forall commit :: Messages.IsId(world.id(commit))
  }

  /** What a split made is in the store. */
  ghost predicate MadeHeld(world: World, made: seq<Made>) {
    forall one | one in made :: world.held(one.commit)
  }

  // ---- what a split asks of the trees it is given ---------------------------------

  ghost predicate NothingUnder(tree: Tree, path: Path) {
    forall rest :: FileAt(tree, path + rest).None?
  }

  function MountsAtDefinitions(world: World, entry: Option<Entry>): bool {
    && entry.Some? && entry.value.Blob?
    && world.toml(entry.value.data).Some? && world.toml(entry.value.data).value.mount == DEFINITIONS_DIR
  }

  /** Nothing at the top of `tree` passes it off as the definitions' tracker `name`. */
  ghost predicate NoRival(world: World, tree: Tree, name: Name) {
    var entry := EntryAt(tree, [name + TOML]);
    entry.Some? ==> entry.value.Blob? && !MountsAtDefinitions(world, entry)
  }

  /**
   Either no child is mounted at or above the definitions, so they stay with
   the tracker, or one (`access`) is mounted exactly there: then it mounts
   nothing itself, and no other child looks like it.
   */
  ghost predicate DefinitionsFindable(world: World, tree: Tree, children: map<Name, Path>, parents: seq<Commit>)
    requires DistinctMounts(children)
  {
    || (forall name | name in children :: !(children[name] <= DEFINITIONS_DIR))
    || exists access | access in children :: HoldsThem(world, tree, children, parents, access)
  }

  /** `access` is mounted at the definitions, mounts nothing itself, and has no rival. */
  ghost predicate HoldsThem(world: World, tree: Tree, children: map<Name, Path>, parents: seq<Commit>, access: Name)
    requires DistinctMounts(children)
  {
    && access in children && children[access] == DEFINITIONS_DIR
    && (forall name | name in children && name != access :: !(children[name] <= DEFINITIONS_DIR))
    && Subtree(PartOf(tree, children, access).Or(EMPTY), DEFINITIONS_DIR).None?
    && (forall pin | pin in Before(parents, access) && world.held(pin) :: Pins(pin.tree) == map[])
    && (forall name | name in children && name != access ::
          && NoRival(world, PartOf(tree, children, name).Or(EMPTY), name)
          && forall pin | pin in Before(parents, name) && world.held(pin) :: NoRival(world, pin.tree, name))
  }

  /**
   What the code does not enforce, at every level: no empty subtrees, nothing
   under a mounted tracker's own pins, no plain file exactly at a mount.
   */
  ghost predicate Splittable(world: World, tracker: Name, tree: Tree, parents: seq<Commit>)
    decreases Height(tree)
  {
    && Clean(tree)
    && NothingUnder(tree, PINS_DIR)
    && var found := ChildrenIn(world, tree, tracker);
       found.Ok? ==>
         var children := found.value;
         && (forall name | name in children :: FileAt(tree, children[name]).None?)
         && DefinitionsFindable(world, tree, children, parents)
         && (forall name | name in children ::
               PartHeight(tree, children, name);
               Splittable(world, ChildId(tracker, name), PartOf(tree, children, name).Or(EMPTY), Before(parents, name)))
  }

  // ---- one level of a split -----------------------------------------------------------

  /**
   A pin is kept where it is the part already, and where it is not here; else there
   is nothing or a commit to make.
   */
  lemma ChoiceIs(world: World, bound: Bound, id: Name, before: seq<Commit>, part: Option<Tree>, choice: Choice)
    requires Distinct(before) && Choose(world, bound, id, before, part) == Ok(choice)
    ensures choice.Nothing? ==> part.None? && before == []
    ensures choice.Keep? ==> choice.pin in before && (world.held(choice.pin) <==> AllHeld(world, before))
    ensures choice.Keep? && world.held(choice.pin) ==> TreeFor(world, EVERYONE, id, choice.pin) == Ok(part.Or(EMPTY))
    ensures choice.Make? ==> AllHeld(world, before)
  {
    if !AllHeld(world, before) { ChoiceWhenNotHere(world, bound, id, before, part); }
  }

  /** What each piece is. */
  lemma PieceIs(world: World, bound: Bound, view: Commit, tracker: Name, tree: Tree,
                children: map<Name, Path>, name: Name, parents: seq<Commit>, piece: Piece)
    requires Subtree(tree, DEFINITIONS_DIR).Some?
    requires name in children && children[name] != []
    requires SplitChild(world, bound, view, tracker, tree, children, name, parents) == Ok(piece)
    ensures var part, id, before := PartOf(tree, children, name), ChildId(tracker, name), Before(parents, name);
            var choice := Choose(world, bound, id, before, part);
            && (choice == Ok(Make) <==> piece.New?)
            && (piece.Absent? ==> part.None? && before == [])
            && (piece.Reused? ==> piece.pin in before && (world.held(piece.pin) <==> AllHeld(world, before)))
            && (piece.Reused? && world.held(piece.pin) ==>
                  TreeFor(world, EVERYONE, id, piece.pin) == Ok(part.Or(EMPTY)))
            && (piece.New? ==>
                  var inside := SplitPart(world, bound, view, id, part.Or(EMPTY), before);
                  AllHeld(world, before) && inside.Ok? && piece.inside == inside.value.made
                  && piece.pin == ChildCommit(view, inside.value, before))
  {
    var part, id, before := PartOf(tree, children, name), ChildId(tracker, name), Before(parents, name);
    PieceChosen(world, bound, view, tracker, tree, children, name, parents, piece);
    ChoiceIs(world, bound, id, before, part, Choose(world, bound, id, before, part).value);
  }

  /** `part` is what `tree` splits into: its own files, and a pin for each piece. */
  ghost predicate SplitInto(world: World, bound: Bound, view: Commit, tracker: Name, tree: Tree,
                            children: map<Name, Path>, pieces: map<Name, Piece>, parents: seq<Commit>, part: Part)
  {
    && DistinctMounts(children)
    && (children != map[] ==> Subtree(tree, DEFINITIONS_DIR).Some?)
    && part.own == OwnPart(tree, children)
    && pieces.Keys == children.Keys
    && (forall name | name in children ::
          SplitChild(world, bound, view, tracker, tree, children, name, parents) == Ok(pieces[name]))
    && (forall name :: name in part.pins <==> name in children && !pieces[name].Absent?)
    && (forall name | name in part.pins :: part.pins[name] == pieces[name].pin)
    && (part.made == [] <==> forall name | name in children :: !pieces[name].New?)
    && (forall name | name in children && pieces[name].New? ::
          Made(ChildId(tracker, name), pieces[name].pin) in part.made
          && forall one | one in pieces[name].inside :: one in part.made)
  }

  lemma AssembledInto(world: World, bound: Bound, view: Commit, tracker: Name, tree: Tree, children: map<Name, Path>,
                      pieces: map<Name, Piece>, parents: seq<Commit>, part: Part)
    requires DistinctMounts(children) && (children != map[] ==> Subtree(tree, DEFINITIONS_DIR).Some?)
    requires pieces.Keys == children.Keys
    requires part == Assembled(OwnPart(tree, children), tracker, DeepestFirst(children), pieces)
    requires forall name | name in children ::
               SplitChild(world, bound, view, tracker, tree, children, name, parents) == Ok(pieces[name])
    ensures SplitInto(world, bound, view, tracker, tree, children, pieces, parents, part)
  {
    AssembledPins(OwnPart(tree, children), tracker, DeepestFirst(children), pieces);
    AssembledMade(OwnPart(tree, children), tracker, DeepestFirst(children), pieces);
  }

  lemma SplitLevel(world: World, bound: Bound, view: Commit, tracker: Name, tree: Tree, parents: seq<Commit>,
                   part: Part)
    returns (children: map<Name, Path>, pieces: map<Name, Piece>)
    requires SplitPart(world, bound, view, tracker, tree, parents) == Ok(part)
    ensures ChildrenIn(world, tree, tracker) == Ok(children)
    ensures SplitInto(world, bound, view, tracker, tree, children, pieces, parents, part)
  {
    children, pieces := LevelIs(world, bound, view, tracker, tree, parents, part);
    AssembledInto(world, bound, view, tracker, tree, children, pieces, parents, part);
  }

  // ---- finding the definitions again ----------------------------------------------------

  /** A definition file of `tree` saying that `name` is mounted at `mount`. */
  ghost predicate DefinesMount(world: World, tree: Tree, file: Path, mount: Path) {
    var found := FileAt(tree, file);
    && found.Some? && found.value.Blob?
    && world.toml(found.value.data).Some? && world.toml(found.value.data).value.mount == mount
  }

  lemma DefinitionRead(world: World, directory: Tree, names: set<Name>, nested: bool, name: Name)
    requires forall other | other in names :: other + TOML in directory.entries
    requires ReadDefinitions(world, directory, names, nested).Ok?
             && name in ReadDefinitions(world, directory, names, nested).value
    ensures name in names
    ensures ReadDefinition(world, directory.entries[name + TOML])
            == Ok(Some(ReadDefinitions(world, directory, names, nested).value[name]))
  {
  }

  /** A child's definition file says where it is mounted. */
  ghost predicate SaysMount(world: World, entry: Entry, mount: Path) {
    entry.Blob? && world.toml(entry.data).Some? && world.toml(entry.data).value.mount == mount
  }

  lemma ChildRead(world: World, tree: Tree, tracker: Name, children: map<Name, Path>, name: Name)
    returns (directory: Tree)
    requires ChildrenIn(world, tree, tracker) == Ok(children) && name in children
    ensures Subtree(tree, DEFINITIONS_DIR) == Some(directory) && name + TOML in directory.entries
    ensures SaysMount(world, directory.entries[name + TOML], children[name])
  {
    directory := Subtree(tree, DEFINITIONS_DIR).value;
    var names := DefinedNames(directory);
    forall other | other in names ensures other + TOML in directory.entries { DefinedNamesAre(directory, other); }
    DefinitionRead(world, directory, names, tracker != ROOT, name);
  }

  lemma ChildDefined(world: World, tree: Tree, tracker: Name, children: map<Name, Path>, name: Name)
    requires ChildrenIn(world, tree, tracker) == Ok(children) && name in children
    ensures DefinesMount(world, tree, DEFINITIONS_DIR + [name + TOML], children[name])
  {
    var directory := ChildRead(world, tree, tracker, children, name);
    SubtreeFiles(tree, DEFINITIONS_DIR, [name + TOML]);
    assert EntryAt(directory, [name + TOML]) == Some(directory.entries[name + TOML]);
  }

  lemma MountFromFile(world: World, tree: Tree, directory: Tree, at: Path, name: Name, mount: Path)
    requires Subtree(tree, at) == Some(directory) && DefinesMount(world, tree, at + [name + TOML], mount)
    ensures DefinedMount(world, Some(directory), name) == Ok(mount)
  {
    SubtreeFiles(tree, at, [name + TOML]);
  }

  lemma MountsOfIs(world: World, tree: Tree, pins: map<Name, Commit>, definitions: Tree, mounts: map<Name, Path>)
    requires mounts != map[] ==> DefinitionsTree(world, tree, pins) == Ok(Some(definitions))
    requires forall name | name in mounts :: DefinedMount(world, Some(definitions), name) == Ok(mounts[name])
    ensures MountsOf(world, tree, pins, mounts.Keys) == Ok(mounts)
  {
    if mounts == map[] {
      assert mounts.Keys == {};
    } else {
      assert mounts.Keys != {} by { var name :| name in mounts; }
      assert mounts == map name | name in mounts.Keys :: DefinedMount(world, Some(definitions), name).value;
    }
  }

  /** Above a file directly in a directory there are only the file and the directory's own prefixes. */
  lemma AboveFile(path: Path, directory: Path, file: Name)
    requires path <= directory + [file] && !(path <= directory)
    ensures path == directory + [file]
  {
    Nested(path, directory, directory + [file]);
  }

  /** The definition files a tracker keeps are still where they were. */
  ghost predicate KeepsDefinitions(world: World, tree: Tree, children: map<Name, Path>) {
    forall name | name in children :: DefinesMount(world, tree, DEFINITIONS_DIR + [name + TOML], children[name])
  }

  lemma DefinitionsStay(world: World, tree: Tree, pinned: Tree, children: map<Name, Path>)
    requires KeepsDefinitions(world, tree, children)
    requires forall name | name in children ::
               FileAt(tree, children[name]).None? && !(children[name] <= DEFINITIONS_DIR)
    requires forall path | Unmounted(children, path) && !(PINS_DIR <= path) ::
               FileAt(pinned, path) == FileAt(tree, path)
    ensures KeepsDefinitions(world, pinned, children)
  {
    forall name | name in children
      ensures DefinesMount(world, pinned, DEFINITIONS_DIR + [name + TOML], children[name])
    {
      var file := DEFINITIONS_DIR + [name + TOML];
      assert DefinesMount(world, tree, file, children[name]);
      forall other | other in children ensures !(children[other] <= file) {
        if children[other] <= file { AboveFile(children[other], DEFINITIONS_DIR, name + TOML); }
      }
      assert file[1] != PINS_DIR[1];
    }
  }

  lemma MountsKept(world: World, pinned: Tree, children: map<Name, Path>, pins: map<Name, Commit>, names: set<Name>)
    requires KeepsDefinitions(world, pinned, children) && names <= children.Keys
    ensures MountsOf(world, pinned, pins, names) == Ok(MountsFor(children, names))
  {
    var mounts := MountsFor(children, names);
    var definitions := Subtree(pinned, DEFINITIONS_DIR).Or(EMPTY);
    forall name | name in mounts
      ensures DefinedMount(world, Some(definitions), name) == Ok(mounts[name])
      ensures Subtree(pinned, DEFINITIONS_DIR) == Some(definitions)
    {
      assert DefinesMount(world, pinned, DEFINITIONS_DIR + [name + TOML], children[name]);
      AboveIsSubtree(pinned, DEFINITIONS_DIR, [name + TOML]);
      MountFromFile(world, pinned, definitions, DEFINITIONS_DIR, name, children[name]);
    }
    if mounts != map[] {
      var name :| name in mounts;
    }
    MountsOfIs(world, pinned, pins, definitions, mounts);
  }

  /** No pin that is here, bar `access`'s, passes itself off as the definitions' tracker. */
  ghost predicate NoOtherRival(world: World, pins: map<Name, Commit>, access: Name) {
    forall name | name in pins && name != access && world.held(pins[name]) :: NoRival(world, pins[name].tree, name)
  }

  lemma {:induction false} PinnedDefinitionsAre(world: World, pins: map<Name, Commit>, order: seq<Name>, access: Name)
    requires (forall name | name in order :: name in pins) && access in order && NoOtherRival(world, pins, access)
    requires world.held(pins[access]) ==> MountsAtDefinitions(world, EntryAt(pins[access].tree, [access + TOML]))
    ensures world.held(pins[access]) ==> PinnedDefinitions(world, pins, order) == Ok(Some(pins[access].tree))
    ensures !world.held(pins[access]) ==> PinnedDefinitions(world, pins, order) == Ok(None)
    decreases |order|
  {
    assert order == [order[0]] + order[1..];
    if access in order[1..] {
      PinnedDefinitionsAre(world, pins, order[1..], access);
    } else if !world.held(pins[access]) {
      NoPinnedDefinitions(world, pins, order[1..]);
    }
  }

  lemma {:induction false} NoPinnedDefinitions(world: World, pins: map<Name, Commit>, order: seq<Name>)
    requires forall name | name in order :: name in pins
    requires forall name | name in order && world.held(pins[name]) :: NoRival(world, pins[name].tree, name)
    ensures PinnedDefinitions(world, pins, order) == Ok(None)
    decreases |order|
  {
    if order != [] { NoPinnedDefinitions(world, pins, order[1..]); }
  }

  /** `access`'s own commit still says what each child's definition said. */
  ghost predicate HoldsDefinitions(world: World, definitions: Tree, children: map<Name, Path>) {
    forall name | name in children :: DefinesMount(world, definitions, [name + TOML], children[name])
  }

  /** With the definitions in `access`'s commit, mounts are found there if it is here. */
  lemma MountsPinned(world: World, pinned: Tree, children: map<Name, Path>, pins: map<Name, Commit>, names: set<Name>,
                     access: Name)
    requires names <= children.Keys && access in pins && children.Keys >= pins.Keys
    requires children[access] == DEFINITIONS_DIR && world.held(pins[access])
    requires Subtree(pinned, DEFINITIONS_DIR).None? && NoOtherRival(world, pins, access)
    requires HoldsDefinitions(world, pins[access].tree, children)
    ensures MountsOf(world, pinned, pins, names) == Ok(MountsFor(children, names))
  {
    var definitions, mounts := pins[access].tree, MountsFor(children, names);
    assert DefinesMount(world, definitions, [access + TOML], children[access]);
    PinnedDefinitionsAre(world, pins, ByName(pins.Keys), access);
    assert DefinitionsTree(world, pinned, pins) == Ok(Some(definitions));
    forall name | name in mounts ensures DefinedMount(world, Some(definitions), name) == Ok(mounts[name]) {
      assert DefinesMount(world, definitions, [name + TOML], children[name]);
    }
    MountsOfIs(world, pinned, pins, definitions, mounts);
  }

  /** If it is not, they are found nowhere. */
  lemma MountsNotFound(world: World, pinned: Tree, pins: map<Name, Commit>, names: set<Name>, access: Name)
    requires access in pins && !world.held(pins[access]) && names != {}
    requires Subtree(pinned, DEFINITIONS_DIR).None? && NoOtherRival(world, pins, access)
    ensures MountsOf(world, pinned, pins, names).Err?
  {
    PinnedDefinitionsAre(world, pins, ByName(pins.Keys), access);
    assert DefinitionsTree(world, pinned, pins) == Ok(None);
    var name :| name in names;
    assert DefinedMount(world, None, name).Err?;
  }

  // ---- definitions held by a child --------------------------------------------------------

  /** A commit that pins nothing composes to its own tree. */
  lemma PlainTree(world: World, tracker: Name, commit: Commit)
    requires Pins(commit.tree) == map[]
    ensures TreeFor(world, EVERYONE, tracker, commit) == Ok(Own(commit.tree))
  {
    var kids := KidTrees(world, EVERYONE, tracker, commit);
    assert Mounts(world, EVERYONE, tracker, commit) == Ok(map[]);
    assert kids == map[];
    TreeForGiven(world, EVERYONE, tracker, commit, map[], map[]);
    var none: map<Name, Path> := map[];
    assert forall name :: name in ByDepth(none) <==> name in none;
  }

  lemma TopFile(tree: Tree, name: Name)
    requires name != PINS_DIR[0]
    ensures FileAt(Own(tree), [name]) == FileAt(tree, [name])
  {
    SetPathFiles(tree, PINS_DIR, None, [name]);
  }

  lemma TomlIsNotPins(name: Name)
    ensures name + TOML != PINS_DIR[0]
  {
    assert (name + TOML)[|name + TOML| - 1] == 'l';
  }

  /** Splitting a part with no definitions keeps all of it, and pins nothing. */
  lemma PlainSplit(world: World, bound: Bound, view: Commit, tracker: Name, tree: Tree, parents: seq<Commit>,
                   part: Part)
    requires SplitPart(world, bound, view, tracker, tree, parents) == Ok(part)
    requires Subtree(tree, DEFINITIONS_DIR).None?
    ensures part.pins == map[] && part.own == OwnPart(tree, map[])
  {
    var children, pieces := SplitLevel(world, bound, view, tracker, tree, parents, part);
    assert children == map[];
  }

  /** The definitions' own part says what each child's definition said. */
  lemma PartDefines(world: World, tree: Tree, children: map<Name, Path>, access: Name)
    requires Clean(tree) && DistinctMounts(children) && KeepsDefinitions(world, tree, children)
    requires forall name | name in children :: FileAt(tree, children[name]).None?
    requires access in children && children[access] == DEFINITIONS_DIR
    requires forall name | name in children && name != access :: !(children[name] <= DEFINITIONS_DIR)
    ensures HoldsDefinitions(world, PartOf(tree, children, access).Or(EMPTY), children)
  {
    var part := PartOf(tree, children, access).Or(EMPTY);
    forall name | name in children ensures DefinesMount(world, part, [name + TOML], children[name]) {
      var file := DEFINITIONS_DIR + [name + TOML];
      assert DefinesMount(world, tree, file, children[name]);
      PartFiles(tree, children, access, [name + TOML]);
      forall other | other in children && children[other] <= file ensures |children[other]| <= |DEFINITIONS_DIR| {
        if other != access { AboveFile(children[other], DEFINITIONS_DIR, name + TOML); }
      }
    }
  }

  lemma SameTopFiles(world: World, from: Tree, to: Tree, children: map<Name, Path>)
    requires HoldsDefinitions(world, from, children)
    requires forall name :: FileAt(to, [name + TOML]) == FileAt(from, [name + TOML])
    ensures HoldsDefinitions(world, to, children)
  {
    forall name | name in children ensures DefinesMount(world, to, [name + TOML], children[name]) {
      assert DefinesMount(world, from, [name + TOML], children[name]);
    }
  }

  /** So does the commit pinned for it, made or reused, if it is here. */
  lemma AccessHolds(world: World, bound: Bound, view: Commit, tracker: Name, tree: Tree, children: map<Name, Path>,
                    parents: seq<Commit>, access: Name, piece: Piece)
    requires Subtree(tree, DEFINITIONS_DIR).Some?
    requires access in children && children[access] != [] && !piece.Absent? && world.held(piece.pin)
    requires SplitChild(world, bound, view, tracker, tree, children, access, parents) == Ok(piece)
    requires Subtree(PartOf(tree, children, access).Or(EMPTY), DEFINITIONS_DIR).None?
    requires forall pin | pin in Before(parents, access) && world.held(pin) :: Pins(pin.tree) == map[]
    requires HoldsDefinitions(world, PartOf(tree, children, access).Or(EMPTY), children)
    ensures HoldsDefinitions(world, piece.pin.tree, children)
  {
    var part, id, before := PartOf(tree, children, access).Or(EMPTY), ChildId(tracker, access), Before(parents, access);
    PieceIs(world, bound, view, tracker, tree, children, access, parents, piece);
    if piece.Reused? {
      PlainTree(world, id, piece.pin);
      forall name ensures FileAt(piece.pin.tree, [name + TOML]) == FileAt(part, [name + TOML]) {
        TomlIsNotPins(name);
        TopFile(piece.pin.tree, name + TOML);
      }
    } else {
      var inside := SplitPart(world, bound, view, id, part, before).value;
      PlainSplit(world, bound, view, id, part, before, inside);
      forall name ensures FileAt(piece.pin.tree, [name + TOML]) == FileAt(part, [name + TOML]) {
        TomlIsNotPins(name);
        OwnPartFiles(part, map[], [name + TOML]);
        WithPinsFiles(inside.own, inside.pins, [name + TOML]);
      }
    }
    SameTopFiles(world, part, piece.pin.tree, children);
  }

  /** A new commit passes itself off as the definitions' tracker only if its part did. */
  lemma NoNewRival(world: World, tree: Tree, pinned: Tree, name: Name)
    requires NoRival(world, tree, name) && Clean(pinned)
    requires forall path | !(PINS_DIR <= path) && FileAt(pinned, path).Some? ::
               FileAt(pinned, path) == FileAt(tree, path)
    ensures NoRival(world, pinned, name)
  {
    var file := name + TOML;
    TomlIsNotPins(name);
    var entry := EntryAt(pinned, [file]);
    if entry.Some? {
      if entry.value.Sub? {
        assert pinned.entries[file] == entry.value;
        var rest := SomeFile(entry.value.tree);
        var path := [file] + rest;
        assert path[1..] == rest && FileAt(pinned, path).Some?;
        assert !(PINS_DIR <= path) by { assert path[0] != PINS_DIR[0]; }
        AboveIsSubtree(tree, [file], rest);
      } else {
        assert FileAt(pinned, [file]) == FileAt(tree, [file]);
      }
    }
  }

  // ---- a part composes back -------------------------------------------------------------

  /** With children there are definitions, so no file stands where pins go. */
  lemma RoomForPins(tree: Tree, children: map<Name, Path>)
    requires DistinctMounts(children)
    requires children != map[] ==> Subtree(tree, DEFINITIONS_DIR).Some?
    ensures children != map[] ==> FileAt(OwnPart(tree, children), NEWGIT).None?
  {
    OwnPartFiles(tree, children, NEWGIT);
    if children != map[] {
      assert NEWGIT + ["trackers"] == DEFINITIONS_DIR;
      AboveIsSubtree(tree, NEWGIT, ["trackers"]);
    }
  }

  lemma PartTakesPins(tree: Tree, children: map<Name, Path>, pins: map<Name, Commit>)
    requires Clean(tree) && NothingUnder(tree, PINS_DIR) && DistinctMounts(children)
    requires children != map[] ==> Subtree(tree, DEFINITIONS_DIR).Some?
    requires pins.Keys <= children.Keys
    ensures var own := OwnPart(tree, children); var pinned := WithPins(own, pins);
            Clean(own) && Clean(pinned) && Pins(pinned) == pins && Own(pinned) == own
    ensures forall path | !(PINS_DIR <= path) ::
              FileAt(WithPins(OwnPart(tree, children), pins), path) == FileAt(OwnPart(tree, children), path)
  {
    var own := OwnPart(tree, children);
    OwnPartClean(tree, children);
    RoomForPins(tree, children);
    assert pins != map[] ==> children != map[] by {
      if pins != map[] { var name :| name in pins; assert name in children; }
    }
    forall rest ensures FileAt(own, PINS_DIR + rest).None? { OwnPartFiles(tree, children, PINS_DIR + rest); }
    PinsComeBack(own, pins);
    forall path | !(PINS_DIR <= path) ensures FileAt(WithPins(own, pins), path) == FileAt(own, path) {
      WithPinsFiles(own, pins, path);
    }
  }

  lemma ChildrenDefined(world: World, tree: Tree, tracker: Name, children: map<Name, Path>)
    requires ChildrenIn(world, tree, tracker) == Ok(children)
    ensures KeepsDefinitions(world, tree, children)
  {
    forall name | name in children
      ensures DefinesMount(world, tree, DEFINITIONS_DIR + [name + TOML], children[name])
    {
      ChildDefined(world, tree, tracker, children, name);
    }
  }

  /** No pinned commit but `access`'s passes itself off as the definitions' tracker. */
  lemma PinNoRival(world: World, bound: Bound, view: Commit, tracker: Name, tree: Tree, children: map<Name, Path>,
                   parents: seq<Commit>, name: Name, piece: Piece)
    requires Subtree(tree, DEFINITIONS_DIR).Some?
    requires name in children && children[name] != [] && !piece.Absent? && world.held(piece.pin)
    requires SplitChild(world, bound, view, tracker, tree, children, name, parents) == Ok(piece)
    requires var part := PartOf(tree, children, name).Or(EMPTY); Clean(part) && NothingUnder(part, PINS_DIR)
    requires NoRival(world, PartOf(tree, children, name).Or(EMPTY), name)
    requires forall pin | pin in Before(parents, name) && world.held(pin) :: NoRival(world, pin.tree, name)
    ensures NoRival(world, piece.pin.tree, name)
  {
    PieceIs(world, bound, view, tracker, tree, children, name, parents, piece);
    if piece.New? {
      var part, id, before := PartOf(tree, children, name).Or(EMPTY), ChildId(tracker, name), Before(parents, name);
      var inside := SplitPart(world, bound, view, id, part, before).value;
      var kids, pieces := SplitLevel(world, bound, view, id, part, before, inside);
      PartTakesPins(part, kids, inside.pins);
      forall path | !(PINS_DIR <= path) && FileAt(piece.pin.tree, path).Some?
        ensures FileAt(piece.pin.tree, path) == FileAt(part, path)
      {
        OwnPartFiles(part, kids, path);
      }
      NoNewRival(world, part, piece.pin.tree, name);
    }
  }

  /** What `Splittable` says of one level. */
  lemma SplittableHere(world: World, tracker: Name, tree: Tree, parents: seq<Commit>, children: map<Name, Path>)
    requires Splittable(world, tracker, tree, parents) && ChildrenIn(world, tree, tracker) == Ok(children)
    ensures Clean(tree) && NothingUnder(tree, PINS_DIR) && DistinctMounts(children)
    ensures children != map[] ==> Subtree(tree, DEFINITIONS_DIR).Some?
    ensures forall name | name in children :: FileAt(tree, children[name]).None?
    ensures DefinitionsFindable(world, tree, children, parents)
  {
  }

  lemma SplittableBelow(world: World, tracker: Name, tree: Tree, parents: seq<Commit>, children: map<Name, Path>,
                        name: Name)
    requires Splittable(world, tracker, tree, parents) && ChildrenIn(world, tree, tracker) == Ok(children)
    requires name in children
    ensures Splittable(world, ChildId(tracker, name), PartOf(tree, children, name).Or(EMPTY), Before(parents, name))
    ensures var part := PartOf(tree, children, name).Or(EMPTY); Clean(part) && NothingUnder(part, PINS_DIR)
  {
  }

  lemma UnmountedStays(tree: Tree, children: map<Name, Path>, pins: map<Name, Commit>)
    requires Clean(tree) && NothingUnder(tree, PINS_DIR) && DistinctMounts(children)
    requires children != map[] ==> Subtree(tree, DEFINITIONS_DIR).Some?
    requires pins.Keys <= children.Keys
    ensures forall path | Unmounted(children, path) && !(PINS_DIR <= path) ::
              FileAt(WithPins(OwnPart(tree, children), pins), path) == FileAt(tree, path)
  {
    PartTakesPins(tree, children, pins);
    forall path | Unmounted(children, path) && !(PINS_DIR <= path)
      ensures FileAt(WithPins(OwnPart(tree, children), pins), path) == FileAt(tree, path)
    {
      OwnPartFiles(tree, children, path);
    }
  }

  lemma MountEmptyAt(tree: Tree, children: map<Name, Path>, pins: map<Name, Commit>, name: Name, path: Path)
    requires DistinctMounts(children) && pins.Keys <= children.Keys && name in children
    requires children != map[] ==> Subtree(tree, DEFINITIONS_DIR).Some?
    requires children[name] <= path && !(PINS_DIR <= path)
    ensures FileAt(WithPins(OwnPart(tree, children), pins), path).None?
  {
    RoomForPins(tree, children);
    WithPinsFiles(OwnPart(tree, children), pins, path);
    OwnPartFiles(tree, children, path);
  }

  lemma DefinitionsLeave(tree: Tree, children: map<Name, Path>, pins: map<Name, Commit>, access: Name)
    requires Clean(tree) && NothingUnder(tree, PINS_DIR) && DistinctMounts(children)
    requires children != map[] ==> Subtree(tree, DEFINITIONS_DIR).Some?
    requires pins.Keys <= children.Keys && access in children && children[access] == DEFINITIONS_DIR
    ensures Subtree(WithPins(OwnPart(tree, children), pins), DEFINITIONS_DIR).None?
  {
    var pinned, mount := WithPins(OwnPart(tree, children), pins), children[access];
    assert Clean(pinned) by { PartTakesPins(tree, children, pins); }
    forall rest ensures FileAt(pinned, mount + rest).None? {
      NotUnderPins(rest);
      MountEmptyAt(tree, children, pins, access, mount + rest);
    }
    NoFilesNoSubtree(pinned, mount);
  }

  lemma NotUnderPins(rest: Path)
    ensures !(PINS_DIR <= DEFINITIONS_DIR + rest)
  {
    assert (DEFINITIONS_DIR + rest)[1] != PINS_DIR[1];
  }

  /** Files of a child that is not all here: the split carried its pin over, and they are in no commit. */
  ghost predicate LostHere(world: World, tree: Tree, children: map<Name, Path>, parents: seq<Commit>) {
    exists name | name in children :: !AllHeld(world, Before(parents, name)) && PartOf(tree, children, name).Some?
  }

  /** With `access` at the definitions, its own commit says it if it is here, and no other that is here does. */
  lemma AccessPinned(world: World, bound: Bound, view: Commit, tracker: Name, tree: Tree, parents: seq<Commit>,
                     children: map<Name, Path>, pieces: map<Name, Piece>, part: Part, access: Name)
    requires Splittable(world, tracker, tree, parents) && ChildrenIn(world, tree, tracker) == Ok(children)
    requires SplitInto(world, bound, view, tracker, tree, children, pieces, parents, part)
    requires HoldsThem(world, tree, children, parents, access) && MadeHeld(world, part.made)
    ensures access in part.pins
    ensures world.held(part.pins[access]) ==> HoldsDefinitions(world, part.pins[access].tree, children)
    ensures !world.held(part.pins[access]) ==> LostHere(world, tree, children, parents)
  {
    ChildrenDefined(world, tree, tracker, children);
    PartDefines(world, tree, children, access);
    PieceIs(world, bound, view, tracker, tree, children, access, parents, pieces[access]);
    assert DefinesMount(world, PartOf(tree, children, access).Or(EMPTY), [access + TOML], children[access]);
    EmptyHasNoFile([access + TOML]);
    if pieces[access].New? { assert world.held(Made(ChildId(tracker, access), pieces[access].pin).commit); }
    if world.held(pieces[access].pin) {
      AccessHolds(world, bound, view, tracker, tree, children, parents, access, pieces[access]);
    }
  }

  lemma OthersNoRival(world: World, bound: Bound, view: Commit, tracker: Name, tree: Tree, parents: seq<Commit>,
                      children: map<Name, Path>, pieces: map<Name, Piece>, part: Part, access: Name)
    requires Splittable(world, tracker, tree, parents) && ChildrenIn(world, tree, tracker) == Ok(children)
    requires SplitInto(world, bound, view, tracker, tree, children, pieces, parents, part)
    requires HoldsThem(world, tree, children, parents, access)
    ensures NoOtherRival(world, part.pins, access)
  {
    forall name | name in part.pins && name != access && world.held(part.pins[name])
      ensures NoRival(world, part.pins[name].tree, name)
    {
      SplittableBelow(world, tracker, tree, parents, children, name);
      PinNoRival(world, bound, view, tracker, tree, children, parents, name, pieces[name]);
    }
  }

  /** The mounts of the children that are here are found, or not found because definitions are lost. */
  ghost predicate MountsFound(world: World, tree: Tree, children: map<Name, Path>, parents: seq<Commit>,
                              here: set<Name>, mounts: Result<map<Name, Path>>)
    requires here <= children.Keys
  {
    mounts == Ok(MountsFor(children, here)) || (mounts.Err? && LostHere(world, tree, children, parents))
  }

  lemma FoundOrLost(world: World, tree: Tree, children: map<Name, Path>, parents: seq<Commit>, pinned: Tree,
                    pins: map<Name, Commit>, access: Name, here: set<Name>)
    requires pins.Keys <= children.Keys && access in pins && children[access] == DEFINITIONS_DIR
    requires here == Here(world, pins).Keys
    requires Subtree(pinned, DEFINITIONS_DIR).None? && NoOtherRival(world, pins, access)
    requires world.held(pins[access]) ==> HoldsDefinitions(world, pins[access].tree, children)
    requires !world.held(pins[access]) ==> LostHere(world, tree, children, parents)
    ensures MountsFound(world, tree, children, parents, here, MountsOf(world, pinned, pins, here))
  {
    if world.held(pins[access]) {
      MountsPinned(world, pinned, children, pins, here, access);
    } else if here == {} {
      NoneWanted(world, pinned, children, pins);
    } else {
      MountsNotFound(world, pinned, pins, here, access);
    }
  }

  lemma NoneWanted(world: World, pinned: Tree, children: map<Name, Path>, pins: map<Name, Commit>)
    ensures MountsOf(world, pinned, pins, {}) == Ok(MountsFor(children, {}))
  {
    var none: map<Name, Path> := map[];
    assert MountsFor(children, {}) == none;
  }

  lemma MountsInAccess(world: World, bound: Bound, view: Commit, tracker: Name, tree: Tree, parents: seq<Commit>,
                       children: map<Name, Path>, pieces: map<Name, Piece>, part: Part, access: Name)
    requires Splittable(world, tracker, tree, parents) && ChildrenIn(world, tree, tracker) == Ok(children)
    requires SplitInto(world, bound, view, tracker, tree, children, pieces, parents, part)
    requires MadeHeld(world, part.made)
    requires HoldsThem(world, tree, children, parents, access)
    ensures part.pins.Keys <= children.Keys
    ensures MountsFound(world, tree, children, parents, Here(world, part.pins).Keys,
                        MountsOf(world, WithPins(part.own, part.pins), part.pins, Here(world, part.pins).Keys))
  {
    SplittableHere(world, tracker, tree, parents, children);
    AccessPinned(world, bound, view, tracker, tree, parents, children, pieces, part, access);
    OthersNoRival(world, bound, view, tracker, tree, parents, children, pieces, part, access);
    DefinitionsLeave(tree, children, part.pins, access);
    FoundOrLost(world, tree, children, parents, WithPins(part.own, part.pins), part.pins, access,
                Here(world, part.pins).Keys);
  }

  /**
   The pinned tree says where each child that is here is mounted, as the
   definitions in `tree` did; it cannot only if the definitions are lost.
   */
  lemma MountsComeBack(world: World, bound: Bound, view: Commit, tracker: Name, tree: Tree, parents: seq<Commit>,
                       children: map<Name, Path>, pieces: map<Name, Piece>, part: Part)
    requires Splittable(world, tracker, tree, parents) && ChildrenIn(world, tree, tracker) == Ok(children)
    requires MadeHeld(world, part.made)
    requires SplitInto(world, bound, view, tracker, tree, children, pieces, parents, part)
    ensures part.pins.Keys <= children.Keys
    ensures MountsFound(world, tree, children, parents, Here(world, part.pins).Keys,
                        MountsOf(world, WithPins(part.own, part.pins), part.pins, Here(world, part.pins).Keys))
  {
    var pinned := WithPins(part.own, part.pins);
    SplittableHere(world, tracker, tree, parents, children);
    if access :| access in children && HoldsThem(world, tree, children, parents, access) {
      MountsInAccess(world, bound, view, tracker, tree, parents, children, pieces, part, access);
    } else {
      ChildrenDefined(world, tree, tracker, children);
      UnmountedStays(tree, children, part.pins);
      DefinitionsStay(world, tree, pinned, children);
      MountsKept(world, pinned, children, part.pins, Here(world, part.pins).Keys);
    }
  }

  /** A child's commit composes to files of its part, and to its part if and only if nothing of it is lost. */
  ghost predicate KidRight(world: World, bound: Bound, tracker: Name, tree: Tree, children: map<Name, Path>,
                           parents: seq<Commit>, name: Name, kid: Result<Tree>)
    requires name in children && children[name] != [] && Subtree(tree, DEFINITIONS_DIR).Some?
  {
    var id, part, before := ChildId(tracker, name), PartOf(tree, children, name), Before(parents, name);
    && (kid.Ok? ==> Within(kid.value, part.Or(EMPTY)))
    && (kid == Ok(part.Or(EMPTY)) <==>
          (Choose(world, bound, id, before, part) == Ok(Make) ==>
             NothingLost(world, bound, id, part.Or(EMPTY), before)))
  }

  /** A child with a commit here has all of its pins here; one without has a part only if it has not. */
  ghost predicate HereOrLost(world: World, bound: Bound, tracker: Name, tree: Tree, children: map<Name, Path>,
                             parents: seq<Commit>, name: Name, here: bool)
    requires name in children
  {
    var id, before, mine := ChildId(tracker, name), Before(parents, name), PartOf(tree, children, name);
    if here then AllHeld(world, before)
    else Choose(world, bound, id, before, mine) != Ok(Make) && (mine.Some? ==> !AllHeld(world, before))
  }

  lemma ChildHereOrLost(world: World, bound: Bound, view: Commit, tracker: Name, tree: Tree, parents: seq<Commit>,
                        children: map<Name, Path>, pieces: map<Name, Piece>, part: Part, name: Name)
    requires SplitInto(world, bound, view, tracker, tree, children, pieces, parents, part)
    requires MadeHeld(world, part.made) && name in children
    ensures HereOrLost(world, bound, tracker, tree, children, parents, name, name in Here(world, part.pins))
  {
    PieceIs(world, bound, view, tracker, tree, children, name, parents, pieces[name]);
    if pieces[name].New? { NewPinHeld(world, bound, view, tracker, tree, children, pieces, parents, part, name); }
  }

  /** A child that is here composes to its part, and one that is not has none. */
  ghost predicate IsItsPart(tree: Tree, children: map<Name, Path>, found: map<Name, Result<Tree>>, name: Name)
    requires name in children
  {
    if name in found then found[name] == Ok(PartOf(tree, children, name).Or(EMPTY))
    else PartOf(tree, children, name).None?
  }

  ghost predicate EachIsPart(tree: Tree, children: map<Name, Path>, found: map<Name, Result<Tree>>) {
    forall name | name in children :: IsItsPart(tree, children, found, name)
  }

  /** What the children that are here compose to has files of their parts only. */
  ghost predicate EachWithin(tree: Tree, children: map<Name, Path>, found: map<Name, Result<Tree>>) {
    && found.Keys <= children.Keys
    && forall name | name in found && found[name].Ok? ::
         Within(found[name].value, PartOf(tree, children, name).Or(EMPTY))
  }

  lemma AllPartsAre(tree: Tree, children: map<Name, Path>, found: map<Name, Result<Tree>>)
    requires EachWithin(tree, children, found) && AllTrees(found)
    ensures SomeParts(tree, children, Trees(found))
    ensures AllParts(tree, children, Trees(found)) <==> EachIsPart(tree, children, found)
  {
    assert forall name | name in found :: found[name] == Ok(Trees(found)[name]);
    if AllParts(tree, children, Trees(found)) {
      forall name | name in children ensures IsItsPart(tree, children, found, name) { }
    } else {
      var name :| name in children
                  && !(if name in found then Trees(found)[name] == PartOf(tree, children, name).Or(EMPTY)
                       else PartOf(tree, children, name).None?);
      assert !IsItsPart(tree, children, found, name);
    }
  }

  /** A child is kept if and only if its commit composes to its part, or it has neither. */
  lemma KeptIsPart(world: World, bound: Bound, tracker: Name, tree: Tree, parents: seq<Commit>,
                   children: map<Name, Path>, kids: map<Name, Result<Tree>>, name: Name)
    requires name in children && children[name] != [] && Subtree(tree, DEFINITIONS_DIR).Some?
    requires HereOrLost(world, bound, tracker, tree, children, parents, name, name in kids)
    requires name in kids ==> KidRight(world, bound, tracker, tree, children, parents, name, kids[name])
    ensures ChildKept(world, bound, tracker, tree, children, name, parents) <==> IsItsPart(tree, children, kids, name)
    ensures name in kids ==> AllHeld(world, Before(parents, name))
  {
  }

  /** What `NothingLost` says of one level, given which children's commits compose to their parts. */
  lemma NothingLostHere(world: World, bound: Bound, tracker: Name, tree: Tree, parents: seq<Commit>,
                        children: map<Name, Path>, kids: map<Name, Result<Tree>>)
    requires ChildrenIn(world, tree, tracker) == Ok(children) && kids.Keys <= children.Keys
    requires forall name | name in children ::
               HereOrLost(world, bound, tracker, tree, children, parents, name, name in kids)
    requires forall name | name in kids :: KidRight(world, bound, tracker, tree, children, parents, name, kids[name])
    ensures NothingLost(world, bound, tracker, tree, parents) <==> EachIsPart(tree, children, kids)
    ensures forall name | name in kids :: AllHeld(world, Before(parents, name))
  {
    forall name | name in children
      ensures ChildKept(world, bound, tracker, tree, children, name, parents) <==> IsItsPart(tree, children, kids, name)
      ensures name in kids ==> AllHeld(world, Before(parents, name))
    {
      KeptIsPart(world, bound, tracker, tree, parents, children, kids, name);
    }
  }

  lemma LostIsNotPart(world: World, tree: Tree, children: map<Name, Path>, parents: seq<Commit>,
                      found: map<Name, Result<Tree>>)
    requires LostHere(world, tree, children, parents)
    requires forall name | name in found :: AllHeld(world, Before(parents, name))
    ensures !EachIsPart(tree, children, found)
  {
    var name :| name in children && !AllHeld(world, Before(parents, name)) && PartOf(tree, children, name).Some?;
    assert name !in found;
    assert !IsItsPart(tree, children, found, name);
  }

  /** The children's trees grafted back: files of `tree` only, and all of it if and only if each is its part. */
  lemma GraftedIs(world: World, tracker: Name, tree: Tree, children: map<Name, Path>, commit: Commit,
                  found: map<Name, Result<Tree>>)
    requires found == KidTrees(world, EVERYONE, tracker, commit)
    requires Separable(tree, children) && Own(commit.tree) == OwnPart(tree, children)
    requires EachWithin(tree, children, found)
    requires Mounts(world, EVERYONE, tracker, commit) == Ok(MountsFor(children, found.Keys))
    ensures var composed := TreeFor(world, EVERYONE, tracker, commit);
            && (composed.Ok? ==> Within(composed.value, tree))
            && (composed == Ok(tree) <==> EachIsPart(tree, children, found))
  {
    if AllTrees(found) {
      AllPartsAre(tree, children, found);
      TreeForGiven(world, EVERYONE, tracker, commit, MountsFor(children, found.Keys), Trees(found));
      PartsComeBack(tree, children, Trees(found));
    } else {
      var name :| name in found && found[name].Err?;
      assert !IsItsPart(tree, children, found, name);
    }
  }

  /** Where mounts are found or definitions lost, the children's trees make up files of `tree`, or all of it. */
  lemma MountedIs(world: World, tracker: Name, tree: Tree, children: map<Name, Path>, parents: seq<Commit>,
                  commit: Commit, kids: map<Name, Result<Tree>>)
    requires Separable(tree, children) && Own(commit.tree) == OwnPart(tree, children)
    requires EachWithin(tree, children, kids) && kids == KidTrees(world, EVERYONE, tracker, commit)
    requires forall name | name in kids :: AllHeld(world, Before(parents, name))
    requires MountsFound(world, tree, children, parents, kids.Keys, Mounts(world, EVERYONE, tracker, commit))
    ensures var composed := TreeFor(world, EVERYONE, tracker, commit);
            && (composed.Ok? ==> Within(composed.value, tree))
            && (composed == Ok(tree) <==> EachIsPart(tree, children, kids))
  {
    if Mounts(world, EVERYONE, tracker, commit).Ok? {
      GraftedIs(world, tracker, tree, children, commit, kids);
    } else {
      LostIsNotPart(world, tree, children, parents, kids);
      NoMountsNoTree(world, tracker, commit);
    }
  }

  lemma NoMountsNoTree(world: World, tracker: Name, commit: Commit)
    requires Mounts(world, EVERYONE, tracker, commit).Err?
    ensures TreeFor(world, EVERYONE, tracker, commit).Err?
  {
  }

  lemma AllHereOrLost(world: World, bound: Bound, view: Commit, tracker: Name, tree: Tree, parents: seq<Commit>,
                      part: Part, children: map<Name, Path>, pieces: map<Name, Piece>, here: set<Name>)
    requires SplitInto(world, bound, view, tracker, tree, children, pieces, parents, part)
    requires MadeHeld(world, part.made)
    requires here == Here(world, part.pins).Keys
    ensures forall name | name in children ::
              HereOrLost(world, bound, tracker, tree, children, parents, name, name in here)
  {
    forall name | name in children
      ensures HereOrLost(world, bound, tracker, tree, children, parents, name, name in here)
    {
      ChildHereOrLost(world, bound, view, tracker, tree, parents, children, pieces, part, name);
    }
  }

  /** The mounts of the children that are here are found in the commit, or the definitions are lost with a pin. */
  lemma LevelMounts(world: World, bound: Bound, view: Commit, tracker: Name, tree: Tree, parents: seq<Commit>,
                    part: Part, commit: Commit, children: map<Name, Path>, pieces: map<Name, Piece>)
    requires Splittable(world, tracker, tree, parents) && ChildrenIn(world, tree, tracker) == Ok(children)
    requires SplitInto(world, bound, view, tracker, tree, children, pieces, parents, part)
    requires MadeHeld(world, part.made)
    requires commit.tree == WithPins(part.own, part.pins) && Pins(commit.tree) == part.pins
    ensures part.pins.Keys <= children.Keys
    ensures MountsFound(world, tree, children, parents, Here(world, part.pins).Keys,
                        Mounts(world, EVERYONE, tracker, commit))
  {
    MountsComeBack(world, bound, view, tracker, tree, parents, children, pieces, part);
    EveryoneGetsAll(world, tracker, part.pins);
  }

  /** One level composes, once the commits of the children that are here are known to. */
  lemma LevelComposes(world: World, bound: Bound, view: Commit, tracker: Name, tree: Tree, parents: seq<Commit>,
                      part: Part, commit: Commit, children: map<Name, Path>, pieces: map<Name, Piece>,
                      kids: map<Name, Result<Tree>>)
    requires Splittable(world, tracker, tree, parents) && ChildrenIn(world, tree, tracker) == Ok(children)
    requires SplitInto(world, bound, view, tracker, tree, children, pieces, parents, part)
    requires MadeHeld(world, part.made) && kids == KidTrees(world, EVERYONE, tracker, commit)
    requires commit.tree == WithPins(part.own, part.pins)
    requires Pins(commit.tree) == part.pins && Own(commit.tree) == part.own
    requires kids.Keys == Here(world, part.pins).Keys
    requires forall name | name in kids :: KidRight(world, bound, tracker, tree, children, parents, name, kids[name])
    ensures var composed := TreeFor(world, EVERYONE, tracker, commit);
            && (composed.Ok? ==> Within(composed.value, tree))
            && (composed == Ok(tree) <==> NothingLost(world, bound, tracker, tree, parents))
  {
    SplittableHere(world, tracker, tree, parents, children);
    LevelMounts(world, bound, view, tracker, tree, parents, part, commit, children, pieces);
    AllHereOrLost(world, bound, view, tracker, tree, parents, part, children, pieces, kids.Keys);
    NothingLostHere(world, bound, tracker, tree, parents, children, kids);
    MountedIs(world, tracker, tree, children, parents, commit, kids);
  }

  /** The commit's pins are the part's, its own files too, and its children those that are here. */
  lemma PartPinned(world: World, bound: Bound, view: Commit, tracker: Name, tree: Tree, parents: seq<Commit>,
                   part: Part, commit: Commit, children: map<Name, Path>, pieces: map<Name, Piece>)
    requires Splittable(world, tracker, tree, parents) && ChildrenIn(world, tree, tracker) == Ok(children)
    requires SplitInto(world, bound, view, tracker, tree, children, pieces, parents, part)
    requires commit.tree == WithPins(part.own, part.pins)
    ensures Pins(commit.tree) == part.pins && Own(commit.tree) == part.own
    ensures KidTrees(world, EVERYONE, tracker, commit).Keys == Here(world, part.pins).Keys
  {
    SplittableHere(world, tracker, tree, parents, children);
    PartTakesPins(tree, children, part.pins);
    EveryoneGetsAll(world, tracker, part.pins);
  }

  /** One child's commit composes, made or reused. */
  lemma {:induction false} KidComposes(world: World, bound: Bound, view: Commit, tracker: Name, tree: Tree,
                                       parents: seq<Commit>, part: Part, children: map<Name, Path>,
                                       pieces: map<Name, Piece>, name: Name)
    requires Splittable(world, tracker, tree, parents) && ChildrenIn(world, tree, tracker) == Ok(children)
    requires SplitInto(world, bound, view, tracker, tree, children, pieces, parents, part)
    requires MadeHeld(world, part.made) && name in part.pins && world.held(part.pins[name])
    ensures KidRight(world, bound, tracker, tree, children, parents, name,
                     TreeFor(world, EVERYONE, ChildId(tracker, name), part.pins[name]))
    decreases Height(tree), 0
  {
    var id, before, inner := ChildId(tracker, name), Before(parents, name), PartOf(tree, children, name).Or(EMPTY);
    PieceIs(world, bound, view, tracker, tree, children, name, parents, pieces[name]);
    SplittableBelow(world, tracker, tree, parents, children, name);
    if pieces[name].New? {
      PartHeight(tree, children, name);
      var inside := SplitPart(world, bound, view, id, inner, before).value;
      PartComposes(world, bound, view, id, inner, before, inside, pieces[name].pin);
    }
  }

  /**
   What a part of a view was split into composes, for a reader of everything, to
   files of that part and no others, and to all of it if and only if nothing was
   lost: no child whose pins are not all here had any, here or further down.
   */
  lemma {:induction false} PartComposes(world: World, bound: Bound, view: Commit, tracker: Name, tree: Tree,
                                        parents: seq<Commit>, part: Part, commit: Commit)
    requires Splittable(world, tracker, tree, parents)
    requires SplitPart(world, bound, view, tracker, tree, parents) == Ok(part) && MadeHeld(world, part.made)
    requires commit.tree == WithPins(part.own, part.pins)
    ensures Pins(commit.tree) == part.pins && Own(commit.tree) == part.own
    ensures var composed := TreeFor(world, EVERYONE, tracker, commit);
            && (composed.Ok? ==> Within(composed.value, tree))
            && (composed == Ok(tree) <==> NothingLost(world, bound, tracker, tree, parents))
    decreases Height(tree), 1
  {
    var children, pieces := SplitLevel(world, bound, view, tracker, tree, parents, part);
    PartPinned(world, bound, view, tracker, tree, parents, part, commit, children, pieces);
    var kids := KidTrees(world, EVERYONE, tracker, commit);
    forall name | name in kids ensures KidRight(world, bound, tracker, tree, children, parents, name, kids[name]) {
      KidAt(world, EVERYONE, tracker, commit, name);
      KidComposes(world, bound, view, tracker, tree, parents, part, children, pieces, name);
    }
    LevelComposes(world, bound, view, tracker, tree, parents, part, commit, children, pieces, kids);
  }

  // ---- one view commit comes back ------------------------------------------------------

  /** For a reader of everything `root` composes to `view`, and expands every pin that is here. */
  ghost predicate Stands(world: World, view: Commit, root: Commit) {
    View(world, EVERYONE, ROOT, root) == Ok(Composed(view, Here(world, Pins(root.tree)).Keys))
  }

  /** What the roots that stand for `view`'s parents compose to. */
  function ParentViews(world: World, view: Commit, roots: seq<Commit>): (views: seq<Composed>)
    requires |roots| == |view.parents|
    ensures |views| == |roots|
    ensures forall i | 0 <= i < |roots| ::
              views[i].view == view.parents[i] && views[i].expanded == Here(world, Pins(roots[i].tree)).Keys
  {
    seq(|roots|, i requires 0 <= i < |roots| => Composed(view.parents[i], Here(world, Pins(roots[i].tree)).Keys))
  }

  /**
   Compose passes `commit` over for one of its parents' views: all that changed
   was pins of children not expanded, or it merges pins of such a child and
   `tree` is that of a parent's view ahead of the others.
   */
  ghost predicate PassedFor(commit: Commit, mounts: map<Name, Path>, tree: Tree, views: seq<Composed>)
    requires |views| == |commit.parents|
  {
    || (|views| == 1 && OnlyWithheldMoved(commit, mounts, commit.parents[0], views[0].expanded))
    || (|views| > 1 && JoinsWithheld(Pins(commit.tree), mounts, commit.parents) && EmptyMerge(views, tree, 0).Some?)
  }

  /** Whether `view`'s root commit is passed over. */
  ghost predicate PassedOver(world: World, view: Commit, part: Part, roots: seq<Commit>)
    requires |roots| == |view.parents|
  {
    var commit := RootCommit(world, view, part, roots);
    PassedFor(commit, Mounts(world, EVERYONE, ROOT, commit).Or(map[]), view.tree, ParentViews(world, view, roots))
  }

  /** A new child's commit is pinned by none of the parents: it is ahead of all they pin. */
  lemma NewPinMoved(pin: Commit, name: Name, parents: seq<Commit>, views: seq<Composed>)
    requires |parents| == |views| && pin.parents == Before(parents, name)
    ensures !PinKept(name, pin, parents, views)
  {
    NotOwnParent(pin);
    assert pin !in Before(parents, name);
  }

  lemma NotOwnParent(commit: Commit)
    ensures commit !in commit.parents
  {
    forall i | 0 <= i < |commit.parents| ensures commit.parents[i] != commit {
      assert commit.parents[i] < commit;
    }
  }

  lemma OldPinKept(world: World, pin: Commit, name: Name, parents: seq<Commit>, views: seq<Composed>)
    requires |parents| == |views| && pin in Before(parents, name) && world.held(pin)
    requires forall i | 0 <= i < |views| :: views[i].expanded == Here(world, Pins(parents[i].tree)).Keys
    ensures PinKept(name, pin, parents, views)
  {
    var i :| 0 <= i < |parents| && name in Pins(parents[i].tree) && Pins(parents[i].tree)[name] == pin;
    assert name in views[i].expanded;
  }

  /** Of the pins that are here, the commits made for `view` are exactly those no parent had. */
  ghost predicate MadeAreMoved(view: Commit, here: map<Name, Commit>, parents: seq<Commit>, views: seq<Composed>,
                               made: set<Name>)
    requires |parents| == |views|
  {
    forall name | name in here ::
      && (name in made <==> !PinKept(name, here[name], parents, views))
      && (name in made ==> here[name].author == view.author && here[name].committer == view.committer
                           && here[name].message == view.message)
  }

  lemma PinMoved(world: World, bound: Bound, view: Commit, parents: seq<Commit>, views: seq<Composed>,
                 children: map<Name, Path>, name: Name, piece: Piece)
    requires Subtree(view.tree, DEFINITIONS_DIR).Some? && name in children && children[name] != []
    requires SplitChild(world, bound, view, ROOT, view.tree, children, name, parents) == Ok(piece)
    requires !piece.Absent? && world.held(piece.pin) && |views| == |parents|
    requires forall i | 0 <= i < |views| :: views[i].expanded == Here(world, Pins(parents[i].tree)).Keys
    ensures PinKept(name, piece.pin, parents, views) <==> !piece.New?
    ensures piece.New? ==> piece.pin.author == view.author && piece.pin.committer == view.committer
                           && piece.pin.message == view.message
  {
    PieceIs(world, bound, view, ROOT, view.tree, children, name, parents, piece);
    if piece.New? {
      NewPinMoved(piece.pin, name, parents, views);
    } else {
      OldPinKept(world, piece.pin, name, parents, views);
    }
  }

  lemma NewPinHeld(world: World, bound: Bound, view: Commit, tracker: Name, tree: Tree, children: map<Name, Path>,
                   pieces: map<Name, Piece>, parents: seq<Commit>, part: Part, name: Name)
    requires SplitInto(world, bound, view, tracker, tree, children, pieces, parents, part)
    requires MadeHeld(world, part.made) && name in children && pieces[name].New?
    ensures name in part.pins && part.pins[name] == pieces[name].pin && world.held(pieces[name].pin)
  {
    assert world.held(Made(ChildId(tracker, name), pieces[name].pin).commit);
  }

  lemma MadeMoved(world: World, bound: Bound, view: Commit, parents: seq<Commit>, part: Part, views: seq<Composed>)
    returns (made: set<Name>)
    requires SplitPart(world, bound, view, ROOT, view.tree, parents) == Ok(part) && MadeHeld(world, part.made)
    requires |views| == |parents|
    requires forall i | 0 <= i < |views| :: views[i].expanded == Here(world, Pins(parents[i].tree)).Keys
    ensures MadeAreMoved(view, Here(world, part.pins), parents, views, made)
    ensures made <= Here(world, part.pins).Keys && (made == {} <==> part.made == [])
  {
    var children, pieces := SplitLevel(world, bound, view, ROOT, view.tree, parents, part);
    made := MovedAmong(world, bound, view, parents, part, views, children, pieces);
  }

  lemma MovedAmong(world: World, bound: Bound, view: Commit, parents: seq<Commit>, part: Part, views: seq<Composed>,
                   children: map<Name, Path>, pieces: map<Name, Piece>)
    returns (made: set<Name>)
    requires SplitInto(world, bound, view, ROOT, view.tree, children, pieces, parents, part)
    requires MadeHeld(world, part.made) && |views| == |parents|
    requires forall i | 0 <= i < |views| :: views[i].expanded == Here(world, Pins(parents[i].tree)).Keys
    ensures MadeAreMoved(view, Here(world, part.pins), parents, views, made)
    ensures made <= Here(world, part.pins).Keys && (made == {} <==> part.made == [])
  {
    var here := Here(world, part.pins);
    made := set name | name in here && pieces[name].New?;
    forall name | name in here
      ensures PinKept(name, here[name], parents, views) <==> name !in made
      ensures name in made ==> here[name].author == view.author && here[name].committer == view.committer
                               && here[name].message == view.message
    {
      PinMoved(world, bound, view, parents, views, children, name, pieces[name]);
    }
    if part.made != [] {
      var name :| name in children && pieces[name].New?;
      NewPinHeld(world, bound, view, ROOT, view.tree, children, pieces, parents, part, name);
      assert name in made;
    }
  }

  lemma WorkHolderIs(view: Commit, order: seq<Name>, pins: map<Name, Commit>, here: map<Name, Commit>,
                     parents: seq<Commit>, views: seq<Composed>, made: set<Name>)
    requires |parents| == |views| && MadeAreMoved(view, here, parents, views, made) && made <= here.Keys
    requires (forall name | name in here :: name in pins && pins[name] == here[name])
    requires forall name :: name in order <==> name in here
    ensures var holder := WorkHolder(order, pins, parents, views);
            if made == {} then holder.None?
            else holder.Some? && holder.value.author == view.author && holder.value.committer == view.committer
                 && holder.value.message == view.message
  {
    var holder := WorkHolder(order, pins, parents, views);
    if made != {} {
      var name :| name in made;
      assert name in order && !PinKept(name, pins[name], parents, views);
    }
    if holder.Some? {
      var name :| name in order && holder.value == pins[name] && !PinKept(name, pins[name], parents, views);
      assert name in made;
    }
  }

  /** `commit` is made from `part`, and expands the pins that are here, as its parents' views do. */
  ghost predicate RootOf(world: World, view: Commit, parents: seq<Commit>, part: Part, commit: Commit,
                         mounts: map<Name, Path>, views: seq<Composed>)
  {
    && commit == RootCommit(world, view, part, parents)
    && Pins(commit.tree) == part.pins && Own(commit.tree) == part.own
    && mounts.Keys == Here(world, part.pins).Keys && |views| == |parents|
    && forall i | 0 <= i < |views| :: views[i].expanded == Here(world, Pins(parents[i].tree)).Keys
  }

  /** Compose looks for the message where split put it: on the root commit, or on a child made here. */
  lemma HolderIs(world: World, bound: Bound, view: Commit, parents: seq<Commit>, part: Part, commit: Commit,
                 mounts: map<Name, Path>, views: seq<Composed>)
    requires SplitPart(world, bound, view, ROOT, view.tree, parents) == Ok(part) && MadeHeld(world, part.made)
    requires RootOf(world, view, parents, part, commit, mounts, views)
    requires Messages.ParseSplit(commit.message).Some?
    ensures var holder := HolderOf(commit, mounts, views);
            if CarriesMessage(part, parents) then holder.None?
            else holder.Some? && holder.value.author == view.author && holder.value.committer == view.committer
                 && holder.value.message == view.message
  {
    var made := MadeMoved(world, bound, view, parents, part, views);
    WorkHolderIs(view, ByDepth(mounts), part.pins, Here(world, part.pins), parents, views, made);
    assert OwnUnchanged(commit) <==> !(if parents == [] then part.own != EMPTY else Own(parents[0].tree) != part.own);
  }

  /**
   Whether the view commit can come back byte for byte: its headers are as Git
   stores them, and a message its children carry is no split commit's.
   */
  ghost predicate ComesBack(view: Commit, part: Part, parents: seq<Commit>) {
    && Messages.WellFormed(view.headers)
    && (CarriesMessage(part, parents) || Messages.ParseSplit(view.message).None?)
  }

  /** The metadata compose reads off a root commit. */
  lemma MetadataIs(world: World, bound: Bound, view: Commit, parents: seq<Commit>, part: Part, commit: Commit,
                   mounts: map<Name, Path>, views: seq<Composed>)
    requires Ids(world)
    requires SplitPart(world, bound, view, ROOT, view.tree, parents) == Ok(part) && MadeHeld(world, part.made)
    requires RootOf(world, view, parents, part, commit, mounts, views)
    ensures var data := MetadataOf(world, commit, HolderOf(commit, mounts, views));
            && data.author == view.author && data.committer == view.committer && data.expected == world.id(view)
            && (data.message == view.message <==>
                  CarriesMessage(part, parents) || Messages.ParseSplit(view.message).None?)
            && data.headers == Text.Ended(Messages.Kept(Text.Lines(view.headers)))
  {
    var message := if CarriesMessage(part, parents) then view.message else UpdateMessage(part.made);
    Messages.ParseSplitUndoes(message, world.id(view), view.headers);
    HolderIs(world, bound, view, parents, part, commit, mounts, views);
    if !CarriesMessage(part, parents) && Messages.ParseSplit(view.message).Some? {
      Messages.ParsedIsShorter(view.message);
    }
  }

  lemma MadeViewIs(world: World, view: Commit, tree: Tree, data: Metadata)
    requires data.author == view.author && data.committer == view.committer && data.expected == world.id(view)
    requires data.headers == Text.Ended(Messages.Kept(Text.Lines(view.headers)))
    ensures MadeView(world, tree, view.parents, data) == view
            <==> tree == view.tree && Messages.WellFormed(view.headers) && data.message == view.message
  {
    if !Messages.WellFormed(view.headers) {
      var unsigned := Messages.UnsignedLines(Messages.Kept(Text.Lines(data.headers)), true);
      Messages.UnsignedAreLines(Messages.Kept(Text.Lines(data.headers)), true);
      Messages.WellFormedHeaders(Text.Ended(unsigned));
    }
  }

  lemma RootsStand(world: World, view: Commit, roots: seq<Commit>)
    requires |roots| == |view.parents| && Distinct(view.parents)
    requires forall i | 0 <= i < |roots| :: Stands(world, view.parents[i], roots[i])
    ensures Dedup(roots) == roots && Dedup(Views(ParentViews(world, view, roots))) == view.parents
    ensures forall i | 0 <= i < |roots| ::
              View(world, EVERYONE, ROOT, roots[i]) == Ok(ParentViews(world, view, roots)[i])
  {
    var views := ParentViews(world, view, roots);
    assert Views(views) == view.parents;
    forall i, j | 0 <= i < j < |roots| ensures roots[i] != roots[j] {
      assert Stands(world, view.parents[i], roots[i]) && Stands(world, view.parents[j], roots[j]);
    }
  }

  /** A commit is none of its parents. */
  lemma KeptIsOther(world: World, view: Commit, roots: seq<Commit>, at: nat)
    requires |roots| == |view.parents| && at < |roots|
    ensures ParentViews(world, view, roots)[at].view != view
  {
    assert view.parents[at] < view;
  }

  /** A root commit not passed over composes to `view` if its tree does and its metadata comes back. */
  lemma MadeIs(world: World, bound: Bound, view: Commit, roots: seq<Commit>, part: Part, commit: Commit, tree: Tree,
               mounts: map<Name, Path>, views: seq<Composed>)
    requires Ids(world)
    requires SplitPart(world, bound, view, ROOT, view.tree, roots) == Ok(part) && MadeHeld(world, part.made)
    requires RootOf(world, view, roots, part, commit, mounts, views) && Dedup(Views(views)) == view.parents
    ensures var data := MetadataOf(world, commit, HolderOf(commit, mounts, views));
            MadeView(world, tree, Dedup(Views(views)), data) == view <==>
              tree == view.tree && ComesBack(view, part, roots)
  {
    MetadataIs(world, bound, view, roots, part, commit, mounts, views);
    MadeViewIs(world, view, tree, MetadataOf(world, commit, HolderOf(commit, mounts, views)));
  }

  /** A commit is decided to be `view` if its tree and metadata make it up and it is not passed over. */
  lemma MadeOrPassed(world: World, view: Commit, commit: Commit, tree: Tree, mounts: map<Name, Path>,
                     views: seq<Composed>)
    requires |views| == |commit.parents| && mounts.Keys <= Pins(commit.tree).Keys
    requires forall i | 0 <= i < |views| :: views[i].view != view
    ensures var data := MetadataOf(world, commit, HolderOf(commit, mounts, views));
            Decided(world, commit, mounts, tree, views) == Composed(view, mounts.Keys)
            <==> (MadeView(world, tree, Dedup(Views(views)), data) == view
                  && !PassedFor(commit, mounts, view.tree, views))
  {
    var data := MetadataOf(world, commit, HolderOf(commit, mounts, views));
    var made := MadeView(world, tree, Dedup(Views(views)), data);
    assert made.tree == tree;
  }

  /** What composing a root commit made from `view` comes to. */
  lemma RootComposes(world: World, bound: Bound, view: Commit, roots: seq<Commit>, part: Part, commit: Commit,
                     views: seq<Composed>)
    requires Ids(world) && Splittable(world, ROOT, view.tree, roots)
    requires SplitPart(world, bound, view, ROOT, view.tree, roots) == Ok(part) && MadeHeld(world, part.made)
    requires |roots| == |view.parents| && commit == RootCommit(world, view, part, roots)
    requires views == ParentViews(world, view, roots) && Dedup(Views(views)) == view.parents
    ensures ComposeOne(world, EVERYONE, ROOT, commit, views) == Ok(Composed(view, Here(world, Pins(commit.tree)).Keys))
            <==> ComesBack(view, part, roots) && NothingLost(world, bound, ROOT, view.tree, roots)
                 && !PassedOver(world, view, part, roots)
  {
    PartComposes(world, bound, view, ROOT, view.tree, roots, part, commit);
    EveryoneGetsAll(world, ROOT, part.pins);
    if TreeFor(world, EVERYONE, ROOT, commit).Ok? {
      var mounts, tree := Mounts(world, EVERYONE, ROOT, commit).value, TreeFor(world, EVERYONE, ROOT, commit).value;
      MadeIs(world, bound, view, roots, part, commit, tree, mounts, views);
      forall i: nat | i < |views| ensures views[i].view != view { KeptIsOther(world, view, roots, i); }
      MadeOrPassed(world, view, commit, tree, mounts, views);
    }
  }

  /**
   Split a view commit and compose what it became, with everything readable and in
   any store: the result is the same commit if and only if its metadata can
   come back, no file was lost with a child that is not here, and compose does
   not pass the commit over.
   */
  lemma ViewComesBack(world: World, bound: Bound, view: Commit, roots: seq<Commit>, part: Part)
    requires Ids(world) && Splittable(world, ROOT, view.tree, roots)
    requires SplitPart(world, bound, view, ROOT, view.tree, roots) == Ok(part) && MadeHeld(world, part.made)
    requires |roots| == |view.parents| && Distinct(view.parents)
    requires forall i | 0 <= i < |roots| :: Stands(world, view.parents[i], roots[i])
    ensures var commit := RootCommit(world, view, part, roots);
            && SplitView(world, bound, view, roots) == Ok(commit)
            && (Stands(world, view, commit) <==>
                  ComesBack(view, part, roots) && NothingLost(world, bound, ROOT, view.tree, roots)
                  && !PassedOver(world, view, part, roots))
  {
    var commit, views := RootCommit(world, view, part, roots), ParentViews(world, view, roots);
    RootsStand(world, view, roots);
    RootComposes(world, bound, view, roots, part, commit, views);
    ViewGiven(world, EVERYONE, ROOT, commit, views);
  }

  // ---- which commits are passed over ------------------------------------------------------

  /** A pin reused from one parent is that parent's. */
  lemma PinFromOne(world: World, bound: Bound, view: Commit, roots: seq<Commit>, children: map<Name, Path>, name: Name,
                   piece: Piece)
    requires |roots| == 1 && Subtree(view.tree, DEFINITIONS_DIR).Some? && name in children && children[name] != []
    requires SplitChild(world, bound, view, ROOT, view.tree, children, name, roots) == Ok(piece) && piece.Reused?
    ensures name in Pins(roots[0].tree) && Pins(roots[0].tree)[name] == piece.pin
  {
    PieceIs(world, bound, view, ROOT, view.tree, children, name, roots, piece);
  }

  /** With one parent a root commit is passed over only for pins it lost: of children not here, defined no longer. */
  lemma PassedOverLosesPins(world: World, bound: Bound, view: Commit, part: Part, roots: seq<Commit>,
                            mounts: map<Name, Path>)
    requires |roots| == |view.parents| == 1 && PassedOver(world, view, part, roots)
    requires SplitPart(world, bound, view, ROOT, view.tree, roots) == Ok(part) && MadeHeld(world, part.made)
    requires Pins(RootCommit(world, view, part, roots).tree) == part.pins
    requires Mounts(world, EVERYONE, ROOT, RootCommit(world, view, part, roots)) == Ok(mounts)
    ensures forall name | name in part.pins ::
              name in Pins(roots[0].tree) && Pins(roots[0].tree)[name] == part.pins[name]
    ensures exists name :: name in Pins(roots[0].tree) && name !in part.pins && !world.held(Pins(roots[0].tree)[name])
  {
    var children, pieces := SplitLevel(world, bound, view, ROOT, view.tree, roots, part);
    EveryoneGetsAll(world, ROOT, part.pins);
    MovedAreLost(world, bound, view, part, roots, children, pieces, mounts);
  }

  lemma MovedAreLost(world: World, bound: Bound, view: Commit, part: Part, roots: seq<Commit>,
                     children: map<Name, Path>, pieces: map<Name, Piece>, mounts: map<Name, Path>)
    requires |roots| == 1 && SplitInto(world, bound, view, ROOT, view.tree, children, pieces, roots, part)
    requires MadeHeld(world, part.made) && mounts.Keys == Here(world, part.pins).Keys
    requires var moved := Moved(part.pins, Pins(roots[0].tree));
             moved != {} && forall name | name in moved :: name !in mounts && name !in Here(world, Pins(roots[0].tree))
    ensures forall name | name in part.pins ::
              name in Pins(roots[0].tree) && Pins(roots[0].tree)[name] == part.pins[name]
    ensures exists name :: name in Pins(roots[0].tree) && name !in part.pins && !world.held(Pins(roots[0].tree)[name])
  {
    var pins := Pins(roots[0].tree);
    var moved := Moved(part.pins, pins);
    forall name | name in part.pins ensures name in pins && pins[name] == part.pins[name] {
      if pieces[name].New? {
        NewPinHeld(world, bound, view, ROOT, view.tree, children, pieces, roots, part, name);
        assert name !in moved;
      } else {
        PinFromOne(world, bound, view, roots, children, name, pieces[name]);
      }
    }
    LostPin(world, part.pins, pins);
  }

  lemma LostPin(world: World, left: map<Name, Commit>, right: map<Name, Commit>)
    requires Moved(left, right) != {} && forall name | name in left :: name in right && left[name] == right[name]
    requires forall name | name in Moved(left, right) :: name !in Here(world, right)
    ensures exists name :: name in right && name !in left && !world.held(right[name])
  {
    var name :| name in Moved(left, right);
    assert name in right && name !in left && !world.held(right[name]);
  }

  /** No merge behind `commit` joins pins of a child that is not here. */
  ghost predicate JoinsOnlyHere(world: World, commit: Commit)
    decreases commit
  {
    && (forall i | 0 <= i < |commit.parents| :: JoinsOnlyHere(world, commit.parents[i]))
    && (|commit.parents| > 1 ==>
          !JoinsWithheld(Pins(commit.tree), Mounts(world, EVERYONE, ROOT, commit).Or(map[]), commit.parents))
  }

  lemma ExpandedHere(world: World, commit: Commit, views: seq<Composed>)
    requires |views| == |commit.parents| && ComposeOne(world, EVERYONE, ROOT, commit, views).Ok?
    requires |views| > 1 ==>
               !JoinsWithheld(Pins(commit.tree), Mounts(world, EVERYONE, ROOT, commit).Or(map[]), commit.parents)
    requires forall i | 0 <= i < |views| :: views[i].expanded == Here(world, Pins(commit.parents[i].tree)).Keys
    ensures ComposeOne(world, EVERYONE, ROOT, commit, views).value.expanded == Here(world, Pins(commit.tree)).Keys
  {
    var mounts := Mounts(world, EVERYONE, ROOT, commit).value;
    EveryoneGetsAll(world, ROOT, Pins(commit.tree));
    if |views| == 1 && OnlyWithheldMoved(commit, mounts, commit.parents[0], views[0].expanded) {
      var left, right := Pins(commit.tree), Pins(commit.parents[0].tree);
      forall name ensures name in Here(world, left) <==> name in Here(world, right) {
        assert name in Moved(left, right) ==> name !in mounts && name !in views[0].expanded;
      }
      assert Here(world, left).Keys == Here(world, right).Keys;
    }
  }

  /** A reader of everything expands every pin that is here, so what such a root composes to it stands for. */
  lemma {:induction false} EverythingExpanded(world: World, commit: Commit)
    requires View(world, EVERYONE, ROOT, commit).Ok? && JoinsOnlyHere(world, commit)
    ensures View(world, EVERYONE, ROOT, commit).value.expanded == Here(world, Pins(commit.tree)).Keys
    ensures Stands(world, View(world, EVERYONE, ROOT, commit).value.view, commit)
    decreases commit
  {
    var views := ViewsOfParents(world, EVERYONE, ROOT, commit);
    forall i | 0 <= i < |views| ensures views[i].expanded == Here(world, Pins(commit.parents[i].tree)).Keys {
      EverythingExpanded(world, commit.parents[i]);
    }
    ExpandedHere(world, commit, views);
  }

  /** Where every commit is in the store, only the metadata decides. */
  lemma WholeComesBack(world: World, bound: Bound, view: Commit, roots: seq<Commit>, part: Part)
    requires forall commit :: world.held(commit)
    requires Ids(world) && Splittable(world, ROOT, view.tree, roots)
    requires SplitPart(world, bound, view, ROOT, view.tree, roots) == Ok(part)
    requires |roots| == |view.parents| && Distinct(view.parents)
    requires forall i | 0 <= i < |roots| :: Stands(world, view.parents[i], roots[i])
    ensures Stands(world, view, RootCommit(world, view, part, roots)) <==> ComesBack(view, part, roots)
  {
    var commit := RootCommit(world, view, part, roots);
    PartComposes(world, bound, view, ROOT, view.tree, roots, part, commit);
    WholeLosesNothing(world, bound, ROOT, view.tree, roots);
    EveryoneGetsAll(world, ROOT, part.pins);
    NotPassedOver(world, view, part, roots);
    ViewComesBack(world, bound, view, roots, part);
  }

  lemma NotPassedOver(world: World, view: Commit, part: Part, roots: seq<Commit>)
    requires (forall commit :: world.held(commit)) && |roots| == |view.parents|
    requires Mounts(world, EVERYONE, ROOT, RootCommit(world, view, part, roots)).Ok?
    ensures !PassedOver(world, view, part, roots)
  {
    var commit, views := RootCommit(world, view, part, roots), ParentViews(world, view, roots);
    EveryoneGetsAll(world, ROOT, Pins(commit.tree));
    if |roots| == 1 {
      var moved := Moved(Pins(commit.tree), Pins(roots[0].tree));
      if moved != {} {
        var name :| name in moved;
        assert name in Pins(commit.tree) || name in views[0].expanded;
      }
    }
  }

  // ---- a whole history comes back -----------------------------------------------------

  /**
   A view history whose every commit that is split here meets the conditions, and
   whose every commit known already has a root commit that stands for it.
   */
  ghost predicate GoodHistory(world: World, bound: Bound, known: map<Commit, Commit>, view: Commit)
    decreases view
  {
    if view in known then Stands(world, view, known[view])
    else
      && (forall i | 0 <= i < |view.parents| :: GoodHistory(world, bound, known, view.parents[i]))
      && Distinct(view.parents)
      && var roots := ParentRoots(world, bound, known, view);
         roots.Ok? ==>
           && Splittable(world, ROOT, view.tree, roots.value)
           && var part := SplitPart(world, bound, view, ROOT, view.tree, roots.value);
              part.Ok? ==>
                && MadeHeld(world, part.value.made)
                && ComesBack(view, part.value, roots.value)
                && NothingLost(world, bound, ROOT, view.tree, roots.value)
                && !PassedOver(world, view, part.value, roots.value)
  }

  lemma ParentRootsAre(world: World, bound: Bound, known: map<Commit, Commit>, view: Commit, roots: seq<Commit>)
    requires ParentRoots(world, bound, known, view) == Ok(roots)
    ensures |roots| == |view.parents|
    ensures forall i | 0 <= i < |roots| :: SplitHistory(world, bound, known, view.parents[i]) == Ok(roots[i])
  {
    var all := seq(|view.parents|,
                   i requires 0 <= i < |view.parents| => SplitHistory(world, bound, known, view.parents[i]));
    assert forall i | 0 <= i < |all| :: all[i].Ok?;
  }

  /**
   Splitting a view history and composing the root commits it became, for a
   reader of everything, gives back the view commit, and with it every commit
   behind it: same trees, parents, authors, committers, headers and messages.
   */
  lemma {:induction false} SplitThenCompose(world: World, bound: Bound, known: map<Commit, Commit>, view: Commit,
                                            root: Commit)
    requires Ids(world) && GoodHistory(world, bound, known, view)
    requires SplitHistory(world, bound, known, view) == Ok(root)
    ensures Stands(world, view, root)
    decreases view
  {
    if view !in known {
      var roots := ParentRoots(world, bound, known, view).value;
      ParentRootsAre(world, bound, known, view, roots);
      forall i | 0 <= i < |roots| ensures Stands(world, view.parents[i], roots[i]) {
        SplitThenCompose(world, bound, known, view.parents[i], roots[i]);
      }
      RootsStand(world, view, roots);
      var part := SplitPart(world, bound, view, ROOT, view.tree, roots).value;
      ViewComesBack(world, bound, view, roots, part);
    }
  }

  /** So no two view commits of such a history share a root commit. */
  lemma OneRootEach(world: World, bound: Bound, known: map<Commit, Commit>, a: Commit, b: Commit)
    requires Ids(world) && GoodHistory(world, bound, known, a) && GoodHistory(world, bound, known, b)
    requires SplitHistory(world, bound, known, a).Ok?
    requires SplitHistory(world, bound, known, a) == SplitHistory(world, bound, known, b)
    ensures a == b
  {
    var root := SplitHistory(world, bound, known, a).value;
    SplitThenCompose(world, bound, known, a, root);
    SplitThenCompose(world, bound, known, b, root);
  }
}
