/** Which children a tracker has. */
module Children {
  // What a tracker's definition files say its children are, and how children are
  // told apart by their ids.

  import opened Wrappers
  import opened Names
  import opened Objects
  import opened Order
  import opened Compose
  import opened Split

  // ---- ids ---------------------------------------------------------------------

  lemma {:induction false} LeafFrom(parent: Name, name: Name, from: nat)
    requires FitsId(name) && |parent| < from <= |parent + "__" + name|
    ensures LeafBelow(parent + "__" + name, from) == name
    decreases from
  {
    var id := parent + "__" + name;
    if from == |parent| + 1 {
      assert id[|parent|] == '_' && id[|parent| + 1] == '_';
      assert id[|parent| + 2..] == name;
    } else {
      LeafFrom(parent, name, from - 1);
    }
  }

  lemma {:induction false} NoLeaf(name: Name, from: nat)
    requires FitsId(name) && from <= |name|
    ensures LeafBelow(name, from) == name
    decreases from
  {
    if from > 0 {
      NoLeaf(name, from - 1);
    }
  }

  /** A child's id ends in its name, whatever its parent's id is. */
  lemma LeafOfChild(parent: Name, name: Name)
    requires FitsId(name)
    ensures LeafName(ChildId(parent, name)) == name
  {
    if parent == ROOT { NoLeaf(name, |name|); } else { LeafFrom(parent, name, |ChildId(parent, name)|); }
  }

  lemma JoinSeparates(parent: Name, name: Name)
    ensures HasSeparator(parent + "__" + name)
  {
    var id := parent + "__" + name;
    assert id[|parent|] == '_' && id[|parent| + 1] == '_';
  }

  /** No two children, of whichever trackers, have one id. */
  lemma IdsTellApart(parent: Name, name: Name, other: Name, further: Name)
    requires FitsId(name) && FitsId(further) && ChildId(parent, name) == ChildId(other, further)
    ensures parent == other && name == further
  {
    LeafOfChild(parent, name);
    LeafOfChild(other, further);
    JoinSeparates(parent, name);
    JoinSeparates(other, further);
    if parent != ROOT && other != ROOT {
      var id := ChildId(parent, name);
      assert parent == id[..|id| - |name| - 2] && other == id[..|id| - |further| - 2];
    }
  }

  /** Children are taken out deepest mount first, and of those as deep by name. */
  lemma DeeperFirst(children: map<Name, Path>, i: nat, j: nat)
    requires i < j < |DeepestFirst(children)|
    ensures var one, other := DeepestFirst(children)[i], DeepestFirst(children)[j];
            && one in children && other in children
            && (|children[one]| > |children[other]|
                || (|children[one]| == |children[other]| && one != other && AtMost(one, other)))
  {
    var order, key := DeepestFirst(children), DeepestKey(children);
    assert order[i] in order && order[j] in order;
    assert KeyAtMost(key(order[i]), key(order[j]));
  }

  // ---- definitions ----------------------------------------------------------------

  /** A definition file under `DEFINITIONS_DIR` that reads as `definition`. */
  ghost predicate Defines(world: World, tree: Tree, name: Name, definition: Definition) {
    var file := EntryAt(tree, DEFINITIONS_DIR + [name + TOML]);
    file.Some? && file.value.Blob? && world.toml(file.value.data) == Some(definition)
  }

  lemma FileIn(tree: Tree, file: Name)
    ensures var found := Subtree(tree, DEFINITIONS_DIR);
            EntryAt(tree, DEFINITIONS_DIR + [file])
            == if found.Some? && file in found.value.entries then Some(found.value.entries[file]) else None
  {
    if Subtree(tree, DEFINITIONS_DIR).Some? {
      SubtreeFiles(tree, DEFINITIONS_DIR, [file]);
    } else {
      assert (DEFINITIONS_DIR + [file])[1..] == ["trackers", file] && DEFINITIONS_DIR[1..] == ["trackers"];
      if ".newgit" in tree.entries && tree.entries[".newgit"].Sub? {
        NothingInside(tree.entries[".newgit"].tree, "trackers", file);
      }
    }
  }

  lemma NothingInside(tree: Tree, directory: Name, file: Name)
    requires Subtree(tree, [directory]).None?
    ensures EntryAt(tree, [directory, file]) == None
  {
  }

  lemma ReadMeans(world: World, directory: Tree, names: set<Name>, nested: bool, name: Name, definition: Definition)
    requires forall other | other in names :: other + TOML in directory.entries
    requires ReadDefinitions(world, directory, names, nested).Ok?
    ensures var read := ReadDefinitions(world, directory, names, nested).value;
            name in read && read[name] == definition <==>
              && name in names && directory.entries[name + TOML].Blob?
              && world.toml(directory.entries[name + TOML].data) == Some(definition) && definition.valid
              && (nested ==> definition.git && definition.mount != [])
  {
  }

  /** Whether a tracker's own definitions count: below root, not where it has a project of its own. */
  ghost predicate Counts(tree: Tree, tracker: Name) { tracker == ROOT || EntryAt(tree, CONFIG).None? }

  lemma DefinitionMeans(world: World, tree: Tree, tracker: Name, name: Name, definition: Definition)
    requires DefinitionsIn(world, tree, tracker).Ok?
    ensures var read := DefinitionsIn(world, tree, tracker).value;
            name in read && read[name] == definition <==> MakesDefinition(world, tree, tracker, name, definition)
  {
    FileIn(tree, name + TOML);
    var found := Subtree(tree, DEFINITIONS_DIR);
    if found.Some? && Counts(tree, tracker) {
      var names := DefinedNames(found.value);
      forall other
        ensures other in names <==>
                  other + TOML in found.value.entries && !found.value.entries[other + TOML].Sub? && FitsId(other)
      {
        DefinedNamesAre(found.value, other);
      }
      ReadMeans(world, found.value, names, tracker != ROOT, name, definition);
    }
  }

  /** `definition` makes `name` a child: in Git, mounted by itself on a directory it claims all of. */
  ghost predicate MakesChild(tracker: Name, name: Name, definition: Definition) {
    && FitsId(name) && name != LeafName(tracker)
    && definition.valid && definition.git && definition.mount != []
    && definition.paths == [definition.mount] && definition.exclusions == []
  }

  /** A file that is read as a definition, of a child or not. */
  ghost predicate MakesDefinition(world: World, tree: Tree, tracker: Name, name: Name, definition: Definition) {
    && Counts(tree, tracker) && FitsId(name) && Defines(world, tree, name, definition) && definition.valid
    && (tracker == ROOT || (definition.git && definition.mount != []))
  }

  /**
   A tracker's children are those its definition files make: every such file makes
   one, and there is none without. No other definition has a child's mount.
   */
  lemma ChildrenAre(world: World, tree: Tree, tracker: Name, children: map<Name, Path>, name: Name)
    requires ChildrenIn(world, tree, tracker) == Ok(children)
    ensures name in children <==>
              && Counts(tree, tracker)
              && exists definition :: Defines(world, tree, name, definition) && MakesChild(tracker, name, definition)
    ensures forall definition | name in children && Defines(world, tree, name, definition) ::
              children[name] == definition.mount
    ensures forall other, further | name in children && other != name && other != LeafName(tracker)
                                    && MakesDefinition(world, tree, tracker, other, further) ::
              children[name] != further.mount
  {
    var read := DefinitionsIn(world, tree, tracker).value;
    if name in children {
      DefinitionMeans(world, tree, tracker, name, read[name]);
      assert OwnsWholeMount(read, tracker, name);
      assert MakesChild(tracker, name, read[name]);
    }
    forall other, further | name in children && MakesDefinition(world, tree, tracker, other, further)
      ensures other in read && read[other] == further
    {
      DefinitionMeans(world, tree, tracker, other, further);
    }
    forall definition | Defines(world, tree, name, definition) && MakesChild(tracker, name, definition)
      ensures Counts(tree, tracker) ==> name in children
    {
      DefinitionMeans(world, tree, tracker, name, definition);
    }
  }
}
