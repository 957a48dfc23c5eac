/**
 From view commits to root commits: a tree is cut at its mounts, and each piece
 is either a pin that was there or a commit to make.

 These functions say what the split is, for trackers whose children own their
 whole mounts. `Splitter` computes it with the loops the repository uses.
 */
module Split {
  import opened Wrappers
  import opened Names
  import opened Objects
  import opened Order
  import opened Compose
  import Messages

  // ---- names ------------------------------------------------------------------

  /** What follows the last `__` at or below `from`. */
  function LeafBelow(id: Name, from: nat): Name
    requires from <= |id|
  {
    if from == 0 then id
    else if from + 1 <= |id| && id[from - 1] == '_' && id[from] == '_' then id[from + 1..]
    else LeafBelow(id, from - 1)
  }

  /** The last part of `id`, behind its last `__`. */
  function LeafName(id: Name): Name { LeafBelow(id, |id|) }

  predicate HasSeparator(name: Name) {
    exists i | 0 <= i < |name| - 1 :: name[i] == '_' && name[i + 1] == '_'
  }

  /** Free of `__`, and of a `_` at either end that would run into one. */
  predicate FitsId(name: Name) {
    !HasSeparator(name) && (name != "" ==> name[0] != '_' && name[|name| - 1] != '_')
  }

  // ---- definitions --------------------------------------------------------------

  const CONFIG: Path := [".newgit", "config.toml"]

  predicate IsToml(file: Name) { |file| >= |TOML| && file[|file| - |TOML|..] == TOML }

  function Stem(file: Name): Name
    requires IsToml(file)
  {
    file[..|file| - |TOML|]
  }

  lemma StemIs(file: Name, name: Name)
    ensures IsToml(name + TOML) && Stem(name + TOML) == name
    ensures IsToml(file) ==> Stem(file) + TOML == file
  {
    assert (name + TOML)[|name|..] == TOML;
  }

  /** The trackers a definitions directory names. */
  function DefinedNames(directory: Tree): set<Name> {
    set file | file in directory.entries && IsToml(file) && !directory.entries[file].Sub? && FitsId(Stem(file)) ::
      Stem(file)
  }

  lemma DefinedNamesAre(directory: Tree, name: Name)
    ensures name in DefinedNames(directory) <==>
              name + TOML in directory.entries && !directory.entries[name + TOML].Sub? && FitsId(name)
  {
    StemIs(name, name);
    if name in DefinedNames(directory) {
      var file :| file in directory.entries && IsToml(file) && !directory.entries[file].Sub? && FitsId(Stem(file))
          && name == Stem(file);
      StemIs(file, name);
    }
  }

  /** The definition in `file`, if it is valid; an error if it is no blob. */
  function ReadDefinition(world: World, entry: Entry): Result<Option<Definition>> {
    if !entry.Blob? then Err
    else
      var definition := world.toml(entry.data);
      Ok(if definition.Some? && definition.value.valid then definition else None)
  }

  /** The definitions of `names`; where `nested`, one that makes no child is passed over, else all must be valid. */
  function ReadDefinitions(world: World, directory: Tree, names: set<Name>, nested: bool): Result<map<Name, Definition>>
    requires forall name | name in names :: name + TOML in directory.entries
  {
    if exists name | name in names ::
         var read := ReadDefinition(world, directory.entries[name + TOML]);
         read.Err? || (!nested && read.value.None?)
    then Err
    else
      var all := map name | name in names && ReadDefinition(world, directory.entries[name + TOML]).value.Some?
                   :: ReadDefinition(world, directory.entries[name + TOML]).value.value;
      Ok(map name | name in all && (nested ==> all[name].git && all[name].mount != []) :: all[name])
  }

  /**
   One definition for each file under `DEFINITIONS_DIR`, by the name it is for.
   Where `owner` is not root, those that could not be a child's are left out.
   */
  function DefinitionsIn(world: World, tree: Tree, owner: Name): Result<map<Name, Definition>> {
    var found := Subtree(tree, DEFINITIONS_DIR);
    var nested := owner != ROOT;
    if found.None? || (nested && EntryAt(tree, CONFIG).Some?) then Ok(map[])
    else
      var names := DefinedNames(found.value);
      assert forall name | name in names :: name + TOML in found.value.entries by {
        forall name | name in names ensures name + TOML in found.value.entries { DefinedNamesAre(found.value, name); }
      }
      ReadDefinitions(world, found.value, names, nested)
  }

  /** The trackers in Git mounted in `tracker`. */
  function Children(definitions: map<Name, Definition>, tracker: Name): map<Name, Path> {
    map name | name in definitions && definitions[name].git && name != LeafName(tracker) :: definitions[name].mount
  }

  /** Whether `name` owns everything at and under its mount. */
  predicate OwnsWholeMount(definitions: map<Name, Definition>, tracker: Name, name: Name)
    requires name in definitions
  {
    var child := definitions[name];
    && child.mount != []
    && (forall other | other in definitions && other != name && other != LeafName(tracker) ::
          definitions[other].mount != child.mount)
    && child.exclusions == []
    && child.paths == [child.mount]
  }

  function DeepestKey(children: map<Name, Path>): string -> Key {
    name => Key(if name in children then -|children[name]| else 0, "", name)
  }

  /** Longer mounts first, so that a child is cut out before the one around it. */
  function DeepestFirst(children: map<Name, Path>): seq<Name> {
    SortedBy(children.Keys, DeepestKey(children))
  }

  // ---- parts ----------------------------------------------------------------------

  /** Whether `inner` is mounted strictly inside `outer`. */
  predicate Inside(inner: Path, outer: Path) { outer < inner }

  /** `part` without what the children mounted deeper inside `mount` own. */
  function Trimmed(part: Option<Tree>, mount: Path, children: map<Name, Path>, order: seq<Name>): Option<Tree>
    requires forall name | name in order :: name in children
    decreases |order|
  {
    if order == [] then part
    else
      var other := children[order[0]];
      var next :=
        if part.Some? && Inside(other, mount) then
          var trimmed := SetPath(part.value, other[|mount|..], None);
          if trimmed == EMPTY then None else Some(trimmed)
        else part;
      Trimmed(next, mount, children, order[1..])
  }

  /** The part of `tree` that child `name` owns. */
  function PartOf(tree: Tree, children: map<Name, Path>, name: Name): Option<Tree>
    requires name in children
  {
    Trimmed(Subtree(tree, children[name]), children[name], children, DeepestFirst(children))
  }

  /** `own` with every child's mount taken out. */
  function WithoutMounts(own: Tree, children: map<Name, Path>, order: seq<Name>): Tree
    requires forall name | name in order :: name in children && children[name] != []
    decreases |order|
  {
    if order == [] then own else WithoutMounts(SetPath(own, children[order[0]], None), children, order[1..])
  }

  lemma {:induction false} TrimmedHeight(part: Option<Tree>, mount: Path, children: map<Name, Path>, order: seq<Name>)
    requires forall name | name in order :: name in children
    ensures var trimmed := Trimmed(part, mount, children, order);
            trimmed.Some? ==> part.Some? && Height(trimmed.value) <= Height(part.value)
    decreases |order|
  {
    if order != [] {
      var other := children[order[0]];
      if part.Some? && Inside(other, mount) {
        RemovalHeight(part.value, other[|mount|..]);
        var trimmed := SetPath(part.value, other[|mount|..], None);
        TrimmedHeight(if trimmed == EMPTY then None else Some(trimmed), mount, children, order[1..]);
      } else {
        TrimmedHeight(part, mount, children, order[1..]);
      }
    }
  }

  lemma PartHeight(tree: Tree, children: map<Name, Path>, name: Name)
    requires name in children && children[name] != [] && Subtree(tree, DEFINITIONS_DIR).Some?
    ensures Height(PartOf(tree, children, name).Or(EMPTY)) < Height(tree)
  {
    SubtreeHeight(tree, DEFINITIONS_DIR);
    TrimmedHeight(Subtree(tree, children[name]), children[name], children, DeepestFirst(children));
    if Subtree(tree, children[name]).Some? { SubtreeHeight(tree, children[name]); }
    EmptyHeight();
  }

  lemma EmptyHeight()
    ensures Height(EMPTY) == 1
  {
  }

  // ---- pins -------------------------------------------------------------------------

  /** The pins `name` has in `parents`, each once. */
  function Before(parents: seq<Commit>, name: Name): (before: seq<Commit>)
    ensures forall pin :: pin in before <==>
              exists i :: 0 <= i < |parents| && name in Pins(parents[i].tree) && Pins(parents[i].tree)[name] == pin
    ensures Distinct(before)
  {
    if parents == [] then []
    else
      var last := Pins(parents[|parents| - 1].tree);
      var before := Before(parents[..|parents| - 1], name);
      assert forall i | 0 <= i < |parents| - 1 :: parents[..|parents| - 1][i] == parents[i];
      if name in last && last[name] !in before then before + [last[name]] else before
  }

  /** What Git says of `ancestor` being behind `descendant`: it cannot say without both commits. */
  function AskedBehind(world: World, ancestor: Commit, descendant: Commit): Result<bool> {
    if world.held(ancestor) && world.held(descendant) then Ok(IsAncestor(ancestor, descendant)) else Err
  }

  /** Whether `candidate` has each of `commits` from `at` behind it, as Git says until one is not. */
  function AllBehind(world: World, commits: seq<Commit>, candidate: Commit, at: nat): Result<bool>
    requires at <= |commits|
    decreases |commits| - at
  {
    if at == |commits| then Ok(true)
    else if commits[at] == candidate then AllBehind(world, commits, candidate, at + 1)
    else
      var behind :- AskedBehind(world, commits[at], candidate);
      if behind then AllBehind(world, commits, candidate, at + 1) else Ok(false)
  }

  /** The first of `commits`, from `from`, that has all the others behind it. */
  function Descendant(world: World, commits: seq<Commit>, from: nat): Result<Option<Commit>>
    requires from <= |commits|
    decreases |commits| - from
  {
    if from == |commits| then Ok(None)
    else
      var all :- AllBehind(world, commits, commits[from], 0);
      if all then Ok(Some(commits[from])) else Descendant(world, commits, from + 1)
  }

  predicate AllHeld(world: World, pins: seq<Commit>) {
    forall pin | pin in pins :: world.held(pin)
  }

  /** Whether every other of `commits` is behind `pin`. */
  predicate Leads(commits: seq<Commit>, pin: Commit) {
    forall other | other in commits :: other == pin || IsAncestor(other, pin)
  }

  /** The first pin whose view is `part` already and that every other is behind. */
  function Reusable(world: World, id: Name, before: seq<Commit>, part: Tree, from: nat): (found: Result<Option<Commit>>)
    requires from <= |before|
    ensures found.Ok? && found.value.Some? ==>
              found.value.value in before && TreeFor(world, EVERYONE, id, found.value.value) == Ok(part)
    decreases |before| - from
  {
    if from == |before| then Ok(None)
    else
      var seen :- TreeFor(world, EVERYONE, id, before[from]);
      if seen == part && Leads(before, before[from]) then Ok(Some(before[from]))
      else Reusable(world, id, before, part, from + 1)
  }

  function WithPinsFrom(tree: Tree, pins: map<Name, Commit>, order: seq<Name>): Tree
    requires forall name | name in order :: name in pins
    decreases |order|
  {
    if order == [] then tree
    else WithPinsFrom(SetPath(tree, PINS_DIR + [order[0]], Some(Link(pins[order[0]]))), pins, order[1..])
  }

  function WithPins(own: Tree, pins: map<Name, Commit>): Tree { WithPinsFrom(own, pins, ByName(pins.Keys)) }

  // ---- splitting ----------------------------------------------------------------------

  /** A tracker commit a split made. */
  datatype Made = Made(tracker: Name, commit: Commit)

  /** What becomes of one child: nothing pinned, a pin it had, or a commit made for it. */
  datatype Piece = Absent | Reused(pin: Commit) | New(pin: Commit, inside: seq<Made>)

  /** What one tracker gets out of a tree, and the commits that had to be made below it. */
  datatype Part = Part(own: Tree, pins: map<Name, Commit>, made: seq<Made>)

  /** The trackers a commit may be made in. */
  type Bound = Name -> bool

  datatype Choice = Nothing | Keep(pin: Commit) | Make

  /** What to do for child `id`, pinned at `before` so far, whose part is `part` now. */
  function Choose(world: World, bound: Bound, id: Name, before: seq<Commit>, part: Option<Tree>): Result<Choice> {
    if part.None? && before == [] then Ok(Nothing)
    else if !AllHeld(world, before) then
      // Not all of this child's history is here, so none of its work can be.
      var carried :- Descendant(world, before, 0);
      if carried.None? then Err else Ok(Keep(carried.value))
    else
      var reused :- Reusable(world, id, before, part.Or(EMPTY), 0);
      if reused.Some? then Ok(Keep(reused.value))
      else if bound(id) then Ok(Make)
      else Err
  }

  /**
   The children of `tracker` in its `tree`, by mount; an error unless each owns
   its whole mount.
   */
  function ChildrenIn(world: World, tree: Tree, tracker: Name): (children: Result<map<Name, Path>>)
    ensures children.Ok? ==>
              && (children.value != map[] ==> Subtree(tree, DEFINITIONS_DIR).Some?)
              && (forall name | name in children.value :: children.value[name] != [])
              && (forall a, b | a in children.value && b in children.value && a != b ::
                    children.value[a] != children.value[b])
  {
    var definitions :- DefinitionsIn(world, tree, tracker);
    var children := Children(definitions, tracker);
    if exists name | name in children :: !OwnsWholeMount(definitions, tracker, name) then Err else Ok(children)
  }

  /** What the pieces of the children in `order` come to, one after the other. */
  function Assembled(own: Tree, tracker: Name, order: seq<Name>, pieces: map<Name, Piece>): Part
    requires forall name | name in order :: name in pieces
  {
    if order == [] then Part(own, map[], [])
    else WithPiece(tracker, order[0], pieces[order[0]], Assembled(own, tracker, order[1..], pieces))
  }

  function WithPiece(tracker: Name, name: Name, piece: Piece, rest: Part): Part {
    match piece
    case Absent => rest
    case Reused(pin) => rest.(pins := rest.pins[name := pin])
    case New(pin, inside) =>
      rest.(pins := rest.pins[name := pin], made := inside + [Made(ChildId(tracker, name), pin)] + rest.made)
  }

  /** Every piece but an absent one is pinned. */
  lemma {:induction false} AssembledPins(own: Tree, tracker: Name, order: seq<Name>, pieces: map<Name, Piece>)
    requires Distinct(order) && forall name | name in order :: name in pieces
    ensures var part := Assembled(own, tracker, order, pieces);
            && part.own == own
            && (forall name :: name in part.pins <==> name in order && !pieces[name].Absent?)
            && (forall name | name in part.pins :: part.pins[name] == pieces[name].pin)
    decreases |order|
  {
    if order != [] {
      assert order == [order[0]] + order[1..];
      AssembledPins(own, tracker, order[1..], pieces);
    }
  }

  /** The commits made are those of the new pieces, and those made inside them. */
  lemma {:induction false} AssembledMade(own: Tree, tracker: Name, order: seq<Name>, pieces: map<Name, Piece>)
    requires forall name | name in order :: name in pieces
    ensures var made := Assembled(own, tracker, order, pieces).made;
            && (made == [] <==> forall name | name in order :: !pieces[name].New?)
            && (forall name | name in order && pieces[name].New? ::
                  Made(ChildId(tracker, name), pieces[name].pin) in made
                  && forall one | one in pieces[name].inside :: one in made)
    decreases |order|
  {
    if order != [] {
      assert order == [order[0]] + order[1..];
      AssembledMade(own, tracker, order[1..], pieces);
    }
  }

  /** Split `tracker`'s part `tree` of `view`, whose parents have `tracker` at `parents`. */
  function SplitPart(world: World, bound: Bound, view: Commit, tracker: Name, tree: Tree,
                     parents: seq<Commit>): Result<Part>
    decreases Height(tree), 2
  {
    var children :- ChildrenIn(world, tree, tracker);
    var pieces := Pieces(world, bound, view, tracker, tree, children, parents);
    if AllOk(pieces) then
      var order := DeepestFirst(children);
      Ok(Assembled(WithoutMounts(Own(tree), children, order), tracker, order, Values(pieces)))
    else Err
  }

  predicate AllOk(pieces: map<Name, Result<Piece>>) {
    forall name | name in pieces :: pieces[name].Ok?
  }

  function Values(pieces: map<Name, Result<Piece>>): map<Name, Piece>
    requires AllOk(pieces)
  {
    map name | name in pieces :: pieces[name].value
  }

  function Pieces(world: World, bound: Bound, view: Commit, tracker: Name, tree: Tree,
                  children: map<Name, Path>, parents: seq<Commit>): (pieces: map<Name, Result<Piece>>)
    requires children != map[] ==> Subtree(tree, DEFINITIONS_DIR).Some?
    requires forall name | name in children :: children[name] != []
    ensures pieces.Keys == children.Keys
    decreases Height(tree), 1
  {
    map name | name in children :: SplitChild(world, bound, view, tracker, tree, children, name, parents)
  }

  function SplitChild(world: World, bound: Bound, view: Commit, tracker: Name, tree: Tree,
                      children: map<Name, Path>, name: Name, parents: seq<Commit>): Result<Piece>
    requires Subtree(tree, DEFINITIONS_DIR).Some?
    requires name in children && children[name] != []
    decreases Height(tree), 0
  {
    var part := PartOf(tree, children, name);
    var id, before := ChildId(tracker, name), Before(parents, name);
    var choice := Choose(world, bound, id, before, part);
    if choice != Ok(Make) then Unmade(choice)
    else
      PartHeight(tree, children, name);
      MadeFor(view, before, SplitPart(world, bound, view, id, part.Or(EMPTY), before))
  }

  lemma PieceAt(world: World, bound: Bound, view: Commit, tracker: Name, tree: Tree, children: map<Name, Path>,
                name: Name, parents: seq<Commit>)
    requires Subtree(tree, DEFINITIONS_DIR).Some? && name in children
    requires forall other | other in children :: children[other] != []
    ensures Pieces(world, bound, view, tracker, tree, children, parents)[name]
            == SplitChild(world, bound, view, tracker, tree, children, name, parents)
  {
  }

  lemma ValuesAre(found: map<Name, Result<Piece>>, pieces: map<Name, Piece>)
    requires found.Keys == pieces.Keys && forall name | name in pieces :: found[name] == Ok(pieces[name])
    ensures AllOk(found) && Values(found) == pieces
  {
  }

  /** A split whose children's pieces are known is their assembly. */
  lemma PartGiven(world: World, bound: Bound, view: Commit, tracker: Name, tree: Tree, parents: seq<Commit>,
                  children: map<Name, Path>, pieces: map<Name, Piece>)
    requires ChildrenIn(world, tree, tracker) == Ok(children) && pieces.Keys == children.Keys
    requires forall name | name in children ::
               SplitChild(world, bound, view, tracker, tree, children, name, parents) == Ok(pieces[name])
    ensures SplitPart(world, bound, view, tracker, tree, parents)
            == Ok(Assembled(WithoutMounts(Own(tree), children, DeepestFirst(children)), tracker, DeepestFirst(children),
                            pieces))
  {
    var found := Pieces(world, bound, view, tracker, tree, children, parents);
    forall name | name in pieces ensures found[name] == Ok(pieces[name]) {
      PieceAt(world, bound, view, tracker, tree, children, name, parents);
    }
    ValuesAre(found, pieces);
  }

  /** A piece is new if and only if a commit is to be made, and otherwise what the choice says. */
  lemma PieceChosen(world: World, bound: Bound, view: Commit, tracker: Name, tree: Tree,
                    children: map<Name, Path>, name: Name, parents: seq<Commit>, piece: Piece)
    requires Subtree(tree, DEFINITIONS_DIR).Some?
    requires name in children && children[name] != []
    requires SplitChild(world, bound, view, tracker, tree, children, name, parents) == Ok(piece)
    ensures var part, id, before := PartOf(tree, children, name), ChildId(tracker, name), Before(parents, name);
            var choice := Choose(world, bound, id, before, part);
            && choice.Ok? && (choice.value.Make? <==> piece.New?)
            && (!choice.value.Make? ==> Unmade(choice) == Ok(piece))
            && (choice.value.Make? ==>
                  MadeFor(view, before, SplitPart(world, bound, view, id, part.Or(EMPTY), before)) == Ok(piece))
  {
  }

  /** What a choice comes to, `inside` being the child's part split. */
  function PieceFor(view: Commit, before: seq<Commit>, choice: Result<Choice>, inside: Result<Part>): Result<Piece> {
    if choice != Ok(Make) then Unmade(choice) else MadeFor(view, before, inside)
  }

  lemma PieceIsFor(world: World, bound: Bound, view: Commit, tracker: Name, tree: Tree, children: map<Name, Path>,
                   name: Name, parents: seq<Commit>, before: seq<Commit>, part: Option<Tree>, choice: Result<Choice>,
                   inside: Result<Part>)
    requires Subtree(tree, DEFINITIONS_DIR).Some? && name in children && children[name] != []
    requires before == Before(parents, name) && part == PartOf(tree, children, name)
    requires choice == Choose(world, bound, ChildId(tracker, name), before, part)
    requires inside == SplitPart(world, bound, view, ChildId(tracker, name), part.Or(EMPTY), before)
    ensures SplitChild(world, bound, view, tracker, tree, children, name, parents)
            == PieceFor(view, before, choice, inside)
  {
  }

  /** A split level is the assembly of its pieces. */
  lemma LevelIs(world: World, bound: Bound, view: Commit, tracker: Name, tree: Tree, parents: seq<Commit>, part: Part)
    returns (children: map<Name, Path>, pieces: map<Name, Piece>)
    requires SplitPart(world, bound, view, tracker, tree, parents) == Ok(part)
    ensures ChildrenIn(world, tree, tracker) == Ok(children) && pieces.Keys == children.Keys
    ensures part
              == Assembled(WithoutMounts(Own(tree), children, DeepestFirst(children)), tracker, DeepestFirst(children),
                              pieces)
    ensures forall name | name in children ::
              SplitChild(world, bound, view, tracker, tree, children, name, parents) == Ok(pieces[name])
  {
    children := ChildrenIn(world, tree, tracker).value;
    pieces := Values(Pieces(world, bound, view, tracker, tree, children, parents));
  }

  /** A child no commit is made for. */
  function Unmade(choice: Result<Choice>): Result<Piece>
    requires choice != Ok(Make)
  {
    if choice.Err? then Err else if choice.value.Nothing? then Ok(Absent) else Ok(Reused(choice.value.pin))
  }

  /** The commit made for a child, its part split. */
  function MadeFor(view: Commit, before: seq<Commit>, inside: Result<Part>): Result<Piece> {
    if inside.Err? then Err else Ok(New(ChildCommit(view, inside.value, before), inside.value.made))
  }

  /** A commit made in a child: authorship and message are `view`'s, tree and pins are `part`'s. */
  function ChildCommit(view: Commit, part: Part, parents: seq<Commit>): Commit {
    Commit(WithPins(part.own, part.pins), parents, view.author, view.committer,
           Messages.EncodingHeader(view.headers), view.message)
  }

  function CommaJoin(names: seq<Name>): string {
    if names == [] then "" else if |names| == 1 then names[0] else names[0] + ", " + CommaJoin(names[1..])
  }

  /** The message of a root commit whose work the children hold. */
  function UpdateMessage(made: seq<Made>): Bytes {
    "Update " + CommaJoin(ByName(set i | 0 <= i < |made| :: made[i].tracker)) + "\n"
  }

  /** Whether the root commit itself carries the view commit's message. */
  predicate CarriesMessage(part: Part, parents: seq<Commit>) {
    || (if parents == [] then part.own != EMPTY else Own(parents[0].tree) != part.own)
    || part.made == []
  }

  /** The root commit of `view`, whose parents stand for `parents`. */
  function RootCommit(world: World, view: Commit, part: Part, parents: seq<Commit>): Commit {
    var message := if CarriesMessage(part, parents) then view.message else UpdateMessage(part.made);
    Commit(WithPins(part.own, part.pins), parents, view.author, view.committer,
           Messages.EncodingHeader(view.headers),
           Messages.WithSplitTrailers(message, world.id(view), view.headers))
  }

  function SplitView(world: World, bound: Bound, view: Commit, roots: seq<Commit>): Result<Commit> {
    var parents := Dedup(roots);
    var part :- SplitPart(world, bound, view, ROOT, view.tree, parents);
    Ok(RootCommit(world, view, part, parents))
  }

  /**
   The root commit of `view`, everything behind it split first. `known` says
   which view commits already stand for a root commit.
   */
  function SplitHistory(world: World, bound: Bound, known: map<Commit, Commit>, view: Commit): Result<Commit>
    decreases view, 1
  {
    if view in known then Ok(known[view])
    else
      var roots :- ParentRoots(world, bound, known, view);
      SplitView(world, bound, view, roots)
  }

  /** The root commits a view commit's parents stand for. */
  function ParentRoots(world: World, bound: Bound, known: map<Commit, Commit>,
                       view: Commit): (roots: Result<seq<Commit>>)
    ensures roots.Ok? ==> |roots.value| == |view.parents|
    decreases view, 0
  {
    var roots := seq(|view.parents|, i requires 0 <= i < |view.parents| =>
      SplitHistory(world, bound, known, view.parents[i]));
    if exists i | 0 <= i < |roots| :: roots[i].Err? then Err
    else Ok(seq(|roots|, i requires 0 <= i < |roots| => roots[i].value))
  }
}
