/**
 Composing a root tracker's history into a view, for one reader.

 These functions say what the view is. `Composer` computes it with the memo
 tables and loops the repository uses.
 */
module Compose {
  import opened Wrappers
  import opened Names
  import opened Objects
  import opened Order
  import Messages

  /** The directory of links, one for each child pinned. */
  const PINS_DIR: Path := [".newgit", "pins"]
  const DEFINITIONS_DIR: Path := [".newgit", "trackers"]
  const TOML := ".toml"

  /** What a definition file says. An invalid one still says where it mounts. */
  datatype Definition = Definition(git: bool, mount: Path, paths: seq<Path>, exclusions: seq<Path>, valid: bool)

  /**
   What lies outside the model: the hex id of a commit, how definition files
   parse, and which commits the store holds.
   */
  datatype World = World(id: Commit -> Bytes, toml: Bytes -> Option<Definition>, held: Commit -> bool)

  /** For whom a view is made: which names are open to them, and at which commits. */
  datatype Reader = Reader(readable: Name -> bool, admit: (Name, Commit) -> bool)

  const EVERYONE := Reader(_ => true, (_, _) => true)

  /** What the links under `PINS_DIR` point at, by name. */
  function Pins(tree: Tree): (pins: map<Name, Commit>)
    ensures forall name | name in pins :: pins[name] < tree
  {
    var found := Subtree(tree, PINS_DIR);
    if found.None? then map[]
    else
      var pins := found.value;
      map name | name in pins.entries && pins.entries[name].Link? :: pins.entries[name].commit
  }

  /** A tree without its pins. */
  function Own(tree: Tree): Tree { SetPath(tree, PINS_DIR, None) }

  function NameKey(name: Name): Key { Key(0, "", name) }

  /** Names as a sorted map walks them. */
  function ByName(names: set<Name>): seq<Name> { SortedBy(names, NameKey) }

  // ---- where children are mounted --------------------------------------------

  /** The first pin, by name, whose own tree says it is mounted at the definitions. */
  function PinnedDefinitions(world: World, pins: map<Name, Commit>, order: seq<Name>): Result<Option<Tree>>
    requires forall name | name in order :: name in pins
  {
    if order == [] then Ok(None)
    else
      var name := order[0];
      var tree := pins[name].tree;
      var entry := if world.held(pins[name]) then EntryAt(tree, [name + TOML]) else None;
      if entry.None? then PinnedDefinitions(world, pins, order[1..])
      else if !entry.value.Blob? then Err
      else
        var definition := world.toml(entry.value.data);
        if definition.Some? && definition.value.mount == DEFINITIONS_DIR then Ok(Some(tree))
        else PinnedDefinitions(world, pins, order[1..])
  }

  /** Where to look for mounts: under `DEFINITIONS_DIR` in `tree`, or else in a pinned child. */
  function DefinitionsTree(world: World, tree: Tree, pins: map<Name, Commit>): Result<Option<Tree>> {
    var found := Subtree(tree, DEFINITIONS_DIR);
    if found.Some? then Ok(found) else PinnedDefinitions(world, pins, ByName(pins.Keys))
  }

  function DefinedMount(world: World, definitions: Option<Tree>, name: Name): Result<Path> {
    if definitions.None? then Err
    else
      var entry := EntryAt(definitions.value, [name + TOML]);
      if entry.None? || !entry.value.Blob? then Err
      else
        var definition := world.toml(entry.value.data);
        if definition.None? then Err else Ok(definition.value.mount)
  }

  /** A mount for every name in `wanted`, or an error if one has no definition. */
  function MountsOf(world: World, tree: Tree, pins: map<Name, Commit>,
                    wanted: set<Name>): (mounts: Result<map<Name, Path>>)
    ensures mounts.Ok? ==> mounts.value.Keys == wanted
  {
    if wanted == {} then Ok(map[])
    else
      var definitions :- DefinitionsTree(world, tree, pins);
      if exists name | name in wanted :: DefinedMount(world, definitions, name).Err? then Err
      else Ok(map name | name in wanted :: DefinedMount(world, definitions, name).value)
  }

  /** The pins of `owner`'s commit that this reader gets. */
  function ReadablePins(world: World, reader: Reader, owner: Name, pins: map<Name, Commit>): map<Name, Commit> {
    map name | name in pins
               && reader.readable(ChildId(owner, name))
               && reader.admit(ChildId(owner, name), pins[name])
               && world.held(pins[name])
      :: pins[name]
  }

  function Mounts(world: World, reader: Reader, owner: Name, commit: Commit): (mounts: Result<map<Name, Path>>)
    ensures mounts.Ok? ==> mounts.value.Keys == ReadablePins(world, reader, owner, Pins(commit.tree)).Keys
  {
    var pins := Pins(commit.tree);
    MountsOf(world, commit.tree, pins, ReadablePins(world, reader, owner, pins).Keys)
  }

  // ---- grafting ----------------------------------------------------------------

  /** A mount as it is written. */
  function PathText(path: Path): string {
    if path == [] then "." else if |path| == 1 then path[0] else path[0] + "/" + PathText(path[1..])
  }

  function DepthKey(mounts: map<Name, Path>): string -> Key {
    name =>
      var mount := if name in mounts then mounts[name] else [];
      Key(|mount|, PathText(mount), name)
  }

  /** The names of `mounts`, shorter mounts first, so that a child goes inside the one around it. */
  function ByDepth(mounts: map<Name, Path>): (order: seq<Name>)
    ensures forall name :: name in order <==> name in mounts
    ensures Distinct(order)
    ensures forall i, j | 0 <= i < j < |order| :: |mounts[order[i]]| <= |mounts[order[j]]|
  {
    var order := SortedBy(mounts.Keys, DepthKey(mounts));
    assert forall i, j | 0 <= i < j < |order| ::
      KeyAtMost(DepthKey(mounts)(order[i]), DepthKey(mounts)(order[j]));
    order
  }

  /** `child` laid over the subtree of `tree` at `mount`. */
  function Graft(tree: Tree, mount: Path, child: Tree): Tree {
    if mount == [] then Overlay(tree, child)
    else
      var existing := Subtree(tree, mount);
      var merged := if existing.Some? then Overlay(existing.value, child) else child;
      SetPath(tree, mount, if merged == EMPTY then None else Some(Sub(merged)))
  }

  /** Every name in `order` grafted in turn, from `own` on. */
  function WithChildren(own: Tree, order: seq<Name>, mounts: map<Name, Path>, kids: map<Name, Tree>): Tree
    requires forall name | name in order :: name in mounts && name in kids
    decreases |order|
  {
    if order == [] then own
    else WithChildren(Graft(own, mounts[order[0]], kids[order[0]]), order[1..], mounts, kids)
  }

  /**
   What `commit` of `tracker` comes to for `reader`: its pins give way to the
   trees of the children they may read, each made the same way.
   */
  function TreeFor(world: World, reader: Reader, tracker: Name, commit: Commit): Result<Tree>
    decreases commit, 1
  {
    var mounts :- Mounts(world, reader, tracker, commit);
    var kids := KidTrees(world, reader, tracker, commit);
    if !AllTrees(kids) then Err
    else Ok(WithChildren(Own(commit.tree), ByDepth(mounts), mounts, Trees(kids)))
  }

  /** The trees of the children this reader gets, as the reader sees them. */
  function KidTrees(world: World, reader: Reader, tracker: Name, commit: Commit): (kids: map<Name, Result<Tree>>)
    ensures kids.Keys == ReadablePins(world, reader, tracker, Pins(commit.tree)).Keys
    decreases commit, 0
  {
    var wanted := ReadablePins(world, reader, tracker, Pins(commit.tree));
    map name | name in wanted ::
      assert wanted[name] < commit.tree && commit.tree < commit;
      TreeFor(world, reader, ChildId(tracker, name), wanted[name])
  }

  predicate AllTrees(kids: map<Name, Result<Tree>>) {
    forall name | name in kids :: kids[name].Ok?
  }

  function Trees(kids: map<Name, Result<Tree>>): (trees: map<Name, Tree>)
    requires AllTrees(kids)
    ensures trees.Keys == kids.Keys
  {
    map name | name in kids :: kids[name].value
  }

  // ---- one view commit ----------------------------------------------------------

  /** A view commit, and the children its tree expanded. */
  datatype Composed = Composed(view: Commit, expanded: set<Name>)

  /** Whether `ancestor` is behind `descendant`. */
  predicate IsAncestor(ancestor: Commit, descendant: Commit)
    decreases descendant
  {
    exists i | 0 <= i < |descendant.parents| ::
      descendant.parents[i] == ancestor || IsAncestor(ancestor, descendant.parents[i])
  }

  /** The children whose pins differ between two commits. */
  function Moved(left: map<Name, Commit>, right: map<Name, Commit>): set<Name> {
    set name | name in left.Keys + right.Keys
               && !(name in left && name in right && left[name] == right[name])
  }

  /** Pins moved, and nothing else did; none that moved is mounted here, nor was in the parent's view. */
  predicate OnlyWithheldMoved(commit: Commit, mounts: map<Name, Path>, parent: Commit, expanded: set<Name>) {
    var moved := Moved(Pins(commit.tree), Pins(parent.tree));
    && Own(parent.tree) == Own(commit.tree)
    && moved != {}
    && forall name | name in moved :: name !in mounts && name !in expanded
  }

  /** Two of the parents differ under a name that is pinned here and not mounted. */
  predicate JoinsWithheld(pins: map<Name, Commit>, mounts: map<Name, Path>, parents: seq<Commit>) {
    exists name | name in pins && name !in mounts ::
      exists i | 0 <= i < |parents| ::
        var side, first := Pins(parents[i].tree), Pins(parents[0].tree);
        (if name in side then Some(side[name]) else None) != (if name in first then Some(first[name]) else None)
  }

  predicate AheadOfAll(views: seq<Composed>, at: nat)
    requires at < |views|
  {
    forall i | 0 <= i < |views| :: views[i].view == views[at].view || IsAncestor(views[i].view, views[at].view)
  }

  /** From index `from` on, the first view of this tree that every view is behind. */
  function EmptyMerge(views: seq<Composed>, tree: Tree, from: nat): (found: Option<nat>)
    requires from <= |views|
    ensures found.Some? ==> from <= found.value < |views| && views[found.value].view.tree == tree
                            && AheadOfAll(views, found.value)
    decreases |views| - from
  {
    if from == |views| then None
    else if views[from].view.tree == tree && AheadOfAll(views, from) then Some(from)
    else EmptyMerge(views, tree, from + 1)
  }

  /** Each commit once, in the order first seen. */
  function Dedup(commits: seq<Commit>): (once: seq<Commit>)
    ensures Distinct(once)
    ensures forall commit :: commit in once <==> commit in commits
    ensures Distinct(commits) ==> once == commits
  {
    if commits == [] then []
    else
      var before, last := Dedup(commits[..|commits| - 1]), commits[|commits| - 1];
      assert commits == commits[..|commits| - 1] + [last];
      if last in before then before else before + [last]
  }

  function Views(composed: seq<Composed>): seq<Commit> {
    seq(|composed|, i requires 0 <= i < |composed| => composed[i].view)
  }

  predicate PinKept(name: Name, pin: Commit, parents: seq<Commit>, views: seq<Composed>)
    requires |parents| == |views|
  {
    exists i | 0 <= i < |parents| ::
      var pins := Pins(parents[i].tree); name in pins && pins[name] == pin && name in views[i].expanded
  }

  /** The pin of the first name in `order` that no parent had before: its message tells of the work. */
  function WorkHolder(order: seq<Name>, pins: map<Name, Commit>, parents: seq<Commit>,
                      views: seq<Composed>): (holder: Option<Commit>)
    requires |parents| == |views| && forall name | name in order :: name in pins
    ensures holder.None? ==> forall name | name in order :: PinKept(name, pins[name], parents, views)
    ensures holder.Some? ==> exists name | name in order ::
              holder.value == pins[name] && !PinKept(name, pins[name], parents, views)
  {
    if order == [] then None
    else if !PinKept(order[0], pins[order[0]], parents, views) then Some(pins[order[0]])
    else WorkHolder(order[1..], pins, parents, views)
  }

  /** Whose metadata a view commit carries, and the id it is expected to have. */
  datatype Metadata = Metadata(author: Bytes, committer: Bytes, message: Bytes, headers: Bytes, expected: Bytes)

  /** A commit's own metadata, or what its trailers and its work's holder say. */
  function MetadataOf(world: World, commit: Commit, holder: Option<Commit>): Metadata {
    var split := Messages.ParseSplit(commit.message);
    if split.None? then
      Metadata(commit.author, commit.committer, commit.message, commit.headers, world.id(commit))
    else if holder.None? then
      Metadata(commit.author, commit.committer, split.value.message, split.value.headers, split.value.source)
    else
      var carried := Messages.ParseSplit(holder.value.message);
      var message := if carried.Some? then carried.value.message else holder.value.message;
      Metadata(holder.value.author, holder.value.committer, message, split.value.headers, split.value.source)
  }

  /** The view commit itself: with its headers whole only if that gives the id expected. */
  function MadeView(world: World, tree: Tree, parents: seq<Commit>, data: Metadata): Commit {
    var whole := Commit(tree, parents, data.author, data.committer, data.headers, data.message);
    if world.id(whole) == data.expected then whole
    else whole.(headers := Messages.UnsignedHeaders(data.headers))
  }

  predicate OwnUnchanged(commit: Commit) {
    if commit.parents == [] then Own(commit.tree) == EMPTY
    else Own(commit.parents[0].tree) == Own(commit.tree)
  }

  /** Whose message a pin-only commit takes: nobody's if it touched files itself. */
  function HolderOf(commit: Commit, mounts: map<Name, Path>, views: seq<Composed>): Option<Commit>
    requires |views| == |commit.parents| && mounts.Keys <= Pins(commit.tree).Keys
  {
    if Messages.ParseSplit(commit.message).Some? && OwnUnchanged(commit)
    then WorkHolder(ByDepth(mounts), Pins(commit.tree), commit.parents, views)
    else None
  }

  /** The view commit of `commit`, given its mounts, its tree and its parents' views. */
  function Decided(world: World, commit: Commit, mounts: map<Name, Path>, tree: Tree, views: seq<Composed>): Composed
    requires |views| == |commit.parents| && mounts.Keys <= Pins(commit.tree).Keys
  {
    if |commit.parents| == 1 && OnlyWithheldMoved(commit, mounts, commit.parents[0], views[0].expanded) then views[0]
    else
      var kept := if |commit.parents| > 1 && JoinsWithheld(Pins(commit.tree), mounts, commit.parents)
                  then EmptyMerge(views, tree, 0) else None;
      if kept.Some? then views[kept.value]
      else
        var data := MetadataOf(world, commit, HolderOf(commit, mounts, views));
        Composed(MadeView(world, tree, Dedup(Views(views)), data), mounts.Keys)
  }

  /** The view commit of `commit`, given its parents' views. */
  function ComposeOne(world: World, reader: Reader, tracker: Name, commit: Commit,
                      views: seq<Composed>): Result<Composed>
    requires |views| == |commit.parents|
  {
    var mounts :- Mounts(world, reader, tracker, commit);
    var tree :- TreeFor(world, reader, tracker, commit);
    Ok(Decided(world, commit, mounts, tree, views))
  }

  /** The view commit of a root commit, its whole history composed. */
  function View(world: World, reader: Reader, tracker: Name, commit: Commit): Result<Composed>
    decreases commit
  {
    var views := seq(|commit.parents|, i requires 0 <= i < |commit.parents| =>
      View(world, reader, tracker, commit.parents[i]));
    if exists i | 0 <= i < |views| :: views[i].Err? then Err
    else ComposeOne(world, reader, tracker, commit,
                    seq(|views|, i requires 0 <= i < |views| => views[i].value))
  }

  // ---- what trees and views are made of -------------------------------------------

  lemma KidsOf(world: World, reader: Reader, tracker: Name, commit: Commit)
    ensures KidTrees(world, reader, tracker, commit).Keys
              == ReadablePins(world, reader, tracker, Pins(commit.tree)).Keys
    ensures forall name | name in KidTrees(world, reader, tracker, commit) ::
              KidTrees(world, reader, tracker, commit)[name]
              == TreeFor(world, reader, ChildId(tracker, name), Pins(commit.tree)[name])
  {
  }

  lemma KidAt(world: World, reader: Reader, tracker: Name, commit: Commit, name: Name)
    requires name in KidTrees(world, reader, tracker, commit)
    ensures KidTrees(world, reader, tracker, commit)[name]
            == TreeFor(world, reader, ChildId(tracker, name), Pins(commit.tree)[name])
  {
  }

  lemma TreesAre(found: map<Name, Result<Tree>>, kids: map<Name, Tree>)
    requires found.Keys == kids.Keys && forall name | name in kids :: found[name] == Ok(kids[name])
    ensures AllTrees(found) && Trees(found) == kids
  {
  }

  lemma TreeForGiven(world: World, reader: Reader, tracker: Name, commit: Commit, mounts: map<Name, Path>,
                     kids: map<Name, Tree>)
    requires Mounts(world, reader, tracker, commit) == Ok(mounts)
    requires AllTrees(KidTrees(world, reader, tracker, commit))
             && Trees(KidTrees(world, reader, tracker, commit)) == kids
    ensures mounts.Keys == kids.Keys
    ensures TreeFor(world, reader, tracker, commit) == Ok(WithChildren(Own(commit.tree), ByDepth(mounts), mounts, kids))
  {
  }

  lemma ComposedNeeds(world: World, reader: Reader, tracker: Name, commit: Commit, views: seq<Composed>)
    requires |views| == |commit.parents| && ComposeOne(world, reader, tracker, commit, views).Ok?
    ensures Mounts(world, reader, tracker, commit).Ok? && TreeFor(world, reader, tracker, commit).Ok?
  {
  }

  /** The views of a commit's parents, when the whole composes. */
  lemma ViewsOfParents(world: World, reader: Reader, tracker: Name, commit: Commit) returns (views: seq<Composed>)
    requires View(world, reader, tracker, commit).Ok?
    ensures |views| == |commit.parents|
    ensures forall i | 0 <= i < |views| :: View(world, reader, tracker, commit.parents[i]) == Ok(views[i])
    ensures View(world, reader, tracker, commit) == ComposeOne(world, reader, tracker, commit, views)
    ensures Mounts(world, reader, tracker, commit).Ok? && TreeFor(world, reader, tracker, commit).Ok?
  {
    views := ParentsComposed(world, reader, tracker, commit);
    ViewGiven(world, reader, tracker, commit, views);
    ComposedNeeds(world, reader, tracker, commit, views);
  }

  lemma ParentNeeded(world: World, reader: Reader, tracker: Name, commit: Commit, i: nat)
    requires i < |commit.parents| && View(world, reader, tracker, commit.parents[i]).Err?
    ensures View(world, reader, tracker, commit).Err?
  {
    var all := seq(|commit.parents|,
                   i requires 0 <= i < |commit.parents| => View(world, reader, tracker, commit.parents[i]));
    assert all[i].Err?;
  }

  lemma ParentsComposed(world: World, reader: Reader, tracker: Name, commit: Commit) returns (views: seq<Composed>)
    requires View(world, reader, tracker, commit).Ok?
    ensures |views| == |commit.parents|
    ensures forall i | 0 <= i < |views| :: View(world, reader, tracker, commit.parents[i]) == Ok(views[i])
  {
    forall i: nat | i < |commit.parents| ensures View(world, reader, tracker, commit.parents[i]).Ok? {
      if View(world, reader, tracker, commit.parents[i]).Err? { ParentNeeded(world, reader, tracker, commit, i); }
    }
    views := seq(|commit.parents|,
                 i requires 0 <= i < |commit.parents| => View(world, reader, tracker, commit.parents[i]).value);
  }

  lemma ViewGiven(world: World, reader: Reader, tracker: Name, commit: Commit, views: seq<Composed>)
    requires |views| == |commit.parents|
    requires forall i | 0 <= i < |views| :: View(world, reader, tracker, commit.parents[i]) == Ok(views[i])
    ensures View(world, reader, tracker, commit) == ComposeOne(world, reader, tracker, commit, views)
  {
    var all := seq(|commit.parents|,
                   i requires 0 <= i < |commit.parents| => View(world, reader, tracker, commit.parents[i]));
    assert forall i | 0 <= i < |all| :: all[i] == Ok(views[i]);
    assert views == seq(|all|, i requires 0 <= i < |all| => all[i].value);
  }
}
