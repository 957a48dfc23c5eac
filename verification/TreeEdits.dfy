/** Trees edited one entry at a time, and listed file by file. */
module TreeEdits {
  // Trees edited entry by entry: the vectors and stacks behind `Objects`.

  import opened Wrappers
  import opened Objects
  import opened Order
  import opened Sets

  datatype Named = Named(name: Name, entry: Entry)

  ghost predicate OneEach(entries: seq<Named>) {
    forall i, j | 0 <= i < j < |entries| :: entries[i].name != entries[j].name
  }

  ghost predicate Has(entries: seq<Named>, name: Name) {
    exists i :: 0 <= i < |entries| && entries[i].name == name
  }

  /** The entries are the map's, each once, in some order. */
  ghost predicate Lists(entries: seq<Named>, of: map<Name, Entry>) {
    && OneEach(entries)
    && (forall i | 0 <= i < |entries| :: entries[i].name in of && of[entries[i].name] == entries[i].entry)
    && forall name | name in of :: Has(entries, name)
  }

  lemma ListsOne(entries: seq<Named>, one: map<Name, Entry>, other: map<Name, Entry>)
    requires Lists(entries, one) && Lists(entries, other)
    ensures one == other
  {
  }

  /** A tree's entries, as a vector. */
  method EntriesOf(tree: Tree) returns (entries: seq<Named>)
    ensures Lists(entries, tree.entries)
  {
    entries := [];
    var left, seen := tree.entries.Keys, {};
    while left != {}
      invariant left !! seen && left + seen == tree.entries.Keys
      invariant forall i | 0 <= i < |entries| ::
                  entries[i].name in seen && entries[i].name in tree.entries
                    && tree.entries[entries[i].name] == entries[i].entry
      invariant OneEach(entries)
      invariant forall name | name in seen :: Has(entries, name)
      decreases left
    {
      var name :| name in left;
      ghost var before := entries;
      entries := entries + [Named(name, tree.entries[name])];
      forall other | other in seen + {name} ensures Has(entries, other) {
        if other == name {
          assert entries[|before|].name == other;
        } else {
          var i :| 0 <= i < |before| && before[i].name == other;
          assert entries[i].name == other;
        }
      }
      left, seen := left - {name}, seen + {name};
    }
  }

  method Position(entries: seq<Named>, name: Name) returns (position: Option<nat>)
    ensures position.None? ==> forall i | 0 <= i < |entries| :: entries[i].name != name
    ensures position.Some? ==> position.value < |entries| && entries[position.value].name == name
  {
    var i := 0;
    while i < |entries|
      invariant 0 <= i <= |entries|
      invariant forall k | 0 <= k < i :: entries[k].name != name
    {
      if entries[i].name == name { return Some(i); }
      i := i + 1;
    }
    position := None;
  }

  /** The tree of these entries. */
  function MakeTree(entries: seq<Named>): Tree { Tree(MapOf(entries)) }

  function MapOf(entries: seq<Named>): map<Name, Entry> {
    if entries == [] then map[]
    else MapOf(entries[..|entries| - 1])[entries[|entries| - 1].name := entries[|entries| - 1].entry]
  }

  lemma {:induction false} MapIsListed(entries: seq<Named>)
    requires OneEach(entries)
    ensures Lists(entries, MapOf(entries))
    decreases |entries|
  {
    if entries != [] {
      var last := |entries| - 1;
      MapIsListed(entries[..last]);
      forall name | name in MapOf(entries) ensures Has(entries, name) {
        if name == entries[last].name {
        } else {
          var i :| 0 <= i < last && entries[..last][i].name == name;
          assert entries[i].name == name;
        }
      }
      forall i | 0 <= i < |entries|
        ensures entries[i].name in MapOf(entries) && MapOf(entries)[entries[i].name] == entries[i].entry
      {
        if i < last { assert entries[..last][i] == entries[i]; }
      }
    }
  }

  lemma MadeIs(entries: seq<Named>, of: map<Name, Entry>)
    requires Lists(entries, of)
    ensures MakeTree(entries) == Tree(of)
  {
    MapIsListed(entries);
    ListsOne(entries, MapOf(entries), of);
  }

  lemma ListsReplaced(entries: seq<Named>, of: map<Name, Entry>, at: nat, named: Named)
    requires Lists(entries, of) && at < |entries| && named.name == entries[at].name
    ensures Lists(entries[at := named], of[named.name := named.entry])
  {
    var edited := entries[at := named];
    forall name | name in of ensures Has(edited, name) {
      var i :| 0 <= i < |entries| && entries[i].name == name;
      assert edited[i].name == name;
    }
  }

  lemma ListsAdded(entries: seq<Named>, of: map<Name, Entry>, named: Named)
    requires Lists(entries, of) && named.name !in of
    ensures Lists(entries + [named], of[named.name := named.entry])
  {
    var more := entries + [named];
    forall name | name in of[named.name := named.entry] ensures Has(more, name) {
      if name == named.name {
        assert more[|entries|].name == name;
      } else {
        var i :| 0 <= i < |entries| && entries[i].name == name;
        assert more[i].name == name;
      }
    }
  }

  lemma ListsRemoved(entries: seq<Named>, of: map<Name, Entry>, at: nat)
    requires Lists(entries, of) && at < |entries|
    ensures Lists(entries[..at] + entries[at + 1..], of - {entries[at].name})
  {
    var fewer := entries[..at] + entries[at + 1..];
    forall name | name in of - {entries[at].name} ensures Has(fewer, name) {
      var i :| 0 <= i < |entries| && entries[i].name == name;
      assert fewer[if i < at then i else i - 1].name == name;
    }
  }

  // ---- set_path ---------------------------------------------------------------------------------

  function TreeOr(tree: Option<Tree>): Tree { if tree.Some? then tree.value else EMPTY }

  function NoneIfEmpty(tree: Tree): Option<Tree> { if tree == EMPTY then None else Some(tree) }

  /** `tree` with `parts` set to `entry`, nothing when nothing is left. */
  method SetIn(tree: Option<Tree>, parts: Path, entry: Option<Entry>) returns (updated: Option<Tree>)
    requires parts != []
    ensures updated == NoneIfEmpty(SetPath(TreeOr(tree), parts, entry))
    decreases |parts|
  {
    var entries := EntriesOf(TreeOr(tree));
    ghost var of := TreeOr(tree).entries;
    var name := parts[0];
    var position := Position(entries, name);
    var replacement: Option<Entry>;
    if |parts| == 1 {
      replacement := entry;
    } else {
      var below: Option<Tree> :=
        if position.Some? && entries[position.value].entry.Sub? then Some(entries[position.value].entry.tree) else None;
      if below.None? && entry.None? { return NoneIfEmpty(TreeOr(tree)); }
      var under := SetIn(below, parts[1..], entry);
      replacement := if under.Some? then Some(Sub(under.value)) else None;
    }
    entries := Replace(entries, of, name, position, replacement);
    MadeIs(entries, if replacement.Some? then of[name := replacement.value] else of - {name});
    updated := if entries == [] then None else Some(MakeTree(entries));
  }

  /** One entry replaced, removed, added, or left missing. */
  method Replace(entries: seq<Named>, ghost of: map<Name, Entry>, name: Name, position: Option<nat>,
                 replacement: Option<Entry>)
    returns (edited: seq<Named>)
    requires Lists(entries, of)
    requires position.None? ==> forall i | 0 <= i < |entries| :: entries[i].name != name
    requires position.Some? ==> position.value < |entries| && entries[position.value].name == name
    ensures Lists(edited, if replacement.Some? then of[name := replacement.value] else of - {name})
  {
    edited := entries;
    if position.Some? && replacement.Some? {
      ListsReplaced(entries, of, position.value, Named(name, replacement.value));
      edited := entries[position.value := Named(name, replacement.value)];
    } else if position.Some? {
      ListsRemoved(entries, of, position.value);
      edited := entries[..position.value] + entries[position.value + 1..];
    } else if replacement.Some? {
      ListsAdded(entries, of, Named(name, replacement.value));
      edited := entries + [Named(name, replacement.value)];
    } else {
      assert of - {name} == of;
    }
  }

  // ---- overlay ----------------------------------------------------------------------------------

  /** The base's entries with those of `seen` laid over them. */
  ghost function LaidOver(base: Tree, top: Tree, seen: set<Name>): map<Name, Entry>
    requires seen <= top.entries.Keys
  {
    map name | name in base.entries.Keys + seen ::
      if name in seen then Overlay(base, top).entries[name] else base.entries[name]
  }

  lemma LaidOne(base: Tree, top: Tree, seen: set<Name>, name: Name, laid: Entry)
    requires seen <= top.entries.Keys && name in top.entries && laid == Overlay(base, top).entries[name]
    ensures LaidOver(base, top, seen)[name := laid] == LaidOver(base, top, seen + {name})
  {
  }

  lemma LaidAll(base: Tree, top: Tree)
    ensures LaidOver(base, top, {}) == base.entries
            && LaidOver(base, top, top.entries.Keys) == Overlay(base, top).entries
  {
  }

  /** `top`'s entry as it is laid over what `base` has there. */
  method LayOne(base: Tree, top: Tree, entries: seq<Named>, position: Option<nat>, above: Named) returns (laid: Entry)
    requires above.name in top.entries && top.entries[above.name] == above.entry
    requires position.Some? <==> above.name in base.entries
    requires position.Some? ==>
               position.value < |entries| && entries[position.value] == Named(above.name, base.entries[above.name])
    ensures laid == Overlay(base, top).entries[above.name]
    decreases top, 0
  {
    laid := above.entry;
    if position.Some? && entries[position.value].entry.Sub? && above.entry.Sub? {
      var below := OverlayTrees(entries[position.value].entry.tree, above.entry.tree);
      laid := Sub(below);
    }
  }

  /** One more entry of `top` laid over the entries so far. */
  method LayNext(base: Tree, top: Tree, ghost seen: set<Name>, entries: seq<Named>, above: Named)
    returns (more: seq<Named>)
    requires seen <= top.entries.Keys && Lists(entries, LaidOver(base, top, seen)) && above.name !in seen
    requires above.name in top.entries && top.entries[above.name] == above.entry
    ensures Lists(more, LaidOver(base, top, seen + {above.name}))
    decreases top, 1
  {
    var position := Position(entries, above.name);
    assert position.None? ==> above.name !in LaidOver(base, top, seen);
    var laid := LayOne(base, top, entries, position, above);
    LaidOne(base, top, seen, above.name, laid);
    more := Replace(entries, LaidOver(base, top, seen), above.name, position, Some(laid));
  }

  /** `seen` has the names of the first `i` entries of `top`. */
  ghost predicate SeenAre(top: Tree, above: seq<Named>, i: nat, seen: set<Name>) {
    && i <= |above| && Lists(above, top.entries) && seen <= top.entries.Keys
    && forall name :: name in seen <==> Has(above[..i], name)
  }

  lemma SeenMore(top: Tree, above: seq<Named>, i: nat, seen: set<Name>)
    requires SeenAre(top, above, i, seen) && i < |above|
    ensures above[i].name !in seen && SeenAre(top, above, i + 1, seen + {above[i].name})
  {
    NotYet(above, i);
  }

  lemma SeenAll(top: Tree, above: seq<Named>, seen: set<Name>)
    requires SeenAre(top, above, |above|, seen)
    ensures seen == top.entries.Keys
  {
    assert above[..|above|] == above;
  }

  /** `top` laid over `base`. */
  method OverlayTrees(base: Tree, top: Tree) returns (merged: Tree)
    ensures merged == Overlay(base, top)
    decreases top, 2
  {
    var entries := EntriesOf(base);
    var above := EntriesOf(top);
    var i := 0;
    ghost var seen: set<Name> := {};
    LaidAll(base, top);
    while i < |above|
      invariant SeenAre(top, above, i, seen)
      invariant Lists(entries, LaidOver(base, top, seen))
    {
      SeenMore(top, above, i, seen);
      entries := LayNext(base, top, seen, entries, above[i]);
      seen := seen + {above[i].name};
      i := i + 1;
    }
    SeenAll(top, above, seen);
    MadeIs(entries, Overlay(base, top).entries);
    merged := MakeTree(entries);
  }

  lemma NotYet(entries: seq<Named>, i: nat)
    requires OneEach(entries) && i < |entries|
    ensures !Has(entries[..i], entries[i].name)
    ensures forall name :: Has(entries[..i + 1], name) <==> name == entries[i].name || Has(entries[..i], name)
  {
    forall name ensures Has(entries[..i + 1], name) <==> name == entries[i].name || Has(entries[..i], name) {
      if name == entries[i].name { assert entries[..i + 1][i].name == name; }
      if Has(entries[..i], name) {
        var k :| 0 <= k < i && entries[..i][k].name == name;
        assert entries[..i + 1][k].name == name;
      }
    }
  }

  // ---- files ------------------------------------------------------------------------------------

  /** Every place under `tree` where there is a subtree, its root among them. */
  ghost function SubtreePaths(tree: Tree): set<Path> {
    {[]} + set name, path
               | name in tree.entries && tree.entries[name].Sub? && path in SubtreePaths(tree.entries[name].tree) ::
               [name] + path
  }

  lemma {:induction false} SubtreePathsAre(tree: Tree, path: Path)
    ensures path in SubtreePaths(tree) <==> Subtree(tree, path).Some?
    decreases |path|
  {
    if path != [] {
      assert path == [path[0]] + path[1..];
      if path[0] in tree.entries && tree.entries[path[0]].Sub? {
        SubtreePathsAre(tree.entries[path[0]].tree, path[1..]);
      }
      if path in SubtreePaths(tree) {
        var name, rest :| name in tree.entries && tree.entries[name].Sub?
            && rest in SubtreePaths(tree.entries[name].tree) && path == [name] + rest;
        assert rest == path[1..];
      }
    }
  }

  /** A subtree waiting to be read, and where it is. */
  type Waiting = (Path, Tree)

  ghost predicate Apart(stack: seq<Waiting>) {
    forall i, j | 0 <= i < |stack| && 0 <= j < |stack| && i != j :: !(stack[i].0 <= stack[j].0)
  }

  ghost predicate Placed(root: Tree, stack: seq<Waiting>) {
    forall i | 0 <= i < |stack| :: Subtree(root, stack[i].0) == Some(stack[i].1)
  }

  ghost predicate Under(stack: seq<Waiting>, path: Path) {
    exists i :: 0 <= i < |stack| && stack[i].0 <= path
  }

  /** The files found are the tree's, and the rest are under what is waiting. */
  ghost predicate Found(root: Tree, stack: seq<Waiting>, out: map<Path, Entry>) {
    && (forall path | path in out :: FileAt(root, path) == Some(out[path]))
    && forall path | FileAt(root, path).Some? :: path in out || Under(stack, path)
  }

  ghost function Left(root: Tree, stack: seq<Waiting>): set<Path> {
    set path | path in SubtreePaths(root) && Under(stack, path)
  }

  method ExpandEntry(prefix: Path, ghost tree: Tree, entries: seq<Named>, i: nat, subtrees: seq<Waiting>,
                     files: map<Path, Entry>) returns (more: seq<Waiting>, found: map<Path, Entry>)
    requires ExpandedTo(prefix, tree, entries, i, subtrees, files) && i < |entries|
    ensures ExpandedTo(prefix, tree, entries, i + 1, more, found)
  {
    var path, entry := prefix + [entries[i].name], entries[i].entry;
    more, found := subtrees, files;
    if entry.Sub? {
      var child := (path, entry.tree);
      ExpandSubtree(prefix, tree, entries, i, subtrees, files, child);
      more := more + [child];
    } else {
      ExpandFile(prefix, tree, entries, i, subtrees, files, path, entry);
      found := found[path := entry];
    }
  }

  /** One subtree's own files, and the subtrees in it. */
  method Expand(prefix: Path, tree: Tree) returns (subtrees: seq<Waiting>, files: map<Path, Entry>)
    ensures Expanded(prefix, tree, subtrees, files)
  {
    subtrees, files := [], map[];
    var entries := EntriesOf(tree);
    var i := 0;
    while i < |entries|
      invariant 0 <= i <= |entries|
      invariant ExpandedTo(prefix, tree, entries, i, subtrees, files)
    {
      subtrees, files := ExpandEntry(prefix, tree, entries, i, subtrees, files);
      i := i + 1;
    }
    ExpandedAll(prefix, tree, entries, subtrees, files);
  }

  lemma ExpandedAll(prefix: Path, tree: Tree, entries: seq<Named>, subtrees: seq<Waiting>, files: map<Path, Entry>)
    requires ExpandedTo(prefix, tree, entries, |entries|, subtrees, files)
    ensures Expanded(prefix, tree, subtrees, files)
  {
    assert entries[..|entries|] == entries;
    forall path
      ensures path in files <==> |path| == |prefix| + 1 && prefix <= path && FileAt(tree, path[|prefix|..]).Some?
    {
      OwnFileIs(prefix, tree, entries, path);
    }
    forall name | name in tree.entries && tree.entries[name].Sub?
      ensures (prefix + [name], tree.entries[name].tree) in subtrees
    {
      var k :| 0 <= k < |entries| && entries[k].name == name;
    }
  }

  /** What the first `i` entries gave. */
  ghost predicate ExpandedTo(prefix: Path, tree: Tree, entries: seq<Named>, i: nat, subtrees: seq<Waiting>,
                             files: map<Path, Entry>)
  {
    && Lists(entries, tree.entries) && i <= |entries|
    && FilesTo(prefix, tree, entries, i, files)
    && (forall k | 0 <= k < |subtrees| ::
          IsChild(prefix, tree, subtrees[k]) && Has(entries[..i], subtrees[k].0[|prefix|]))
    && (forall j, k | 0 <= j < k < |subtrees| :: subtrees[j].0 != subtrees[k].0)
    && forall k | 0 <= k < i && entries[k].entry.Sub? :: (prefix + [entries[k].name], entries[k].entry.tree) in subtrees
  }

  lemma ExpandSubtree(prefix: Path, tree: Tree, entries: seq<Named>, i: nat, subtrees: seq<Waiting>,
                      files: map<Path, Entry>, child: Waiting)
    requires ExpandedTo(prefix, tree, entries, i, subtrees, files) && i < |entries| && entries[i].entry.Sub?
    requires child == (prefix + [entries[i].name], entries[i].entry.tree)
    ensures ExpandedTo(prefix, tree, entries, i + 1, subtrees + [child], files)
  {
    NotYet(entries, i);
    OwnFileMore(prefix, entries, i);
  }

  lemma ExpandFile(prefix: Path, tree: Tree, entries: seq<Named>, i: nat, subtrees: seq<Waiting>,
                   files: map<Path, Entry>, path: Path, entry: Entry)
    requires ExpandedTo(prefix, tree, entries, i, subtrees, files) && i < |entries| && !entry.Sub?
    requires path == prefix + [entries[i].name] && entry == entries[i].entry
    ensures ExpandedTo(prefix, tree, entries, i + 1, subtrees, files[path := entry])
  {
    NotYet(entries, i);
    FileListed(prefix, tree, entries, i, files, path);
  }

  lemma FileListed(prefix: Path, tree: Tree, entries: seq<Named>, i: nat, files: map<Path, Entry>, path: Path)
    requires Lists(entries, tree.entries) && i < |entries| && !entries[i].entry.Sub?
             && path == prefix + [entries[i].name]
    requires FilesTo(prefix, tree, entries, i, files)
    ensures FilesTo(prefix, tree, entries, i + 1, files[path := entries[i].entry])
  {
    OwnFileMore(prefix, entries, i);
    assert path[|prefix|..] == [entries[i].name];
  }

  /** The files among the first `i` entries. */
  ghost predicate FilesTo(prefix: Path, tree: Tree, entries: seq<Named>, i: nat, files: map<Path, Entry>)
    requires i <= |entries|
  {
    && (forall path :: path in files <==> OwnFile(prefix, entries[..i], path))
    && (forall path | path in files :: FileAt(tree, path[|prefix|..]) == Some(files[path]))
  }

  ghost predicate IsChild(prefix: Path, tree: Tree, child: Waiting) {
    && |child.0| == |prefix| + 1 && prefix <= child.0
    && child.0[|prefix|] in tree.entries && tree.entries[child.0[|prefix|]] == Sub(child.1)
  }

  /** A file of these entries, just under `prefix`. */
  ghost predicate OwnFile(prefix: Path, entries: seq<Named>, path: Path) {
    exists i :: 0 <= i < |entries| && !entries[i].entry.Sub? && path == prefix + [entries[i].name]
  }

  lemma OwnFileMore(prefix: Path, entries: seq<Named>, i: nat)
    requires i < |entries|
    ensures forall path :: OwnFile(prefix, entries[..i + 1], path) <==>
              OwnFile(prefix, entries[..i], path) || (!entries[i].entry.Sub? && path == prefix + [entries[i].name])
  {
    forall path
      ensures OwnFile(prefix, entries[..i + 1], path) <==>
                OwnFile(prefix, entries[..i], path) || (!entries[i].entry.Sub? && path == prefix + [entries[i].name])
    {
      if OwnFile(prefix, entries[..i], path) {
        var k :| 0 <= k < i && !entries[..i][k].entry.Sub? && path == prefix + [entries[..i][k].name];
        assert entries[..i + 1][k] == entries[..i][k];
      }
      if !entries[i].entry.Sub? && path == prefix + [entries[i].name] { assert entries[..i + 1][i] == entries[i]; }
    }
  }

  lemma OwnFileIs(prefix: Path, tree: Tree, entries: seq<Named>, path: Path)
    requires Lists(entries, tree.entries)
    ensures OwnFile(prefix, entries, path) <==>
              |path| == |prefix| + 1 && prefix <= path && FileAt(tree, path[|prefix|..]).Some?
  {
    if OwnFile(prefix, entries, path) {
      var i :| 0 <= i < |entries| && !entries[i].entry.Sub? && path == prefix + [entries[i].name];
      assert path[|prefix|..] == [entries[i].name];
    }
    if |path| == |prefix| + 1 && prefix <= path && FileAt(tree, path[|prefix|..]).Some? {
      var name := path[|prefix|];
      assert path[|prefix|..] == [name] && path == prefix + [name];
      assert Has(entries, name);
    }
  }

  ghost predicate Expanded(prefix: Path, tree: Tree, subtrees: seq<Waiting>, files: map<Path, Entry>) {
    && (forall path ::
          path in files <==> |path| == |prefix| + 1 && prefix <= path && FileAt(tree, path[|prefix|..]).Some?)
    && (forall path | path in files :: FileAt(tree, path[|prefix|..]) == Some(files[path]))
    && (forall i | 0 <= i < |subtrees| :: IsChild(prefix, tree, subtrees[i]))
    && (forall i, j | 0 <= i < j < |subtrees| :: subtrees[i].0 != subtrees[j].0)
    && forall name | name in tree.entries && tree.entries[name].Sub? ::
         (prefix + [name], tree.entries[name].tree) in subtrees
  }

  lemma ChildPlaced(root: Tree, prefix: Path, tree: Tree, child: Waiting)
    requires Subtree(root, prefix) == Some(tree) && IsChild(prefix, tree, child)
    ensures Subtree(root, child.0) == Some(child.1)
  {
    var name := child.0[|prefix|];
    assert child.0 == prefix + [name];
    SubtreeFiles(root, prefix, [name]);
  }

  lemma ExpandedApart(root: Tree, rest: seq<Waiting>, prefix: Path, tree: Tree, subtrees: seq<Waiting>,
                      files: map<Path, Entry>)
    requires Apart(rest + [(prefix, tree)]) && Placed(root, rest + [(prefix, tree)])
             && Expanded(prefix, tree, subtrees, files)
    ensures Apart(rest + subtrees) && Placed(root, rest + subtrees)
  {
    var before, after := rest + [(prefix, tree)], rest + subtrees;
    assert before[|rest|] == (prefix, tree);
    forall i | 0 <= i < |after| ensures Subtree(root, after[i].0) == Some(after[i].1) {
      if i < |rest| { assert before[i] == after[i]; } else { ChildPlaced(root, prefix, tree, after[i]); }
    }
    forall i, j | 0 <= i < |after| && 0 <= j < |after| && i != j ensures !(after[i].0 <= after[j].0) {
      if i < |rest| && j < |rest| {
        assert before[i] == after[i] && before[j] == after[j];
      } else if i < |rest| {
        assert before[i] == after[i] && IsChild(prefix, tree, after[j]);
        ChildApart(before[i].0, prefix, after[j].0);
      } else if j < |rest| {
        assert before[j] == after[j];
        assert IsChild(prefix, tree, after[i]);
      } else {
        var one, other := subtrees[i - |rest|], subtrees[j - |rest|];
        assert IsChild(prefix, tree, one) && IsChild(prefix, tree, other) && one.0 != other.0;
      }
    }
  }

  lemma ChildApart(other: Path, prefix: Path, child: Path)
    requires !(other <= prefix) && !(prefix <= other) && prefix <= child && |child| == |prefix| + 1
    ensures !(other <= child)
  {
    assert other <= child && |other| <= |prefix| ==> other <= prefix;
    assert other <= child && |other| > |prefix| ==> other == child;
  }

  lemma ExpandedFound(root: Tree, rest: seq<Waiting>, prefix: Path, tree: Tree, subtrees: seq<Waiting>,
                      files: map<Path, Entry>, out: map<Path, Entry>)
    requires Subtree(root, prefix) == Some(tree) && Expanded(prefix, tree, subtrees, files)
    requires Found(root, rest + [(prefix, tree)], out)
    ensures Found(root, rest + subtrees, out + files)
  {
    forall path | path in files ensures FileAt(root, path) == Some(files[path]) {
      SubtreeFiles(root, prefix, path[|prefix|..]);
      assert prefix + path[|prefix|..] == path;
    }
    forall path | FileAt(root, path).Some? ensures path in out + files || Under(rest + subtrees, path) {
      if path !in out {
        var before := rest + [(prefix, tree)];
        var i :| 0 <= i < |before| && before[i].0 <= path;
        if i < |rest| {
          assert (rest + subtrees)[i].0 <= path;
        } else {
          FoundBelow(root, rest, prefix, tree, subtrees, files, path);
        }
      }
    }
  }

  lemma FoundBelow(root: Tree, rest: seq<Waiting>, prefix: Path, tree: Tree, subtrees: seq<Waiting>,
                   files: map<Path, Entry>, path: Path)
    requires Subtree(root, prefix) == Some(tree) && Expanded(prefix, tree, subtrees, files)
    requires prefix <= path && FileAt(root, path).Some?
    ensures path in files || Under(rest + subtrees, path)
  {
    var below := path[|prefix|..];
    assert prefix + below == path;
    SubtreeFiles(root, prefix, below);
    assert below != [];
    if |below| > 1 {
      var name := below[0];
      assert name in tree.entries && tree.entries[name].Sub?;
      var child := (prefix + [name], tree.entries[name].tree);
      var k :| 0 <= k < |subtrees| && subtrees[k] == child;
      assert (rest + subtrees)[|rest| + k].0 <= path;
    }
  }

  lemma ExpandedFewer(root: Tree, rest: seq<Waiting>, prefix: Path, tree: Tree, subtrees: seq<Waiting>,
                      files: map<Path, Entry>)
    requires Apart(rest + [(prefix, tree)]) && Placed(root, rest + [(prefix, tree)])
             && Expanded(prefix, tree, subtrees, files)
    ensures |Left(root, rest + subtrees)| < |Left(root, rest + [(prefix, tree)])|
  {
    var before, after := rest + [(prefix, tree)], rest + subtrees;
    assert before[|rest|] == (prefix, tree);
    SubtreePathsAre(root, prefix);
    assert prefix in Left(root, before);
    forall path | path in Left(root, after) ensures path in Left(root, before) && path != prefix {
      var i :| 0 <= i < |after| && after[i].0 <= path;
      if i < |rest| {
        assert before[i] == after[i];
      } else {
        assert IsChild(prefix, tree, after[i]);
        assert before[|rest|].0 <= path;
      }
    }
    assert Left(root, after) <= Left(root, before) - {prefix};
    SubsetSize(Left(root, after), Left(root, before) - {prefix});
  }

  /** Every file under `tree` by path. */
  method Files(tree: Tree) returns (out: map<Path, Entry>)
    ensures forall path :: path in out <==> FileAt(tree, path).Some?
    ensures forall path | path in out :: FileAt(tree, path) == Some(out[path])
  {
    out := map[];
    var stack: seq<Waiting> := [([], tree)];
    forall path ensures Under(stack, path) { assert stack[0].0 <= path; }
    while stack != []
      invariant Apart(stack) && Placed(tree, stack)
      invariant Found(tree, stack, out)
      decreases |Left(tree, stack)|
    {
      var rest := stack[..|stack| - 1];
      var (prefix, at) := stack[|stack| - 1];
      assert stack == rest + [(prefix, at)];
      var subtrees, files := Expand(prefix, at);
      ExpandedApart(tree, rest, prefix, at, subtrees, files);
      ExpandedFound(tree, rest, prefix, at, subtrees, files, out);
      ExpandedFewer(tree, rest, prefix, at, subtrees, files);
      stack, out := rest + subtrees, out + files;
    }
  }

  // ---- what differs -----------------------------------------------------------------------------

  function FileOf(tree: Option<Tree>, path: Path): Option<Entry> {
    if tree.None? then None else FileAt(tree.value, path)
  }

  function EntryOf(tree: Option<Tree>, name: Name): Option<Entry> {
    if tree.Some? && name in tree.value.entries then Some(tree.value.entries[name]) else None
  }

  function TreeOf(entry: Option<Entry>): Option<Tree> {
    if entry.Some? && entry.value.Sub? then Some(entry.value.tree) else None
  }

  /** The paths under `prefix` whose files differ, each once. */
  ghost predicate ListsChanges(prefix: Path, left: Option<Tree>, right: Option<Tree>, out: seq<Path>) {
    && Distinct(out)
    && forall path ::
         path in out <==> prefix <= path && FileOf(left, path[|prefix|..]) != FileOf(right, path[|prefix|..])
  }

  ghost function HeightOf(tree: Option<Tree>): nat { if tree.None? then 0 else Height(tree.value) }

  /** The paths at or under one name whose files differ, each once. */
  ghost predicate ListsChangesAt(path: Path, left: Option<Entry>, right: Option<Entry>, out: seq<Path>) {
    && Distinct(out)
    && forall other ::
         other in out <==> path <= other && FileIn(left, other[|path|..]) != FileIn(right, other[|path|..])
  }

  method DiffEntry(path: Path, left: Option<Entry>, right: Option<Entry>) returns (out: seq<Path>)
    ensures ListsChangesAt(path, left, right, out)
    decreases HeightOf(TreeOf(left)) + HeightOf(TreeOf(right)), 1
  {
    if left == right { return []; }
    out := [];
    if TreeOf(left).Some? || TreeOf(right).Some? { out := DiffInto(path, TreeOf(left), TreeOf(right)); }
    assert forall other | path <= other :: other[|path|..] == [] <==> other == path;
    var leftFile := if TreeOf(left).Some? then None else left;
    var rightFile := if TreeOf(right).Some? then None else right;
    assert path !in out by {
      assert path[|path|..] == [];
    }
    if leftFile != rightFile { out := out + [path]; }
  }

  /** Every name on either side, once. */
  function NamesIn(left: Option<Tree>, right: Option<Tree>): (names: seq<Name>)
    ensures Distinct(names) && forall name :: name in names <==> EntryOf(left, name).Some? || EntryOf(right, name).Some?
  {
    SortedBy((if left.Some? then left.value.entries.Keys else {}) +
             (if right.Some? then right.value.entries.Keys else {}),
             name => Key(0, "", name))
  }

  /** Left and right walked together, not descending into what is equal. */
  method DiffInto(prefix: Path, left: Option<Tree>, right: Option<Tree>) returns (out: seq<Path>)
    ensures ListsChanges(prefix, left, right, out)
    decreases HeightOf(left) + HeightOf(right), 0
  {
    if left == right { return []; }
    var names := NamesIn(left, right);
    out := [];
    var i := 0;
    while i < |names|
      invariant 0 <= i <= |names|
      invariant ListsChanged(prefix, left, right, names[..i], out)
    {
      var name := names[i];
      var more := DiffEntry(prefix + [name], EntryOf(left, name), EntryOf(right, name));
      ChangedMore(prefix, left, right, names, i, out, more);
      out := out + more;
      i := i + 1;
    }
    assert names[..i] == names;
    ChangedAll(prefix, left, right, names, out);
  }

  lemma ChangedMore(prefix: Path, left: Option<Tree>, right: Option<Tree>, names: seq<Name>, i: nat, out: seq<Path>,
                    more: seq<Path>)
    requires i < |names| && Distinct(names) && ListsChanged(prefix, left, right, names[..i], out)
    requires ListsChangesAt(prefix + [names[i]], EntryOf(left, names[i]), EntryOf(right, names[i]), more)
    ensures ListsChanged(prefix, left, right, names[..i + 1], out + more)
  {
    var here := prefix + [names[i]];
    forall path ensures path in more <==> Changed(prefix, left, right, [names[i]], path) {
      OneName(prefix, left, right, names[i], path);
    }
    assert names[..i + 1] == names[..i] + [names[i]];
    forall j, k | 0 <= j < |out| && 0 <= k < |more| ensures out[j] != more[k] {
      assert out[j] in out && more[k] in more;
      assert Changed(prefix, left, right, names[..i], out[j]) && Changed(prefix, left, right, [names[i]], more[k]);
    }
    assert Distinct(out + more);
  }

  lemma OneName(prefix: Path, left: Option<Tree>, right: Option<Tree>, name: Name, path: Path)
    ensures Changed(prefix, left, right, [name], path) <==>
              prefix + [name] <= path
              && FileIn(EntryOf(left, name), path[|prefix| + 1..]) != FileIn(EntryOf(right, name), path[|prefix| + 1..])
  {
    if |prefix| < |path| && prefix <= path {
      var below := path[|prefix|..];
      assert below[1..] == path[|prefix| + 1..];
      if below[0] == name {
        assert prefix + [name] <= path;
        FileBelow(left, below);
        FileBelow(right, below);
      }
    }
    if prefix + [name] <= path { assert path[|prefix|] == name && prefix <= path; }
  }

  lemma FileBelow(tree: Option<Tree>, path: Path)
    requires path != []
    ensures FileOf(tree, path) == FileIn(EntryOf(tree, path[0]), path[1..])
  {
  }

  lemma ChangedAll(prefix: Path, left: Option<Tree>, right: Option<Tree>, names: seq<Name>, out: seq<Path>)
    requires ListsChanged(prefix, left, right, names, out)
    requires forall name :: name in names <==> EntryOf(left, name).Some? || EntryOf(right, name).Some?
    ensures ListsChanges(prefix, left, right, out)
  {
    forall path
      ensures path in out <==> prefix <= path && FileOf(left, path[|prefix|..]) != FileOf(right, path[|prefix|..])
    {
      if prefix <= path && FileOf(left, path[|prefix|..]) != FileOf(right, path[|prefix|..]) {
        var below := path[|prefix|..];
        assert below != [];
        FileBelow(left, below);
        FileBelow(right, below);
      }
    }
  }

  ghost predicate ListsChanged(prefix: Path, left: Option<Tree>, right: Option<Tree>, names: seq<Name>, out: seq<Path>)
  {
    Distinct(out) && forall path :: path in out <==> Changed(prefix, left, right, names, path)
  }

  /** A changed path whose next name is among `names`. */
  ghost predicate Changed(prefix: Path, left: Option<Tree>, right: Option<Tree>, names: seq<Name>, path: Path) {
    && |prefix| < |path| && prefix <= path && path[|prefix|] in names
    && FileOf(left, path[|prefix|..]) != FileOf(right, path[|prefix|..])
  }
}
