/** Git objects, each standing for all of its content. */
module Objects {
  // Git objects as compose and split read and write them.
  //
  // An object's id stands for its content, so an id is modelled by the content
  // itself: two trees or commits are equal exactly when their ids are. A commit
  // covers its tree, its parents and every commit its tree pins, so all of these
  // are structurally smaller than it.
  //
  // A byte is a `char`, so a theorem about every `Bytes` covers every byte string.

  import opened Wrappers

  type Bytes = string
  type Name = string
  type Path = seq<Name>  // the empty path is `.`

  datatype Commit = Commit(
    tree: Tree,
    parents: seq<Commit>,
    author: Bytes,
    committer: Bytes,
    headers: Bytes,
    message: Bytes)

  /** A commit that says nothing beside its tree and parents. */
  function Silent(tree: Tree, parents: seq<Commit>): Commit { Commit(tree, parents, "", "", "", "") }

  // A subtree, a file (its mode says which kind), or a gitlink.
  datatype Entry = Sub(tree: Tree) | Blob(mode: Bytes, data: Bytes) | Link(commit: Commit)

  datatype Tree = Tree(entries: map<Name, Entry>)

  const EMPTY := Tree(map[])

  // ---- reading -------------------------------------------------------------

  /** Following `path` down from `tree`, which stands at the empty path. */
  function EntryAt(tree: Tree, path: Path): (found: Option<Entry>)
    ensures found.Some? && found.value.Sub? ==> found.value.tree == tree || found.value.tree < tree
    decreases |path|
  {
    if path == [] then Some(Sub(tree))
    else if path[0] !in tree.entries then None
    else
      var entry := tree.entries[path[0]];
      if |path| == 1 then Some(entry)
      else if entry.Sub? then EntryAt(entry.tree, path[1..])
      else None
  }

  /** `EntryAt` where it is a tree and not a file or a link. */
  function Subtree(tree: Tree, path: Path): (found: Option<Tree>)
    ensures found.Some? ==> found.value == tree || found.value < tree
  {
    var found := EntryAt(tree, path);
    if found.Some? && found.value.Sub? then Some(found.value.tree) else None
  }

  /** The file at `path`: a blob, a link to a commit, anything but a subtree. */
  function FileAt(tree: Tree, path: Path): Option<Entry> {
    var found := EntryAt(tree, path);
    if found.Some? && !found.value.Sub? then found else None
  }

  // ---- writing -------------------------------------------------------------

  /**
   One entry written at `path`, or taken away for `None`. Trees are made on the
   way down as needed, in place of files if there are any; one with nothing in
   it is never kept.
   */
  function SetPath(tree: Tree, path: Path, entry: Option<Entry>): Tree
    requires path != []
    decreases |path|
  {
    var name := path[0];
    if |path| == 1 then
      if entry.Some? then Tree(tree.entries[name := entry.value]) else Tree(tree.entries - {name})
    else
      var there := name in tree.entries && tree.entries[name].Sub?;
      if !there && entry.None? then tree
      else
        var below := SetPath(if there then tree.entries[name].tree else EMPTY, path[1..], entry);
        if below == EMPTY then Tree(tree.entries - {name}) else Tree(tree.entries[name := Sub(below)])
  }

  /** Both trees' entries: where a name is in both, trees are combined and otherwise `top` has it. */
  function Overlay(base: Tree, top: Tree): Tree
    decreases top
  {
    Tree(map name | name in base.entries.Keys + top.entries.Keys ::
      if name !in top.entries then base.entries[name]
      else if name in base.entries && base.entries[name].Sub? && top.entries[name].Sub?
      then Sub(Overlay(base.entries[name].tree, top.entries[name].tree))
      else top.entries[name])
  }

  // ---- what trees mean -----------------------------------------------------

  /** No empty subtree at any level: every tree Git stores from files. */
  ghost predicate Clean(tree: Tree) {
    forall name | name in tree.entries && tree.entries[name].Sub? ::
      tree.entries[name].tree != EMPTY && Clean(tree.entries[name].tree)
  }

  ghost predicate CleanEntry(entry: Entry) {
    entry.Sub? ==> entry.tree != EMPTY && Clean(entry.tree)
  }

  ghost predicate SameFiles(left: Tree, right: Tree) {
    forall path :: FileAt(left, path) == FileAt(right, path)
  }

  /** A clean tree that is not empty holds a file. */
  lemma {:induction false} SomeFile(tree: Tree) returns (path: Path)
    requires Clean(tree) && tree != EMPTY
    ensures FileAt(tree, path).Some?
  {
    assert tree.entries != map[];
    var name :| name in tree.entries;
    path := [name];
    if tree.entries[name].Sub? {
      var rest := SomeFile(tree.entries[name].tree);
      path := [name] + rest;
      assert path[1..] == rest;
    }
  }

  /** Clean trees with the same files are the same tree: a tree's id is its files. */
  lemma {:induction false} FilesDecide(left: Tree, right: Tree)
    requires Clean(left) && Clean(right) && SameFiles(left, right)
    ensures left == right
    decreases left
  {
    forall name | name in left.entries
      ensures name in right.entries && left.entries[name] == right.entries[name]
    {
      if left.entries[name].Sub? {
        FilesDecideBelow(left, right, name);
        var l, r := left.entries[name].tree, right.entries[name].tree;
        forall path ensures FileAt(l, path) == FileAt(r, path) {
          if path != [] {
            assert ([name] + path)[1..] == path;
            assert FileAt(left, [name] + path) == FileAt(right, [name] + path);
          }
        }
        FilesDecide(l, r);
      } else {
        assert FileAt(left, [name]) == FileAt(right, [name]);
      }
    }
    forall name | name in right.entries
      ensures name in left.entries
    {
      if right.entries[name].Sub? {
        FilesDecideBelow(right, left, name);
      } else {
        assert FileAt(left, [name]) == FileAt(right, [name]);
      }
    }
  }

  lemma FilesDecideBelow(left: Tree, right: Tree, name: Name)
    requires Clean(left) && SameFiles(left, right)
    requires name in left.entries && left.entries[name].Sub?
    ensures name in right.entries && right.entries[name].Sub?
  {
    var rest := SomeFile(left.entries[name].tree);
    var path := [name] + rest;
    assert path[1..] == rest;
    assert FileAt(left, path) == FileAt(right, path);
  }

  lemma PrefixTails(left: Path, right: Path)
    requires left != [] && right != [] && left[0] == right[0]
    ensures left[1..] <= right[1..] <==> left <= right
  {
    assert left == [left[0]] + left[1..] && right == [right[0]] + right[1..];
  }

  /** What `entry`, put somewhere, holds at `path` relative to there. */
  function FileIn(entry: Option<Entry>, path: Path): Option<Entry> {
    if entry.None? then None
    else if entry.value.Sub? then FileAt(entry.value.tree, path)
    else if path == [] then entry else None
  }

  /**
   `set_path` changes the files exactly at and under `path`, and on the way to
   it: a file there gives way to the subtree something is put in.
   */
  lemma {:induction false} SetPathFiles(tree: Tree, path: Path, entry: Option<Entry>, at: Path)
    requires path != [] && (entry.Some? ==> CleanEntry(entry.value))
    ensures FileAt(SetPath(tree, path, entry), at) ==
            if path <= at then FileIn(entry, at[|path|..])
            else if at < path && entry.Some? then None
            else FileAt(tree, at)
    decreases |path|
  {
    if at != [] && |path| > 1 && at[0] == path[0] {
      var there := path[0] in tree.entries && tree.entries[path[0]].Sub?;
      if there || entry.Some? {
        var below := if there then tree.entries[path[0]].tree else EMPTY;
        if |at| > 1 {
          SetPathFiles(below, path[1..], entry, at[1..]);
          PrefixTails(path, at);
          PrefixTails(at, path);
          if path <= at { assert at[1..][|path[1..]|..] == at[|path|..]; }
        } else if entry.Some? {
          SetPathSome(below, path[1..], entry.value);
        }
      }
    }
  }

  lemma {:induction false} SetPathSome(tree: Tree, path: Path, entry: Entry)
    requires path != []
    ensures SetPath(tree, path, Some(entry)) != EMPTY
    decreases |path|
  {
    assert path[0] in SetPath(tree, path, Some(entry)).entries by {
      if |path| > 1 {
        SetPathSome(if path[0] in tree.entries && tree.entries[path[0]].Sub? then tree.entries[path[0]].tree else EMPTY,
                    path[1..], entry);
      }
    }
  }

  /** `set_path` leaves no empty subtree. */
  lemma {:induction false} SetPathClean(tree: Tree, path: Path, entry: Option<Entry>)
    requires Clean(tree) && path != [] && (entry.Some? ==> CleanEntry(entry.value))
    ensures Clean(SetPath(tree, path, entry))
    decreases |path|
  {
    if |path| > 1 {
      var there := path[0] in tree.entries && tree.entries[path[0]].Sub?;
      if there || entry.Some? {
        SetPathClean(if there then tree.entries[path[0]].tree else EMPTY, path[1..], entry);
      }
    }
  }

  /** Entries off `path` are left as they were, subtrees included. */
  lemma {:induction false} SetPathElsewhere(tree: Tree, path: Path, entry: Option<Entry>, at: Path)
    requires path != [] && !(path <= at) && !(at <= path)
    ensures EntryAt(SetPath(tree, path, entry), at) == EntryAt(tree, at)
    decreases |path|
  {
    if |path| > 1 && at[0] == path[0] {
      var there := path[0] in tree.entries && tree.entries[path[0]].Sub?;
      if there || entry.Some? {
        var below := if there then tree.entries[path[0]].tree else EMPTY;
        PrefixTails(path, at);
        PrefixTails(at, path);
        SetPathElsewhere(below, path[1..], entry, at[1..]);
      }
    }
  }

  /** What was put at `path` is there. */
  lemma {:induction false} SetPathThere(tree: Tree, path: Path, entry: Entry)
    requires path != []
    ensures EntryAt(SetPath(tree, path, Some(entry)), path) == Some(entry)
    decreases |path|
  {
    if |path| > 1 {
      var there := path[0] in tree.entries && tree.entries[path[0]].Sub?;
      var below := if there then tree.entries[path[0]].tree else EMPTY;
      SetPathThere(below, path[1..], entry);
      SetPathSome(below, path[1..], entry);
    }
  }

  /** Whether laying `top` over something decides what is at `path`. */
  ghost predicate Covers(top: Tree, path: Path)
    decreases |path|
  {
    && path != []
    && path[0] in top.entries
    && (|path| == 1 || !top.entries[path[0]].Sub? || Covers(top.entries[path[0]].tree, path[1..]))
  }

  /** `top` covers a path exactly when it has a file at, above or below it. */
  lemma {:induction false} CoversMeansFile(top: Tree, path: Path)
    requires Clean(top) && path != []
    ensures Covers(top, path) <==> exists at :: FileAt(top, at).Some? && (at <= path || path <= at)
    decreases |path|
  {
    var name := path[0];
    if Covers(top, path) {
      if !top.entries[name].Sub? {
        assert FileAt(top, [name]).Some? && [name] <= path;
      } else if |path| == 1 {
        var rest := SomeFile(top.entries[name].tree);
        assert ([name] + rest)[1..] == rest;
        assert FileAt(top, [name] + rest).Some? && path <= [name] + rest;
      } else {
        CoversMeansFile(top.entries[name].tree, path[1..]);
        var at :| FileAt(top.entries[name].tree, at).Some? && (at <= path[1..] || path[1..] <= at);
        assert at != [];
        assert ([name] + at)[1..] == at;
        assert path == [name] + path[1..];
        assert FileAt(top, [name] + at).Some? && ([name] + at <= path || path <= [name] + at);
      }
    }
    if at :| FileAt(top, at).Some? && (at <= path || path <= at) {
      assert at != [] && at[0] == name;
      if |path| > 1 && top.entries[name].Sub? {
        assert at[1..] <= path[1..] || path[1..] <= at[1..];
        assert FileAt(top.entries[name].tree, at[1..]).Some?;
        CoversMeansFile(top.entries[name].tree, path[1..]);
      }
    }
  }

  lemma {:induction false} NotCovered(top: Tree, path: Path)
    requires !Covers(top, path)
    ensures FileAt(top, path).None?
    decreases |path|
  {
    if |path| > 1 && path[0] in top.entries && top.entries[path[0]].Sub? {
      NotCovered(top.entries[path[0]].tree, path[1..]);
    }
  }

  /** `overlay` gives `top`'s files wherever `top` covers, and `base`'s elsewhere. */
  lemma {:induction false} OverlayFiles(base: Tree, top: Tree, at: Path)
    ensures FileAt(Overlay(base, top), at) == if Covers(top, at) then FileAt(top, at) else FileAt(base, at)
    decreases |at|
  {
    if at != [] && at[0] in base.entries.Keys + top.entries.Keys {
      var name := at[0];
      var merged := Overlay(base, top).entries;
      assert name in merged;
      if !Covers(top, at) { NotCovered(top, at); }
      if name in base.entries && name in top.entries && base.entries[name].Sub? && top.entries[name].Sub? {
        assert merged[name] == Sub(Overlay(base.entries[name].tree, top.entries[name].tree));
        if |at| > 1 {
          OverlayFiles(base.entries[name].tree, top.entries[name].tree, at[1..]);
        }
      }
    }
  }

  lemma {:induction false} OverlayClean(base: Tree, top: Tree)
    requires Clean(base) && Clean(top)
    ensures Clean(Overlay(base, top))
    ensures top != EMPTY ==> Overlay(base, top) != EMPTY
    decreases top
  {
    var merged := Overlay(base, top);
    forall name | name in merged.entries && merged.entries[name].Sub?
      ensures merged.entries[name].tree != EMPTY && Clean(merged.entries[name].tree)
    {
      if name in top.entries && name in base.entries && base.entries[name].Sub? && top.entries[name].Sub? {
        OverlayClean(base.entries[name].tree, top.entries[name].tree);
      }
    }
    if top != EMPTY {
      assert top.entries != map[];
      var name :| name in top.entries;
      assert name in merged.entries;
    }
  }

  /** A clean tree with no file at or under `path` has no subtree there. */
  lemma {:induction false} NoFilesNoSubtree(tree: Tree, path: Path)
    requires Clean(tree) && path != []
    requires forall rest :: FileAt(tree, path + rest).None?
    ensures EntryAt(tree, path).None?
    decreases |path|
  {
    assert path + [] == path;
    if path[0] in tree.entries && tree.entries[path[0]].Sub? {
      var below := tree.entries[path[0]].tree;
      if |path| == 1 {
        var rest := SomeFile(below);
        assert (path + rest)[1..] == rest;
        assert EntryAt(tree, path + rest) == EntryAt(below, rest);
      } else {
        forall rest ensures FileAt(below, path[1..] + rest).None? {
          assert (path + rest)[1..] == path[1..] + rest;
          assert FileAt(tree, path + rest).None?;
        }
        NoFilesNoSubtree(below, path[1..]);
      }
    } else {
      assert FileAt(tree, path + []).None?;
    }
  }

  /** The files of a subtree are the tree's, relative to it. */
  lemma {:induction false} SubtreeFiles(tree: Tree, path: Path, rest: Path)
    requires Subtree(tree, path).Some?
    ensures EntryAt(tree, path + rest) == EntryAt(Subtree(tree, path).value, rest)
    decreases |path|
  {
    if path == [] {
      assert path + rest == rest;
    } else {
      assert (path + rest)[1..] == path[1..] + rest;
      if |path| == 1 {
        if rest == [] { assert path + rest == path; }
      } else {
        SubtreeFiles(tree.entries[path[0]].tree, path[1..], rest);
      }
    }
  }

  lemma {:induction false} SubtreeClean(tree: Tree, path: Path)
    requires Clean(tree) && path != [] && Subtree(tree, path).Some?
    ensures Clean(Subtree(tree, path).value) && Subtree(tree, path).value != EMPTY
    decreases |path|
  {
    if |path| > 1 {
      SubtreeClean(tree.entries[path[0]].tree, path[1..]);
    }
  }

  /** Nothing lies under a path where no subtree is, bar a file exactly there. */
  lemma {:induction false} NoSubtreeNoFiles(tree: Tree, path: Path, rest: Path)
    requires Subtree(tree, path).None? && rest != []
    ensures EntryAt(tree, path + rest).None?
    decreases |path|
  {
    assert path != [];
    assert (path + rest)[1..] == path[1..] + rest;
    if path[0] in tree.entries && tree.entries[path[0]].Sub? && |path| > 1 {
      NoSubtreeNoFiles(tree.entries[path[0]].tree, path[1..], rest);
    }
  }

  /** A path above something is a subtree. */
  lemma {:induction false} AboveIsSubtree(tree: Tree, path: Path, rest: Path)
    requires rest != [] && EntryAt(tree, path + rest).Some?
    ensures Subtree(tree, path).Some?
  {
    if Subtree(tree, path).None? { NoSubtreeNoFiles(tree, path, rest); }
  }

  // ---- how deep trees go ---------------------------------------------------

  ghost function MaxOf(numbers: set<nat>): (most: nat)
    ensures forall number | number in numbers :: number <= most
    ensures most in numbers || (numbers == {} && most == 0)
  {
    if numbers == {} then 0
    else
      var number :| number in numbers;
      var rest := MaxOf(numbers - {number});
      assert numbers == (numbers - {number}) + {number};
      if number > rest then number else rest
  }

  ghost function Height(tree: Tree): (height: nat)
    ensures forall name | name in tree.entries && tree.entries[name].Sub? :: Height(tree.entries[name].tree) < height
  {
    var below := set name | name in tree.entries && tree.entries[name].Sub? :: Height(tree.entries[name].tree);
    assert forall name | name in tree.entries && tree.entries[name].Sub? :: Height(tree.entries[name].tree) in below;
    1 + MaxOf(below)
  }

  lemma HeightAtMost(tree: Tree, height: nat)
    requires height > 0
    requires forall name | name in tree.entries && tree.entries[name].Sub? :: Height(tree.entries[name].tree) < height
    ensures Height(tree) <= height
  {
  }

  /** Removing or lowering one entry makes no tree deeper. */
  lemma LoweredHeight(tree: Tree, name: Name, lowered: Tree)
    requires name in tree.entries && tree.entries[name].Sub? && Height(lowered) <= Height(tree.entries[name].tree)
    ensures Height(Tree(tree.entries[name := Sub(lowered)])) <= Height(tree)
  {
    HeightAtMost(Tree(tree.entries[name := Sub(lowered)]), Height(tree));
  }

  lemma RemovedHeight(tree: Tree, name: Name)
    ensures Height(Tree(tree.entries - {name})) <= Height(tree)
  {
    HeightAtMost(Tree(tree.entries - {name}), Height(tree));
  }

  lemma {:induction false} RemovalHeight(tree: Tree, path: Path)
    requires path != []
    ensures Height(SetPath(tree, path, None)) <= Height(tree)
    decreases |path|
  {
    var name := path[0];
    if |path| == 1 {
      RemovedHeight(tree, name);
    } else if name in tree.entries && tree.entries[name].Sub? {
      var below := tree.entries[name].tree;
      RemovalHeight(below, path[1..]);
      var lowered := SetPath(below, path[1..], None);
      if lowered == EMPTY {
        RemovedHeight(tree, name);
      } else {
        LoweredHeight(tree, name, lowered);
      }
    }
  }

  lemma {:induction false} SubtreeHeight(tree: Tree, path: Path)
    requires path != [] && Subtree(tree, path).Some?
    ensures Height(Subtree(tree, path).value) < Height(tree)
    decreases |path|
  {
    if |path| > 1 {
      SubtreeHeight(tree.entries[path[0]].tree, path[1..]);
    }
  }
}
