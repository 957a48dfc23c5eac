/** Mounts share a tree out between them. */
module Partition {
  // Splitting a tree among children that own their whole mounts is a partition of
  // its files, and grafting the parts back, shallowest first, restores it.

  import opened Wrappers
  import opened Objects
  import opened Order
  import opened Compose
  import opened Split

  // ---- who owns a file ----------------------------------------------------------

  ghost predicate DistinctMounts(mounts: map<Name, Path>) {
    && (forall name | name in mounts :: mounts[name] != [])
    && (forall a, b | a in mounts && b in mounts && a != b :: mounts[a] != mounts[b])
  }

  /** `name` has the deepest mount at or above `path`. */
  ghost predicate Owns(mounts: map<Name, Path>, name: Name, path: Path) {
    && name in mounts && mounts[name] <= path
    && forall other | other in mounts && mounts[other] <= path :: |mounts[other]| <= |mounts[name]|
  }

  /** No mount is at or above `path`: it stays with the tracker itself. */
  ghost predicate Unmounted(mounts: map<Name, Path>, path: Path) {
    forall name | name in mounts :: !(mounts[name] <= path)
  }

  lemma Nested(left: Path, right: Path, path: Path)
    requires left <= path && right <= path
    ensures |left| <= |right| ==> left <= right
    ensures |left| == |right| ==> left == right
  {
    assert left == path[..|left|] && right == path[..|right|];
  }

  lemma Rejoined(above: Path, path: Path)
    requires above <= path
    ensures above + path[|above|..] == path
  {
  }

  lemma OneOwner(mounts: map<Name, Path>, a: Name, b: Name, path: Path)
    requires DistinctMounts(mounts) && Owns(mounts, a, path) && Owns(mounts, b, path)
    ensures a == b
  {
    Nested(mounts[a], mounts[b], path);
  }

  lemma {:induction false} SomeOwner(mounts: map<Name, Path>, name: Name, path: Path) returns (owner: Name)
    requires name in mounts && mounts[name] <= path
    ensures Owns(mounts, owner, path)
    decreases |path| - |mounts[name]|
  {
    if other :| other in mounts && mounts[other] <= path && |mounts[other]| > |mounts[name]| {
      owner := SomeOwner(mounts, other, path);
    } else {
      owner := name;
    }
  }

  // ---- taking parts out -----------------------------------------------------------

  lemma {:induction false} TrimmedFiles(part: Option<Tree>, mount: Path, children: map<Name, Path>, order: seq<Name>,
                                        rest: Path)
    requires forall name | name in order :: name in children
    ensures FileAt(Trimmed(part, mount, children, order).Or(EMPTY), rest) ==
            if exists name | name in order :: Inside(children[name], mount) && children[name] <= mount + rest then None
            else FileAt(part.Or(EMPTY), rest)
    decreases |order|
  {
    if order != [] {
      var other := children[order[0]];
      assert order == [order[0]] + order[1..];
      if part.Some? && Inside(other, mount) {
        var inner := other[|mount|..];
        var trimmed := SetPath(part.value, inner, None);
        TrimmedFiles(if trimmed == EMPTY then None else Some(trimmed), mount, children, order[1..], rest);
        SetPathFiles(part.value, inner, None, rest);
        assert other == mount + inner;
        assert inner <= rest <==> other <= mount + rest by {
          if inner <= rest { assert mount + rest == other + rest[|inner|..]; }
          if other <= mount + rest {
            assert inner == (mount + rest)[|mount|..][..|inner|] && (mount + rest)[|mount|..] == rest;
          }
        }
      } else {
        TrimmedFiles(part, mount, children, order[1..], rest);
      }
    }
  }

  lemma {:induction false} TrimmedClean(part: Option<Tree>, mount: Path, children: map<Name, Path>, order: seq<Name>)
    requires forall name | name in order :: name in children
    requires part.Some? ==> Clean(part.value) && part.value != EMPTY
    ensures var trimmed := Trimmed(part, mount, children, order);
            trimmed.Some? ==> Clean(trimmed.value) && trimmed.value != EMPTY
    decreases |order|
  {
    if order != [] {
      var other := children[order[0]];
      if part.Some? && Inside(other, mount) {
        var inner := other[|mount|..];
        SetPathClean(part.value, inner, None);
        var trimmed := SetPath(part.value, inner, None);
        TrimmedClean(if trimmed == EMPTY then None else Some(trimmed), mount, children, order[1..]);
      } else {
        TrimmedClean(part, mount, children, order[1..]);
      }
    }
  }

  /** A child's part holds, relative to its mount, exactly the files it owns. */
  lemma PartFiles(tree: Tree, children: map<Name, Path>, name: Name, rest: Path)
    requires Clean(tree) && DistinctMounts(children) && name in children
    requires FileAt(tree, children[name]).None?
    ensures FileAt(PartOf(tree, children, name).Or(EMPTY), rest) ==
            if Owns(children, name, children[name] + rest) then FileAt(tree, children[name] + rest) else None
  {
    var mount, order := children[name], DeepestFirst(children);
    var path := mount + rest;
    TrimmedFiles(Subtree(tree, mount), mount, children, order, rest);
    if Subtree(tree, mount).Some? {
      SubtreeFiles(tree, mount, rest);
    } else if rest != [] {
      NoSubtreeNoFiles(tree, mount, rest);
    } else {
      assert path == mount;
    }
    if other :| other in order && Inside(children[other], mount) && children[other] <= path {
      assert !Owns(children, name, path);
    } else {
      forall other | other in children && children[other] <= path ensures |children[other]| <= |mount| {
        Nested(mount, children[other], path);
        assert other in order && !Inside(children[other], mount);
      }
    }
  }

  lemma PartClean(tree: Tree, children: map<Name, Path>, name: Name)
    requires Clean(tree) && name in children && children[name] != []
    ensures Clean(PartOf(tree, children, name).Or(EMPTY))
    ensures PartOf(tree, children, name).Some? ==> PartOf(tree, children, name).value != EMPTY
  {
    if Subtree(tree, children[name]).Some? { SubtreeClean(tree, children[name]); }
    TrimmedClean(Subtree(tree, children[name]), children[name], children, DeepestFirst(children));
  }

  lemma {:induction false} WithoutMountsFiles(own: Tree, children: map<Name, Path>, order: seq<Name>, path: Path)
    requires forall name | name in order :: name in children && children[name] != []
    ensures FileAt(WithoutMounts(own, children, order), path) ==
            if exists name | name in order :: children[name] <= path then None else FileAt(own, path)
    decreases |order|
  {
    if order != [] {
      assert order == [order[0]] + order[1..];
      SetPathFiles(own, children[order[0]], None, path);
      WithoutMountsFiles(SetPath(own, children[order[0]], None), children, order[1..], path);
    }
  }

  lemma {:induction false} WithoutMountsClean(own: Tree, children: map<Name, Path>, order: seq<Name>)
    requires Clean(own) && forall name | name in order :: name in children && children[name] != []
    ensures Clean(WithoutMounts(own, children, order))
    decreases |order|
  {
    if order != [] {
      SetPathClean(own, children[order[0]], None);
      WithoutMountsClean(SetPath(own, children[order[0]], None), children, order[1..]);
    }
  }

  /** A tracker's own part: what is left of its tree. */
  function OwnPart(tree: Tree, children: map<Name, Path>): Tree
    requires forall name | name in children :: children[name] != []
  {
    WithoutMounts(Own(tree), children, DeepestFirst(children))
  }

  /** What stays with the tracker is exactly its files under no mount, pins apart. */
  lemma OwnPartFiles(tree: Tree, children: map<Name, Path>, path: Path)
    requires forall name | name in children :: children[name] != []
    ensures FileAt(OwnPart(tree, children), path) ==
            if Unmounted(children, path) && !(PINS_DIR <= path) then FileAt(tree, path) else None
  {
    WithoutMountsFiles(Own(tree), children, DeepestFirst(children), path);
    SetPathFiles(tree, PINS_DIR, None, path);
    if !Unmounted(children, path) {
      var name :| name in children && children[name] <= path;
      assert name in DeepestFirst(children);
    }
  }

  lemma OwnPartClean(tree: Tree, children: map<Name, Path>)
    requires Clean(tree) && forall name | name in children :: children[name] != []
    ensures Clean(OwnPart(tree, children))
  {
    SetPathClean(tree, PINS_DIR, None);
    WithoutMountsClean(Own(tree), children, DeepestFirst(children));
  }

  // ---- putting them back ------------------------------------------------------------

  /** `own` and `kids` hold files of `tree`, each only files that `mounts` make its own. */
  ghost predicate TakenFrom(tree: Tree, own: Tree, mounts: map<Name, Path>, kids: map<Name, Tree>) {
    && Clean(tree) && Clean(own) && DistinctMounts(mounts)
    && (forall name | name in mounts :: name in kids && Clean(kids[name]))
    && (forall path | FileAt(own, path).Some? :: Unmounted(mounts, path) && FileAt(tree, path) == FileAt(own, path))
    && (forall name, rest | name in mounts && FileAt(kids[name], rest).Some? ::
          && Owns(mounts, name, mounts[name] + rest)
          && FileAt(tree, mounts[name] + rest) == FileAt(kids[name], rest))
  }

  /** `own` and `kids` are all of `tree`, taken apart at `mounts`. */
  ghost predicate TakenApart(tree: Tree, own: Tree, mounts: map<Name, Path>, kids: map<Name, Tree>) {
    && Clean(tree) && Clean(own) && DistinctMounts(mounts)
    && (forall name | name in mounts :: name in kids && Clean(kids[name]))
    && (forall path :: FileAt(own, path) == if Unmounted(mounts, path) then FileAt(tree, path) else None)
    && (forall name, rest | name in mounts ::
          FileAt(kids[name], rest) ==
          if Owns(mounts, name, mounts[name] + rest) then FileAt(tree, mounts[name] + rest) else None)
  }

  /** At every path `built` has its owner's file, if its owner is the tracker or among `done`. */
  ghost predicate GivenBack(built: Tree, own: Tree, mounts: map<Name, Path>, kids: map<Name, Tree>, done: set<Name>)
    requires forall name | name in mounts :: name in kids
  {
    && Clean(built)
    && (forall path | Unmounted(mounts, path) :: FileAt(built, path) == FileAt(own, path))
    && (forall name, path | Owns(mounts, name, path) ::
          FileAt(built, path) == if name in done then FileAt(kids[name], path[|mounts[name]|..]) else None)
  }

  /** `done` are children no deeper than `name`, which is next. */
  ghost predicate NextToGraft(mounts: map<Name, Path>, done: set<Name>, name: Name) {
    && name in mounts && name !in done
    && forall other | other in done :: other in mounts && |mounts[other]| <= |mounts[name]|
  }

  lemma GraftIsPut(tree: Tree, built: Tree, own: Tree, mounts: map<Name, Path>, kids: map<Name, Tree>, done: set<Name>,
                   name: Name)
    requires TakenFrom(tree, own, mounts, kids) && GivenBack(built, own, mounts, kids, done)
    requires NextToGraft(mounts, done, name)
    ensures Graft(built, mounts[name], kids[name])
            == SetPath(built, mounts[name], if kids[name] == EMPTY then None else Some(Sub(kids[name])))
  {
    var mount := mounts[name];
    forall rest ensures FileAt(built, mount + rest).None? {
      var path := mount + rest;
      var owner := SomeOwner(mounts, name, path);
      Nested(mounts[owner], mount, path);
    }
    NoFilesNoSubtree(built, mount);
  }

  /** Under a mount there is what its child has there, and a deeper owner's file is not there yet. */
  lemma GraftedUnder(tree: Tree, own: Tree, mounts: map<Name, Path>, kids: map<Name, Tree>, done: set<Name>, name: Name,
                     other: Name, path: Path)
    requires TakenFrom(tree, own, mounts, kids) && NextToGraft(mounts, done, name)
    requires mounts[name] <= path && Owns(mounts, other, path)
    ensures FileAt(kids[name], path[|mounts[name]|..])
            == if other in done + {name} then FileAt(kids[other], path[|mounts[other]|..]) else None
  {
    var mount := mounts[name];
    var rest := path[|mount|..];
    assert path == mount + rest;
    if other != name {
      Nested(mount, mounts[other], path);
      assert other !in done;
      if FileAt(kids[name], rest).Some? {
        OneOwner(mounts, name, other, path);
      }
    }
  }

  /** Above something put in there is no file of anyone. */
  lemma NoFileAbove(tree: Tree, own: Tree, mounts: map<Name, Path>, kids: map<Name, Tree>, name: Name, path: Path)
    requires TakenFrom(tree, own, mounts, kids)
    requires name in mounts && path < mounts[name] && kids[name] != EMPTY
    ensures FileAt(own, path).None?
    ensures forall other | Owns(mounts, other, path) :: FileAt(kids[other], path[|mounts[other]|..]).None?
  {
    var mount := mounts[name];
    var below := SomeFile(kids[name]);
    var rest := mount[|path|..] + below;
    assert path + rest == mount + below && FileAt(tree, mount + below).Some?;
    AboveIsSubtree(tree, path, rest);
    assert FileAt(tree, path).None?;
    forall other | Owns(mounts, other, path) ensures FileAt(kids[other], path[|mounts[other]|..]).None? {
      assert mounts[other] + path[|mounts[other]|..] == path;
    }
  }

  lemma EmptyHasNoFile(path: Path)
    ensures FileAt(EMPTY, path).None?
  {
  }

  lemma GraftGivesBack(tree: Tree, built: Tree, own: Tree, mounts: map<Name, Path>, kids: map<Name, Tree>,
                       done: set<Name>, name: Name)
    requires TakenFrom(tree, own, mounts, kids) && GivenBack(built, own, mounts, kids, done)
    requires NextToGraft(mounts, done, name)
    ensures GivenBack(Graft(built, mounts[name], kids[name]), own, mounts, kids, done + {name})
  {
    var mount, kid := mounts[name], kids[name];
    var entry := if kid == EMPTY then None else Some(Sub(kid));
    GraftIsPut(tree, built, own, mounts, kids, done, name);
    SetPathClean(built, mount, entry);
    var grafted := SetPath(built, mount, entry);
    forall path | Unmounted(mounts, path) ensures FileAt(grafted, path) == FileAt(own, path) {
      SetPathFiles(built, mount, entry, path);
      if path < mount && kid != EMPTY { NoFileAbove(tree, own, mounts, kids, name, path); }
    }
    forall other, path | Owns(mounts, other, path)
      ensures FileAt(grafted, path)
              == if other in done + {name} then FileAt(kids[other], path[|mounts[other]|..]) else None
    {
      SetPathFiles(built, mount, entry, path);
      if mount <= path {
        GraftedUnder(tree, own, mounts, kids, done, name, other, path);
        EmptyHasNoFile(path[|mount|..]);
      } else if path < mount && kid != EMPTY {
        NoFileAbove(tree, own, mounts, kids, name, path);
      }
    }
  }

  /** `order` is what is left to graft once `done` is, shallowest first. */
  ghost predicate LeftToGraft(mounts: map<Name, Path>, done: set<Name>, order: seq<Name>) {
    && Distinct(order)
    && (forall name :: name in order <==> name in mounts && name !in done)
    && (forall i, j | 0 <= i < j < |order| :: |mounts[order[i]]| <= |mounts[order[j]]|)
    && (forall name, other | name in order && other in done :: other in mounts && |mounts[other]| <= |mounts[name]|)
  }

  lemma InRest(order: seq<Name>, name: Name)
    requires order != [] && Distinct(order)
    ensures name in order[1..] <==> name in order && name != order[0]
  {
    assert order == [order[0]] + order[1..];
    if name in order[1..] {
      var i :| 0 <= i < |order[1..]| && order[1..][i] == name;
      assert order[i + 1] == name;
    }
  }

  lemma LessToGraft(mounts: map<Name, Path>, done: set<Name>, order: seq<Name>)
    requires LeftToGraft(mounts, done, order) && order != []
    ensures NextToGraft(mounts, done, order[0]) && LeftToGraft(mounts, done + {order[0]}, order[1..])
  {
    var name, rest := order[0], order[1..];
    assert name in order;
    forall other ensures other in rest <==> other in mounts && other !in done + {name} { InRest(order, other); }
    forall later, other | later in rest && other in done + {name}
      ensures other in mounts && |mounts[other]| <= |mounts[later]|
    {
      InRest(order, later);
      var i :| 0 <= i < |rest| && rest[i] == later;
      assert order[i + 1] == later;
    }
  }

  lemma {:induction false} GraftAll(tree: Tree, built: Tree, own: Tree, mounts: map<Name, Path>, kids: map<Name, Tree>,
                                    done: set<Name>, order: seq<Name>)
    requires TakenFrom(tree, own, mounts, kids) && GivenBack(built, own, mounts, kids, done)
    requires LeftToGraft(mounts, done, order) && done <= mounts.Keys
    ensures GivenBack(WithChildren(built, order, mounts, kids), own, mounts, kids, mounts.Keys)
    decreases |order|
  {
    if order == [] {
      assert forall name | name in mounts :: name !in order;
      assert done == mounts.Keys;
    } else {
      var name := order[0];
      LessToGraft(mounts, done, order);
      GraftGivesBack(tree, built, own, mounts, kids, done, name);
      GraftAll(tree, Graft(built, mounts[name], kids[name]), own, mounts, kids, done + {name}, order[1..]);
    }
  }

  /**
   Grafting children, shallowest first, gives every path the file its owner has
   for it, when all of them hold files of one tree and nobody holds another's.
   */
  lemma GraftingGives(tree: Tree, own: Tree, mounts: map<Name, Path>, kids: map<Name, Tree>)
    requires TakenFrom(tree, own, mounts, kids)
    ensures GivenBack(WithChildren(own, ByDepth(mounts), mounts, kids), own, mounts, kids, mounts.Keys)
  {
    forall name, path | Owns(mounts, name, path) ensures FileAt(own, path).None? {
      assert !Unmounted(mounts, path);
    }
    GraftAll(tree, own, own, mounts, kids, {}, ByDepth(mounts));
  }

  lemma ApartIsFrom(tree: Tree, own: Tree, mounts: map<Name, Path>, kids: map<Name, Tree>)
    requires TakenApart(tree, own, mounts, kids)
    ensures TakenFrom(tree, own, mounts, kids)
  {
  }

  lemma GivenWhole(tree: Tree, own: Tree, mounts: map<Name, Path>, kids: map<Name, Tree>, built: Tree, path: Path)
    requires TakenApart(tree, own, mounts, kids) && GivenBack(built, own, mounts, kids, mounts.Keys)
    ensures FileAt(built, path) == FileAt(tree, path)
  {
    if name :| name in mounts && mounts[name] <= path {
      var owner := SomeOwner(mounts, name, path);
      var rest := path[|mounts[owner]|..];
      assert mounts[owner] + rest == path;
      assert FileAt(kids[owner], rest) == FileAt(tree, mounts[owner] + rest);
    } else {
      assert Unmounted(mounts, path);
    }
  }

  /** So grafting all the parts of a tree back restores it. */
  lemma GraftingRestores(tree: Tree, own: Tree, mounts: map<Name, Path>, kids: map<Name, Tree>)
    requires TakenApart(tree, own, mounts, kids)
    ensures WithChildren(own, ByDepth(mounts), mounts, kids) == tree
  {
    ApartIsFrom(tree, own, mounts, kids);
    GraftingGives(tree, own, mounts, kids);
    var built := WithChildren(own, ByDepth(mounts), mounts, kids);
    forall path ensures FileAt(built, path) == FileAt(tree, path) {
      GivenWhole(tree, own, mounts, kids, built, path);
    }
    FilesDecide(built, tree);
  }

  // ---- putting some of them back ------------------------------------------------------

  /** `some` has no file that `tree` has not. */
  ghost predicate Within(some: Tree, tree: Tree) {
    Clean(some) && forall path | FileAt(some, path).Some? :: FileAt(some, path) == FileAt(tree, path)
  }

  /** A tree to take children out of: nothing where pins go, and no plain file at a mount. */
  ghost predicate Separable(tree: Tree, children: map<Name, Path>) {
    && Clean(tree) && (forall rest :: FileAt(tree, PINS_DIR + rest).None?) && DistinctMounts(children)
    && forall name | name in children :: FileAt(tree, children[name]).None?
  }

  /** Trees for some of the children, none with files its child's part has not. */
  ghost predicate SomeParts(tree: Tree, children: map<Name, Path>, kids: map<Name, Tree>) {
    && kids.Keys <= children.Keys
    && forall name | name in kids :: Within(kids[name], PartOf(tree, children, name).Or(EMPTY))
  }

  /** Those trees are the parts, and no other child has one. */
  ghost predicate AllParts(tree: Tree, children: map<Name, Path>, kids: map<Name, Tree>) {
    forall name | name in children ::
      if name in kids then kids[name] == PartOf(tree, children, name).Or(EMPTY) else PartOf(tree, children, name).None?
  }

  /** The mounts of the children in `names`. */
  function MountsFor(children: map<Name, Path>, names: set<Name>): (mounts: map<Name, Path>)
    requires names <= children.Keys
    ensures mounts.Keys == names
  {
    map name | name in names :: children[name]
  }

  /** A file of a child's tree is a file of the whole, and nobody else's. */
  lemma KidFile(tree: Tree, children: map<Name, Path>, kids: map<Name, Tree>, name: Name, rest: Path)
    requires Separable(tree, children) && SomeParts(tree, children, kids)
    requires name in kids && FileAt(kids[name], rest).Some?
    ensures Owns(children, name, children[name] + rest)
    ensures FileAt(tree, children[name] + rest) == FileAt(kids[name], rest)
  {
    PartFiles(tree, children, name, rest);
  }

  lemma PartsTakenFrom(tree: Tree, children: map<Name, Path>, kids: map<Name, Tree>)
    requires Separable(tree, children) && SomeParts(tree, children, kids)
    ensures TakenFrom(tree, OwnPart(tree, children), MountsFor(children, kids.Keys), kids)
  {
    var mounts, own := MountsFor(children, kids.Keys), OwnPart(tree, children);
    OwnPartClean(tree, children);
    forall path | FileAt(own, path).Some? ensures Unmounted(mounts, path) && FileAt(tree, path) == FileAt(own, path) {
      OwnPartFiles(tree, children, path);
    }
    forall name, rest | name in mounts && FileAt(kids[name], rest).Some?
      ensures Owns(mounts, name, mounts[name] + rest) && FileAt(tree, mounts[name] + rest) == FileAt(kids[name], rest)
    {
      KidFile(tree, children, kids, name, rest);
    }
  }

  lemma TrackersFile(tree: Tree, children: map<Name, Path>, kids: map<Name, Tree>, built: Tree, path: Path)
    requires Separable(tree, children) && SomeParts(tree, children, kids) && Unmounted(children, path)
    requires GivenBack(built, OwnPart(tree, children), MountsFor(children, kids.Keys), kids, kids.Keys)
    ensures FileAt(built, path) == FileAt(tree, path)
  {
    assert Unmounted(MountsFor(children, kids.Keys), path);
    OwnPartFiles(tree, children, path);
    if PINS_DIR <= path { assert path == PINS_DIR + path[|PINS_DIR|..]; }
  }

  /** A child with a shallower mount has no file where another owns the path. */
  lemma NotTheOwners(tree: Tree, children: map<Name, Path>, kids: map<Name, Tree>, name: Name, other: Name, path: Path)
    requires Separable(tree, children) && SomeParts(tree, children, kids)
    requires Owns(children, name, path) && other in kids && other != name && children[other] <= path
    ensures FileAt(kids[other], path[|children[other]|..]).None?
  {
    var rest := path[|children[other]|..];
    Rejoined(children[other], path);
    if FileAt(kids[other], rest).Some? {
      KidFile(tree, children, kids, other, rest);
      OneOwner(children, name, other, path);
    }
  }

  /** Where a child with no tree owns a path, the children that have one put nothing there. */
  lemma NobodysFile(tree: Tree, children: map<Name, Path>, kids: map<Name, Tree>, built: Tree, name: Name, path: Path)
    requires Separable(tree, children) && SomeParts(tree, children, kids)
    requires Owns(children, name, path) && name !in kids
    requires GivenBack(built, OwnPart(tree, children), MountsFor(children, kids.Keys), kids, kids.Keys)
    ensures FileAt(built, path).None?
  {
    var mounts := MountsFor(children, kids.Keys);
    if other :| other in mounts && mounts[other] <= path {
      var owner := SomeOwner(mounts, other, path);
      NotTheOwners(tree, children, kids, name, owner, path);
    } else {
      assert Unmounted(mounts, path);
      OwnPartFiles(tree, children, path);
    }
  }

  lemma ChildsFile(tree: Tree, children: map<Name, Path>, kids: map<Name, Tree>, built: Tree, name: Name, path: Path)
    requires Separable(tree, children) && SomeParts(tree, children, kids) && Owns(children, name, path)
    requires GivenBack(built, OwnPart(tree, children), MountsFor(children, kids.Keys), kids, kids.Keys)
    ensures FileAt(built, path) == if name in kids then FileAt(kids[name], path[|children[name]|..]) else None
  {
    if name in kids {
      assert Owns(MountsFor(children, kids.Keys), name, path);
    } else {
      NobodysFile(tree, children, kids, built, name, path);
    }
  }

  /** What the tree has of a child is what its part has. */
  lemma PartAt(tree: Tree, children: map<Name, Path>, name: Name, path: Path)
    requires Separable(tree, children) && Owns(children, name, path)
    ensures FileAt(PartOf(tree, children, name).Or(EMPTY), path[|children[name]|..]) == FileAt(tree, path)
  {
    assert children[name] + path[|children[name]|..] == path;
    PartFiles(tree, children, name, path[|children[name]|..]);
  }

  lemma BuiltWithin(tree: Tree, children: map<Name, Path>, kids: map<Name, Tree>, built: Tree, path: Path)
    requires Separable(tree, children) && SomeParts(tree, children, kids)
    requires GivenBack(built, OwnPart(tree, children), MountsFor(children, kids.Keys), kids, kids.Keys)
    ensures FileAt(built, path).Some? ==> FileAt(built, path) == FileAt(tree, path)
    ensures AllParts(tree, children, kids) ==> FileAt(built, path) == FileAt(tree, path)
  {
    if some :| some in children && children[some] <= path {
      var name := SomeOwner(children, some, path);
      ChildsFile(tree, children, kids, built, name, path);
      PartAt(tree, children, name, path);
      EmptyHasNoFile(path[|children[name]|..]);
    } else {
      TrackersFile(tree, children, kids, built, path);
    }
  }

  /** If nothing is missing, each child's tree is its part, and who has none owns nothing. */
  lemma KidIsPart(tree: Tree, children: map<Name, Path>, kids: map<Name, Tree>, name: Name)
    requires Separable(tree, children) && SomeParts(tree, children, kids) && name in children
    requires GivenBack(tree, OwnPart(tree, children), MountsFor(children, kids.Keys), kids, kids.Keys)
    ensures if name in kids then kids[name] == PartOf(tree, children, name).Or(EMPTY)
            else PartOf(tree, children, name).None?
  {
    var part := PartOf(tree, children, name).Or(EMPTY);
    var kid := if name in kids then kids[name] else EMPTY;
    PartClean(tree, children, name);
    forall rest ensures FileAt(kid, rest) == FileAt(part, rest) {
      var path := children[name] + rest;
      assert path[|children[name]|..] == rest;
      PartFiles(tree, children, name, rest);
      EmptyHasNoFile(rest);
      if Owns(children, name, path) { ChildsFile(tree, children, kids, tree, name, path); }
    }
    FilesDecide(kid, part);
  }

  lemma BuiltIs(tree: Tree, children: map<Name, Path>, kids: map<Name, Tree>, built: Tree)
    requires Separable(tree, children) && SomeParts(tree, children, kids)
    requires GivenBack(built, OwnPart(tree, children), MountsFor(children, kids.Keys), kids, kids.Keys)
    ensures Within(built, tree)
    ensures AllParts(tree, children, kids) ==> built == tree
  {
    forall path
      ensures FileAt(built, path).Some? ==> FileAt(built, path) == FileAt(tree, path)
      ensures AllParts(tree, children, kids) ==> FileAt(built, path) == FileAt(tree, path)
    {
      BuiltWithin(tree, children, kids, built, path);
    }
    if AllParts(tree, children, kids) { FilesDecide(built, tree); }
  }

  lemma NoneMissing(tree: Tree, children: map<Name, Path>, kids: map<Name, Tree>)
    requires Separable(tree, children) && SomeParts(tree, children, kids)
    requires GivenBack(tree, OwnPart(tree, children), MountsFor(children, kids.Keys), kids, kids.Keys)
    ensures AllParts(tree, children, kids)
  {
    forall name | name in children
      ensures if name in kids then kids[name] == PartOf(tree, children, name).Or(EMPTY)
              else PartOf(tree, children, name).None?
    {
      KidIsPart(tree, children, kids, name);
    }
  }

  /**
   Grafted back, some of the parts never make up a file that was not there, and
   make up the whole tree if and only if no file of any part is missing.
   */
  lemma PartsComeBack(tree: Tree, children: map<Name, Path>, kids: map<Name, Tree>)
    requires Separable(tree, children) && SomeParts(tree, children, kids)
    ensures var mounts := MountsFor(children, kids.Keys);
            var built := WithChildren(OwnPart(tree, children), ByDepth(mounts), mounts, kids);
            Within(built, tree) && (built == tree <==> AllParts(tree, children, kids))
  {
    var mounts, own := MountsFor(children, kids.Keys), OwnPart(tree, children);
    var built := WithChildren(own, ByDepth(mounts), mounts, kids);
    PartsTakenFrom(tree, children, kids);
    GraftingGives(tree, own, mounts, kids);
    BuiltIs(tree, children, kids, built);
    if built == tree { NoneMissing(tree, children, kids); }
  }
}
