/** A tree with pins put into it, and read back. */
module PinnedTrees {
  // A tree with pins put into it: the pins come back, and the rest is untouched.

  import opened Wrappers
  import opened Objects
  import opened Compose
  import opened Split

  const NEWGIT: Path := [".newgit"]

  /** What was put into the subtree at `path` is there, beside what it held. */
  lemma {:induction false} SetPathInto(tree: Tree, path: Path, name: Name, entry: Entry)
    ensures Subtree(SetPath(tree, path + [name], Some(entry)), path)
            == Some(Tree(Subtree(tree, path).Or(EMPTY).entries[name := entry]))
    decreases |path|
  {
    if path == [] {
      assert path + [name] == [name];
    } else {
      assert (path + [name])[0] == path[0] && (path + [name])[1..] == path[1..] + [name];
      var there := path[0] in tree.entries && tree.entries[path[0]].Sub?;
      var below := if there then tree.entries[path[0]].tree else EMPTY;
      SetPathInto(below, path[1..], name, entry);
      SetPathSome(below, path[1..] + [name], entry);
      if |path| > 1 && !there { EmptySubtree(path[1..]); }
    }
  }

  lemma EmptySubtree(path: Path)
    requires path != []
    ensures Subtree(EMPTY, path).None?
  {
  }

  function Linked(entries: map<Name, Entry>, pins: map<Name, Commit>, order: seq<Name>): (linked: map<Name, Entry>)
    requires forall name | name in order :: name in pins
    ensures forall name :: name in linked <==> name in entries || name in order
    ensures forall name | name in linked :: linked[name] == if name in order then Link(pins[name]) else entries[name]
    decreases |order|
  {
    if order == [] then entries
    else
      assert order == [order[0]] + order[1..];
      Linked(entries[order[0] := Link(pins[order[0]])], pins, order[1..])
  }

  lemma {:induction false} PinsPut(tree: Tree, pins: map<Name, Commit>, order: seq<Name>)
    requires order != [] && forall name | name in order :: name in pins
    ensures Subtree(WithPinsFrom(tree, pins, order), PINS_DIR)
            == Some(Tree(Linked(Subtree(tree, PINS_DIR).Or(EMPTY).entries, pins, order)))
    decreases |order|
  {
    var name := order[0];
    SetPathInto(tree, PINS_DIR, name, Link(pins[name]));
    if |order| > 1 {
      PinsPut(SetPath(tree, PINS_DIR + [name], Some(Link(pins[name]))), pins, order[1..]);
    }
  }

  lemma PinsOfSubtree(tree: Tree, pins: map<Name, Commit>, linked: map<Name, Entry>)
    requires Subtree(tree, PINS_DIR) == Some(Tree(linked))
    requires linked.Keys == pins.Keys && forall name | name in linked :: linked[name] == Link(pins[name])
    ensures Pins(tree) == pins
  {
  }

  lemma SomePinsFound(own: Tree, pins: map<Name, Commit>, order: seq<Name>)
    requires Subtree(own, PINS_DIR).None? && order != []
    requires forall name :: name in order <==> name in pins
    ensures Pins(WithPinsFrom(own, pins, order)) == pins
  {
    PinsPut(own, pins, order);
    var linked := Linked(EMPTY.entries, pins, order);
    assert linked.Keys == pins.Keys;
    PinsOfSubtree(WithPinsFrom(own, pins, order), pins, linked);
  }

  lemma PinsFound(own: Tree, pins: map<Name, Commit>)
    requires Subtree(own, PINS_DIR).None?
    ensures Pins(WithPins(own, pins)) == pins
  {
    var order := ByName(pins.Keys);
    if pins == map[] {
      NoNames(pins);
      assert WithPins(own, pins) == own;
    } else {
      var name :| name in pins;
      assert name in order;
      SomePinsFound(own, pins, order);
    }
  }

  lemma OwnFound(own: Tree, pins: map<Name, Commit>)
    requires Clean(own) && (forall rest :: FileAt(own, PINS_DIR + rest).None?)
    requires pins != map[] ==> FileAt(own, NEWGIT).None?
    ensures Clean(WithPins(own, pins)) && Own(WithPins(own, pins)) == own
  {
    var tree := WithPins(own, pins);
    PinsPutClean(own, pins, ByName(pins.Keys));
    SetPathClean(tree, PINS_DIR, None);
    forall path ensures FileAt(Own(tree), path) == FileAt(own, path) {
      SetPathFiles(tree, PINS_DIR, None, path);
      WithPinsFiles(own, pins, path);
      if PINS_DIR <= path { assert path == PINS_DIR + path[|PINS_DIR|..]; }
    }
    FilesDecide(Own(tree), own);
  }

  lemma {:induction false} PinsPutFiles(tree: Tree, pins: map<Name, Commit>, order: seq<Name>, path: Path)
    requires FileAt(tree, NEWGIT).None?
    requires forall name | name in order :: name in pins
    ensures !(PINS_DIR <= path) ==> FileAt(WithPinsFrom(tree, pins, order), path) == FileAt(tree, path)
    decreases |order|
  {
    if order != [] {
      var name := order[0];
      var at := PINS_DIR + [name];
      var next := SetPath(tree, at, Some(Link(pins[name])));
      SetPathFiles(tree, at, Some(Link(pins[name])), path);
      SetPathFiles(tree, at, Some(Link(pins[name])), NEWGIT);
      PinsPutFiles(next, pins, order[1..], path);
      if !(PINS_DIR <= path) && path < at {
        assert path == at[..|path|];
        assert path == [] || path == NEWGIT;
      }
    }
  }

  lemma {:induction false} PinsPutClean(tree: Tree, pins: map<Name, Commit>, order: seq<Name>)
    requires Clean(tree) && forall name | name in order :: name in pins
    ensures Clean(WithPinsFrom(tree, pins, order))
    decreases |order|
  {
    if order != [] {
      SetPathClean(tree, PINS_DIR + [order[0]], Some(Link(pins[order[0]])));
      PinsPutClean(SetPath(tree, PINS_DIR + [order[0]], Some(Link(pins[order[0]]))), pins, order[1..]);
    }
  }

  lemma WithPinsFiles(own: Tree, pins: map<Name, Commit>, path: Path)
    requires pins != map[] ==> FileAt(own, NEWGIT).None?
    ensures !(PINS_DIR <= path) ==> FileAt(WithPins(own, pins), path) == FileAt(own, path)
  {
    if pins != map[] {
      PinsPutFiles(own, pins, ByName(pins.Keys), path);
    } else {
      NoNames(pins);
    }
  }

  lemma NoNames(pins: map<Name, Commit>)
    ensures pins == map[] ==> ByName(pins.Keys) == []
  {
    assert forall name :: name in ByName(pins.Keys) <==> name in pins;
  }

  /** The pins put in come back, and without them the tree is as it was. */
  lemma PinsComeBack(own: Tree, pins: map<Name, Commit>)
    requires Clean(own) && (forall rest :: FileAt(own, PINS_DIR + rest).None?)
    requires pins != map[] ==> FileAt(own, NEWGIT).None?
    ensures Clean(WithPins(own, pins)) && Pins(WithPins(own, pins)) == pins && Own(WithPins(own, pins)) == own
  {
    NoFilesNoSubtree(own, PINS_DIR);
    PinsFound(own, pins);
    OwnFound(own, pins);
  }
}
