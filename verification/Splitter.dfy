/**
 The loops of a split: a stack that orders a history, and then a pass over it
 that cuts each commit in turn, with a table of the roots made so far.
 */
module Splitter {
  import opened Wrappers
  import opened Names
  import opened Objects
  import opened Order
  import opened Compose
  import opened Split

  // ---- what to split ----------------------------------------------------------------------------

  /** A commit on the stack, and whether everything behind it has been put in order. */
  type Visit = (Commit, bool)

  /** Reached from `tip` by at most `steps` parents, past commits not known. */
  ghost predicate NeededIn(known: map<Commit, Commit>, tip: Commit, view: Commit, steps: nat)
    decreases steps
  {
    view == tip
    || (steps > 0 && exists child: Commit ::
          NeededIn(known, tip, child, steps - 1) && child !in known && view in child.parents)
  }

  ghost predicate Needed(known: map<Commit, Commit>, tip: Commit, view: Commit) {
    exists steps: nat :: NeededIn(known, tip, view, steps)
  }

  lemma ParentNeeded(known: map<Commit, Commit>, tip: Commit, child: Commit, view: Commit)
    requires Needed(known, tip, child) && child !in known && view in child.parents
    ensures Needed(known, tip, view)
  {
    var steps: nat :| NeededIn(known, tip, child, steps);
    assert NeededIn(known, tip, view, steps + 1);
  }

  /** Everything behind a commit, and it. */
  ghost function Behind(commit: Commit): set<Commit>
    decreases commit
  {
    {commit} + set i, other | 0 <= i < |commit.parents| && other in Behind(commit.parents[i]) :: other
  }

  lemma {:induction false} BehindClosed(commit: Commit, other: Commit)
    requires other in Behind(commit)
    ensures Behind(other) <= Behind(commit)
    decreases commit
  {
    if other != commit {
      var i :| 0 <= i < |commit.parents| && other in Behind(commit.parents[i]);
      BehindClosed(commit.parents[i], other);
    }
  }

  /** What waits above a commit being put in order is behind it. */
  ghost predicate Nested(stack: seq<Visit>) {
    forall j, k | 0 <= j < k < |stack| && stack[j].1 :: stack[k].0 < stack[j].0
  }

  /** `view` waits above position `at`. */
  ghost predicate Above(stack: seq<Visit>, at: nat, view: Commit) {
    exists j :: at < j < |stack| && stack[j].0 == view
  }

  /** `view` is being put in order: what is behind it waits above. */
  ghost predicate Open(stack: seq<Visit>, view: Commit) {
    exists k :: 0 <= k < |stack| && stack[k] == (view, true)
  }

  ghost predicate OnStack(stack: seq<Visit>, view: Commit) {
    exists k :: 0 <= k < |stack| && stack[k].0 == view
  }

  ghost predicate Met(known: map<Commit, Commit>, stack: seq<Visit>, order: seq<Commit>, at: nat, view: Commit) {
    view in known || view in order || Above(stack, at, view)
  }

  /** Each parent of a commit being put in order is known, in order, or waits above it. */
  ghost predicate Awaited(known: map<Commit, Commit>, stack: seq<Visit>, order: seq<Commit>) {
    forall k, parent | 0 <= k < |stack| && stack[k].1 && parent in stack[k].0.parents ::
      Met(known, stack, order, k, parent)
  }

  /** Parents come before children, nothing twice, nothing known, nothing not needed. */
  ghost predicate Ordered(known: map<Commit, Commit>, tip: Commit, order: seq<Commit>) {
    && Distinct(order)
    && (forall i | 0 <= i < |order| :: order[i] !in known && Needed(known, tip, order[i]))
    && forall i, parent | 0 <= i < |order| && parent in order[i].parents :: parent in known || parent in order[..i]
  }

  ghost predicate Visiting(known: map<Commit, Commit>, tip: Commit, stack: seq<Visit>, seen: set<Commit>,
                           order: seq<Commit>)
  {
    && Nested(stack) && Awaited(known, stack, order) && Ordered(known, tip, order)
    && (forall k | 0 <= k < |stack| :: stack[k].0 in Behind(tip) && Needed(known, tip, stack[k].0))
    && (forall k | 0 <= k < |stack| && stack[k].1 :: stack[k].0 in seen && stack[k].0 !in known && stack[k].0 !in order)
    && (forall view | view in seen && view !in known :: view in order || Open(stack, view))
    && (forall view | view in order :: view in seen)
    && (tip in known || tip in order || OnStack(stack, tip))
  }

  function Reversed(commits: seq<Commit>): (visits: seq<Visit>)
    ensures |visits| == |commits|
    ensures forall i | 0 <= i < |commits| :: visits[i] == (commits[|commits| - 1 - i], false)
  {
    seq(|commits|, i requires 0 <= i < |commits| => (commits[|commits| - 1 - i], false))
  }

  // ---- each step keeps it ------------------------------------------------------------------------

  lemma FinishedAwaits(known: map<Commit, Commit>, rest: seq<Visit>, view: Commit, order: seq<Commit>)
    requires Awaited(known, rest + [(view, true)], order)
    ensures Awaited(known, rest, order + [view])
    ensures forall parent | parent in view.parents :: parent in known || parent in order
  {
    var stack := rest + [(view, true)];
    forall k, parent | 0 <= k < |rest| && rest[k].1 && parent in rest[k].0.parents
      ensures Met(known, rest, order + [view], k, parent)
    {
      assert stack[k] == rest[k] && Met(known, stack, order, k, parent);
      if parent !in known && parent !in order {
        var j :| k < j < |stack| && stack[j].0 == parent;
        if j < |rest| { assert rest[j] == stack[j]; }
      }
    }
    forall parent | parent in view.parents ensures parent in known || parent in order {
      assert stack[|rest|] == (view, true) && Met(known, stack, order, |rest|, parent);
    }
  }

  lemma FinishedOrdered(known: map<Commit, Commit>, tip: Commit, order: seq<Commit>, view: Commit)
    requires Ordered(known, tip, order) && view !in order && view !in known && Needed(known, tip, view)
    requires forall parent | parent in view.parents :: parent in known || parent in order
    ensures Ordered(known, tip, order + [view])
  {
    var more := order + [view];
    forall i, parent | 0 <= i < |more| && parent in more[i].parents ensures parent in known || parent in more[..i] {
      if i < |order| {
        assert more[..i] == order[..i] && parent in order[i].parents;
      } else {
        assert more[..i] == order;
      }
    }
  }

  lemma Finished(known: map<Commit, Commit>, tip: Commit, rest: seq<Visit>, view: Commit, seen: set<Commit>,
                 order: seq<Commit>)
    requires Visiting(known, tip, rest + [(view, true)], seen, order)
    ensures Visiting(known, tip, rest, seen, order + [view])
  {
    var stack := rest + [(view, true)];
    assert stack[|rest|] == (view, true) && forall k | 0 <= k < |rest| :: stack[k] == rest[k];
    FinishedAwaits(known, rest, view, order);
    FinishedOrdered(known, tip, order, view);
    assert Nested(rest);
    forall k | 0 <= k < |rest| && rest[k].1 ensures rest[k].0 !in order + [view] {
      assert stack[k].1 && stack[|rest|].0 < stack[k].0;
    }
    forall other | other in seen && other !in known && other !in order + [view] ensures Open(rest, other) {
      var k :| 0 <= k < |stack| && stack[k] == (other, true);
      assert rest[k] == (other, true);
    }
    if OnStack(stack, tip) && tip != view {
      var k :| 0 <= k < |stack| && stack[k].0 == tip;
      assert rest[k].0 == tip;
    }
  }

  lemma PassedAwaits(known: map<Commit, Commit>, rest: seq<Visit>, view: Commit, order: seq<Commit>)
    requires Awaited(known, rest + [(view, false)], order) && (view in known || view in order)
    ensures Awaited(known, rest, order)
  {
    var stack := rest + [(view, false)];
    forall k, parent | 0 <= k < |rest| && rest[k].1 && parent in rest[k].0.parents
      ensures Met(known, rest, order, k, parent)
    {
      assert stack[k] == rest[k] && Met(known, stack, order, k, parent);
      if parent !in known && parent !in order {
        var j :| k < j < |stack| && stack[j].0 == parent;
        assert rest[j] == stack[j];
      }
    }
  }

  /** What is behind a commit waits above it, so it is not above itself. */
  lemma NotAboveItself(rest: seq<Visit>, view: Commit)
    requires Nested(rest + [(view, false)])
    ensures Nested(rest) && !Open(rest + [(view, false)], view)
    ensures forall other | Open(rest + [(view, false)], other) :: Open(rest, other)
    ensures forall other | OnStack(rest + [(view, false)], other) && other != view :: OnStack(rest, other)
  {
    var stack := rest + [(view, false)];
    assert stack[|rest|] == (view, false) && forall k | 0 <= k < |rest| :: stack[k] == rest[k];
    assert forall k | 0 <= k < |rest| && stack[k].1 :: stack[|rest|].0 < stack[k].0;
    forall other | Open(stack, other) ensures Open(rest, other) {
      var k :| 0 <= k < |stack| && stack[k] == (other, true);
      assert rest[k] == (other, true);
    }
    forall other | OnStack(stack, other) && other != view ensures OnStack(rest, other) {
      var k :| 0 <= k < |stack| && stack[k].0 == other;
      assert rest[k].0 == other;
    }
  }

  lemma PassedOver(known: map<Commit, Commit>, tip: Commit, rest: seq<Visit>, view: Commit, seen: set<Commit>,
                   order: seq<Commit>)
    requires Visiting(known, tip, rest + [(view, false)], seen, order) && (view in seen || view in known)
    ensures Visiting(known, tip, rest, seen + {view}, order)
  {
    var stack := rest + [(view, false)];
    NotAboveItself(rest, view);
    assert view in known || view in order;
    PassedAwaits(known, rest, view, order);
    assert forall k | 0 <= k < |rest| :: rest[k] == stack[k];
  }

  lemma EnteredNested(rest: seq<Visit>, view: Commit)
    requires Nested(rest + [(view, false)])
    ensures Nested(rest + [(view, true)] + Reversed(view.parents))
  {
    var before, after := rest + [(view, false)], rest + [(view, true)] + Reversed(view.parents);
    assert before[|rest|] == (view, false) && after[|rest|] == (view, true);
    forall k | |rest| < k < |after| ensures after[k].0 < view && !after[k].1 {
      assert after[k] == Reversed(view.parents)[k - |rest| - 1];
    }
    forall j, k | 0 <= j < k < |after| && after[j].1 ensures after[k].0 < after[j].0 {
      if j < |rest| {
        assert after[j] == before[j] && before[|rest|].0 < before[j].0;
        if k < |rest| { assert after[k] == before[k]; }
      }
    }
  }

  lemma EnteredAwaits(known: map<Commit, Commit>, rest: seq<Visit>, view: Commit, order: seq<Commit>)
    requires Awaited(known, rest + [(view, false)], order)
    ensures Awaited(known, rest + [(view, true)] + Reversed(view.parents), order)
  {
    var before, after := rest + [(view, false)], rest + [(view, true)] + Reversed(view.parents);
    assert forall k | |rest| < k < |after| :: after[k] == Reversed(view.parents)[k - |rest| - 1];
    forall k, parent | 0 <= k <= |rest| && after[k].1 && parent in after[k].0.parents
      ensures Met(known, after, order, k, parent)
    {
      if k < |rest| {
        assert after[k] == before[k] && Met(known, before, order, k, parent);
        if parent !in known && parent !in order {
          var j :| k < j < |before| && before[j].0 == parent;
          assert after[j].0 == before[j].0;
        }
      } else {
        var i :| 0 <= i < |view.parents| && view.parents[i] == parent;
        assert after[|rest| + |view.parents| - i].0 == Reversed(view.parents)[|view.parents| - 1 - i].0 == parent;
      }
    }
  }

  lemma EnteredNeeded(known: map<Commit, Commit>, tip: Commit, view: Commit)
    requires view in Behind(tip) && Needed(known, tip, view) && view !in known
    ensures forall parent | parent in view.parents :: parent in Behind(tip) && Needed(known, tip, parent)
  {
    BehindClosed(tip, view);
    forall parent | parent in view.parents ensures parent in Behind(tip) && Needed(known, tip, parent) {
      var i :| 0 <= i < |view.parents| && view.parents[i] == parent;
      assert parent in Behind(view.parents[i]);
      ParentNeeded(known, tip, view, parent);
    }
  }

  /** A commit just entered is open, whatever was open still is, and nothing leaves the stack. */
  lemma EnteredOpen(rest: seq<Visit>, view: Commit)
    ensures var before, after := rest + [(view, false)], rest + [(view, true)] + Reversed(view.parents);
            && (forall other :: Open(after, other) <==> other == view || Open(before, other))
            && (forall other | OnStack(before, other) :: OnStack(after, other))
            && (forall k | |rest| < k < |after| :: after[k].0 in view.parents && !after[k].1)
            && forall k | 0 <= k < |rest| :: after[k] == before[k] == rest[k]
  {
    var before, after := rest + [(view, false)], rest + [(view, true)] + Reversed(view.parents);
    forall k | |rest| < k < |after| ensures after[k].0 in view.parents && !after[k].1 {
      assert after[k] == Reversed(view.parents)[k - |rest| - 1];
    }
    forall other ensures Open(after, other) <==> other == view || Open(before, other) {
      if other == view { assert after[|rest|] == (view, true); }
      if Open(before, other) {
        var k :| 0 <= k < |before| && before[k] == (other, true);
        assert after[k] == (other, true);
      }
      if Open(after, other) && other != view {
        var k :| 0 <= k < |after| && after[k] == (other, true);
        assert before[k] == (other, true);
      }
    }
    forall other | OnStack(before, other) ensures OnStack(after, other) {
      var k :| 0 <= k < |before| && before[k].0 == other;
      assert after[k].0 == other;
    }
  }

  lemma Entered(known: map<Commit, Commit>, tip: Commit, rest: seq<Visit>, view: Commit, seen: set<Commit>,
                order: seq<Commit>)
    requires Visiting(known, tip, rest + [(view, false)], seen, order) && view !in seen && view !in known
    ensures Visiting(known, tip, rest + [(view, true)] + Reversed(view.parents), seen + {view}, order)
    ensures view in Behind(tip)
  {
    var before, after := rest + [(view, false)], rest + [(view, true)] + Reversed(view.parents);
    assert before[|rest|] == (view, false) && after[|rest|] == (view, true);
    EnteredNested(rest, view);
    EnteredAwaits(known, rest, view, order);
    EnteredNeeded(known, tip, view);
    EnteredOpen(rest, view);
  }

  lemma FewerLeft(all: set<Commit>, seen: set<Commit>, view: Commit)
    requires view in all && view !in seen
    ensures |all - (seen + {view})| < |all - seen|
  {
    assert all - seen == (all - (seen + {view})) + {view};
  }

  lemma Started(known: map<Commit, Commit>, tip: Commit)
    ensures Visiting(known, tip, [(tip, false)], {}, [])
  {
    assert NeededIn(known, tip, tip, 0);
    var stack: seq<Visit> := [(tip, false)];
    assert stack[0].0 == tip;
  }

  /** The commits `tip` needs, none before all its parents: a depth-first walk along all of them. */
  method PutInOrder(known: map<Commit, Commit>, tip: Commit) returns (order: seq<Commit>)
    ensures Ordered(known, tip, order)
    ensures tip in known || tip in order
  {
    order := [];
    var seen: set<Commit> := {};
    var stack: seq<Visit> := [(tip, false)];
    Started(known, tip);
    while stack != []
      invariant Visiting(known, tip, stack, seen, order)
      decreases |Behind(tip) - seen|, |stack|
    {
      var rest, top := stack[..|stack| - 1], stack[|stack| - 1];
      LastTaken(stack);
      if top.1 {
        Finished(known, tip, rest, top.0, seen, order);
        order, stack := order + [top.0], rest;
        continue;
      }
      ghost var before := seen;
      var met := top.0 in seen || top.0 in known;
      seen := seen + {top.0};
      if met {
        PassedOver(known, tip, rest, top.0, before, order);
        SeenStill(Behind(tip), before, top.0);
        stack := rest;
        continue;
      }
      Entered(known, tip, rest, top.0, before, order);
      FewerLeft(Behind(tip), before, top.0);
      stack := rest + [(top.0, true)] + Reversed(top.0.parents);
    }
  }

  lemma LastTaken(stack: seq<Visit>)
    requires stack != []
    ensures stack == stack[..|stack| - 1] + [stack[|stack| - 1]]
  {
  }

  lemma SeenStill(all: set<Commit>, seen: set<Commit>, view: Commit)
    ensures |all - (seen + {view})| <= |all - seen|
  {
    if view in all && view !in seen {
      FewerLeft(all, seen, view);
    } else {
      assert all - (seen + {view}) == all - seen;
    }
  }

  // ---- one tracker's part ------------------------------------------------------------------------

  /** The pins and commits of `first`, then those of `rest`. */
  function Joined(first: Part, rest: Part): Part { Part(rest.own, first.pins + rest.pins, first.made + rest.made) }

  function AddPiece(tracker: Name, name: Name, piece: Piece, sofar: Part): Part {
    match piece
    case Absent => sofar
    case Reused(pin) => sofar.(pins := sofar.pins[name := pin])
    case New(pin, inside) => sofar.(pins := sofar.pins[name := pin],
                                    made := sofar.made + inside + [Made(ChildId(tracker, name), pin)])
  }

  lemma JoinPiece(tracker: Name, name: Name, piece: Piece, sofar: Part, rest: Part)
    requires name !in rest.pins
    ensures Joined(sofar, WithPiece(tracker, name, piece, rest)) == Joined(AddPiece(tracker, name, piece, sofar), rest)
  {
    if piece.New? {
      var one := [Made(ChildId(tracker, name), piece.pin)];
      assert sofar.made + (piece.inside + one + rest.made) == sofar.made + piece.inside + one + rest.made;
    }
  }

  /** What has been assembled comes to what is assembled in the end, if every piece can be made. */
  ghost predicate AssembledTo(own: Tree, tracker: Name, order: seq<Name>, pieces: map<Name, Result<Piece>>, i: nat,
                              sofar: Part)
    requires forall name | name in order :: name in pieces
  {
    AllOk(pieces) && i <= |order| ==>
      Joined(sofar, Assembled(own, tracker, order[i..], Values(pieces)))
          == Assembled(own, tracker, order, Values(pieces))
  }

  lemma AssembleNext(own: Tree, tracker: Name, order: seq<Name>, pieces: map<Name, Result<Piece>>, i: nat, sofar: Part,
                     piece: Piece)
    requires (forall name | name in order :: name in pieces) && Distinct(order) && i < |order|
    requires AssembledTo(own, tracker, order, pieces, i, sofar) && pieces[order[i]] == Ok(piece)
    ensures AssembledTo(own, tracker, order, pieces, i + 1, AddPiece(tracker, order[i], piece, sofar))
  {
    if AllOk(pieces) {
      var values := Values(pieces);
      assert order[i..][1..] == order[i + 1..];
      var rest := Assembled(own, tracker, order[i + 1..], values);
      AssembledPins(own, tracker, order[i + 1..], values);
      assert order[i] !in order[i + 1..];
      JoinPiece(tracker, order[i], piece, sofar, rest);
    }
  }

  lemma AssembleStarts(own: Tree, tracker: Name, order: seq<Name>, pieces: map<Name, Result<Piece>>, from: Tree)
    requires forall name | name in order :: name in pieces
    ensures AssembledTo(own, tracker, order, pieces, 0, Part(from, map[], []))
  {
    if AllOk(pieces) {
      assert order[0..] == order;
      var all := Assembled(own, tracker, order, Values(pieces));
      assert map[] + all.pins == all.pins && [] + all.made == all.made;
    }
  }

  lemma AssembleEnds(own: Tree, tracker: Name, order: seq<Name>, pieces: map<Name, Result<Piece>>, sofar: Part)
    requires (forall name | name in order :: name in pieces) && AllOk(pieces)
    requires AssembledTo(own, tracker, order, pieces, |order|, sofar)
    ensures sofar.(own := own) == Assembled(own, tracker, order, Values(pieces))
  {
    assert order[|order|..] == [];
    assert sofar.pins + map[] == sofar.pins && sofar.made + [] == sofar.made;
  }

  /** What stands where the first `i` children have been taken out and split. */
  ghost predicate PartTo(own: Tree, tracker: Name, children: map<Name, Path>, order: seq<Name>,
                         pieces: map<Name, Result<Piece>>, i: nat, sofar: Part)
    requires (forall name | name in order :: name in children && children[name] != []) && pieces.Keys == children.Keys
  {
    && i <= |order| && AssembledTo(own, tracker, order, pieces, i, sofar)
    && WithoutMounts(sofar.own, children, order[i..]) == own
    && forall k | 0 <= k < i :: pieces[order[k]].Ok?
  }

  lemma PartNext(own: Tree, tracker: Name, children: map<Name, Path>, order: seq<Name>,
                 pieces: map<Name, Result<Piece>>, i: nat, sofar: Part, piece: Piece, more: Part)
    requires (forall name | name in order :: name in children && children[name] != []) && pieces.Keys == children.Keys
             && Distinct(order)
    requires PartTo(own, tracker, children, order, pieces, i, sofar) && i < |order| && pieces[order[i]] == Ok(piece)
    requires more == AddPiece(tracker, order[i], piece, sofar).(own := SetPath(sofar.own, children[order[i]], None))
    ensures PartTo(own, tracker, children, order, pieces, i + 1, more)
  {
    assert order[i] in order && order[i..][1..] == order[i + 1..];
    AssembleNext(own, tracker, order, pieces, i, sofar, piece);
  }

  lemma PartStarts(tree: Tree, tracker: Name, children: map<Name, Path>, order: seq<Name>,
                   pieces: map<Name, Result<Piece>>)
    requires (forall name | name in order :: name in children && children[name] != []) && pieces.Keys == children.Keys
    ensures PartTo(WithoutMounts(tree, children, order), tracker, children, order, pieces, 0, Part(tree, map[], []))
  {
    assert order[0..] == order;
    AssembleStarts(WithoutMounts(tree, children, order), tracker, order, pieces, tree);
  }

  lemma PartEnds(own: Tree, tracker: Name, children: map<Name, Path>, order: seq<Name>,
                 pieces: map<Name, Result<Piece>>, sofar: Part)
    requires (forall name | name in order :: name in children && children[name] != []) && pieces.Keys == children.Keys
    requires (forall name | name in children :: name in order)
             && PartTo(own, tracker, children, order, pieces, |order|, sofar)
    ensures AllOk(pieces) && sofar == Assembled(own, tracker, order, Values(pieces))
  {
    assert order[|order|..] == [];
    AllPieces(order, pieces);
    AssembleEnds(own, tracker, order, pieces, sofar);
  }

  lemma PartIs(world: World, bound: Bound, view: Commit, tracker: Name, tree: Tree, children: map<Name, Path>,
               parents: seq<Commit>)
    requires ChildrenIn(world, tree, tracker) == Ok(children)
    ensures forall name | name in children :: children[name] != []
    ensures children != map[] ==> Subtree(tree, DEFINITIONS_DIR).Some?
    ensures var pieces, order := Pieces(world, bound, view, tracker, tree, children, parents), DeepestFirst(children);
            && pieces.Keys == children.Keys
            && SplitPart(world, bound, view, tracker, tree, parents)
               == if AllOk(pieces)
                  then Ok(Assembled(WithoutMounts(Own(tree), children, order), tracker, order, Values(pieces)))
                  else Err
  {
  }

  /** Split `tracker`'s part `tree` of `view`: its children's mounts out of it, deepest first. */
  method SplitPartOf(world: World, bound: Bound, view: Commit, tracker: Name, tree: Tree, parents: seq<Commit>)
    returns (part: Result<Part>)
    ensures part == SplitPart(world, bound, view, tracker, tree, parents)
    decreases Height(tree), 2
  {
    var children := ChildrenIn(world, tree, tracker);
    if children.Err? { return Err; }
    PartIs(world, bound, view, tracker, tree, children.value, parents);
    ghost var pieces := Pieces(world, bound, view, tracker, tree, children.value, parents);
    part := SplitChildren(world, bound, view, tracker, tree, children.value, DeepestFirst(children.value), parents,
                          pieces);
  }

  /** Each child's mount taken out, and its piece added. */
  method SplitChildren(world: World, bound: Bound, view: Commit, tracker: Name, tree: Tree, children: map<Name, Path>,
                       order: seq<Name>, parents: seq<Commit>, ghost pieces: map<Name, Result<Piece>>)
    returns (part: Result<Part>)
    requires (forall name | name in children :: children[name] != [])
             && (children != map[] ==> Subtree(tree, DEFINITIONS_DIR).Some?)
    requires Distinct(order) && forall name :: name in order <==> name in children
    requires pieces == Pieces(world, bound, view, tracker, tree, children, parents)
    ensures part == if AllOk(pieces)
                    then Ok(Assembled(WithoutMounts(Own(tree), children, order), tracker, order, Values(pieces)))
                    else Err
    decreases Height(tree), 1
  {
    ghost var own := WithoutMounts(Own(tree), children, order);
    var sofar := Part(Own(tree), map[], []);
    PartStarts(Own(tree), tracker, children, order, pieces);
    var i := 0;
    while i < |order|
      invariant 0 <= i <= |order| && PartTo(own, tracker, children, order, pieces, i, sofar)
    {
      var name := order[i];
      assert name in order;
      var piece := SplitChildOf(world, bound, view, tracker, tree, children, name, parents);
      PieceAt(world, bound, view, tracker, tree, children, name, parents);
      if piece.Err? { return Err; }
      var more := AddPiece(tracker, name, piece.value, sofar).(own := SetPath(sofar.own, children[name], None));
      PartNext(own, tracker, children, order, pieces, i, sofar, piece.value, more);
      sofar := more;
      i := i + 1;
    }
    PartEnds(own, tracker, children, order, pieces, sofar);
    part := Ok(sofar);
  }

  lemma AllPieces(order: seq<Name>, pieces: map<Name, Result<Piece>>)
    requires (forall name | name in pieces :: name in order) && forall k | 0 <= k < |order| ::
               order[k] in pieces && pieces[order[k]].Ok?
    ensures AllOk(pieces)
  {
  }

  lemma BeforeNext(parents: seq<Commit>, i: nat, name: Name)
    requires i < |parents|
    ensures var before, pins := Before(parents[..i], name), Pins(parents[i].tree);
            Before(parents[..i + 1], name) == if name in pins && pins[name] !in before then before + [pins[name]]
                                              else before
  {
    var some := parents[..i + 1];
    assert some[..|some| - 1] == parents[..i] && some[|some| - 1] == parents[i];
  }

  /** Its pins in the parents, each once. */
  method PinsBefore(parents: seq<Commit>, name: Name) returns (before: seq<Commit>)
    ensures before == Before(parents, name)
  {
    before := [];
    var i := 0;
    while i < |parents|
      invariant 0 <= i <= |parents| && before == Before(parents[..i], name)
    {
      BeforeNext(parents, i, name);
      var pins := Pins(parents[i].tree);
      if name in pins && pins[name] !in before { before := before + [pins[name]]; }
      i := i + 1;
    }
    assert parents[..i] == parents;
  }

  /** Whether all of them are here. */
  method ArePresent(world: World, before: seq<Commit>) returns (all: bool)
    ensures all == AllHeld(world, before)
  {
    all := true;
    var i := 0;
    while i < |before|
      invariant 0 <= i <= |before| && (all <==> AllHeld(world, before[..i]))
    {
      assert before[..i + 1] == before[..i] + [before[i]];
      all := all && world.held(before[i]);
      i := i + 1;
    }
    assert before[..i] == before;
  }

  /** Whether every other commit is behind `candidate`, asked one at a time. */
  method IsAheadOf(world: World, before: seq<Commit>, candidate: Commit) returns (ahead: Result<bool>)
    ensures ahead == AllBehind(world, before, candidate, 0)
  {
    var i := 0;
    while i < |before|
      invariant 0 <= i <= |before|
      invariant AllBehind(world, before, candidate, 0) == AllBehind(world, before, candidate, i)
    {
      if before[i] != candidate {
        var behind := AskedBehind(world, before[i], candidate);
        if behind != Ok(true) { return behind; }
      }
      i := i + 1;
    }
    ahead := Ok(true);
  }

  /** The first pin that has all the others behind it. */
  method FindDescendant(world: World, before: seq<Commit>) returns (found: Result<Option<Commit>>)
    ensures found == Descendant(world, before, 0)
  {
    var i := 0;
    while i < |before|
      invariant 0 <= i <= |before| && Descendant(world, before, 0) == Descendant(world, before, i)
    {
      var ahead := IsAheadOf(world, before, before[i]);
      if ahead.Err? { return Err; }
      if ahead.value { return Ok(Some(before[i])); }
      i := i + 1;
    }
    found := Ok(None);
  }

  method DescendsFromAll(before: seq<Commit>, pin: Commit) returns (descends: bool)
    ensures descends <==> Leads(before, pin)
  {
    descends := true;
    var i := 0;
    while i < |before|
      invariant 0 <= i <= |before|
      invariant descends <==> forall k | 0 <= k < i :: before[k] == pin || IsAncestor(before[k], pin)
    {
      if before[i] != pin && !IsAncestor(before[i], pin) { descends := false; }
      i := i + 1;
    }
  }

  lemma ReusedHere(world: World, id: Name, before: seq<Commit>, part: Tree, i: nat, seen: Result<Tree>)
    requires i < |before| && seen == TreeFor(world, EVERYONE, id, before[i])
    ensures Reusable(world, id, before, part, i)
            == if seen.Err? then Err
               else if seen.value == part && Leads(before, before[i]) then Ok(Some(before[i]))
               else Reusable(world, id, before, part, i + 1)
  {
  }

  /** The first pin whose view is the part already, and that every other is behind. */
  method FindReused(world: World, id: Name, before: seq<Commit>, part: Tree) returns (found: Result<Option<Commit>>)
    ensures found == Reusable(world, id, before, part, 0)
  {
    var i := 0;
    while i < |before|
      invariant 0 <= i <= |before| && Reusable(world, id, before, part, 0) == Reusable(world, id, before, part, i)
    {
      var seen := TreeFor(world, EVERYONE, id, before[i]);
      ReusedHere(world, id, before, part, i, seen);
      if seen.Err? { return Err; }
      if seen.value == part {
        var descends := DescendsFromAll(before, before[i]);
        if descends { return Ok(Some(before[i])); }
      }
      i := i + 1;
    }
    found := Ok(None);
  }

  /** What to do for a child: the checks in the order they are made. */
  method ChooseFor(world: World, bound: Bound, id: Name, before: seq<Commit>, part: Option<Tree>)
    returns (choice: Result<Choice>)
    ensures choice == Choose(world, bound, id, before, part)
  {
    if part.None? && before == [] { return Ok(Nothing); }
    var present := ArePresent(world, before);
    if !present {
      var carried := FindDescendant(world, before);
      return if carried.Err? || carried.value.None? then Err else Ok(Keep(carried.value.value));
    }
    var reused := FindReused(world, id, before, part.Or(EMPTY));
    if reused.Err? { return Err; }
    if reused.value.Some? { return Ok(Keep(reused.value.value)); }
    choice := if bound(id) then Ok(Make) else Err;
  }

  /** A pin kept, or a commit made. */
  method SplitChildOf(world: World, bound: Bound, view: Commit, tracker: Name, tree: Tree, children: map<Name, Path>,
                      name: Name, parents: seq<Commit>) returns (piece: Result<Piece>)
    requires Subtree(tree, DEFINITIONS_DIR).Some? && name in children && children[name] != []
    ensures piece == SplitChild(world, bound, view, tracker, tree, children, name, parents)
    decreases Height(tree), 0
  {
    var id, part := ChildId(tracker, name), PartOf(tree, children, name);
    var before := PinsBefore(parents, name);
    var choice := ChooseFor(world, bound, id, before, part);
    if choice != Ok(Make) { return Unmade(choice); }
    PartHeight(tree, children, name);
    var inside := SplitPartOf(world, bound, view, id, part.Or(EMPTY), before);
    piece := MadeFor(view, before, inside);
  }

  // ---- view commits, one at a time -------------------------------------------------------------------

  class Splitter {
    const world: World
    const bound: Bound
    /** View commits that stood for a root commit to begin with. */
    const known: map<Commit, Commit>
    /** View commit to root commit. */
    var mapped: map<Commit, Commit>
    /** Tracker commits made, in order. */
    var made: seq<Made>

    ghost predicate Valid()
      reads this
    {
      known.Keys <= mapped.Keys && MappedRight(world, bound, known, mapped)
    }

    constructor (world: World, bound: Bound, known: map<Commit, Commit>)
      ensures Valid() && this.world == world && this.bound == bound && this.known == known && mapped == known
              && made == []
    {
      this.world, this.bound, this.known, mapped, made := world, bound, known, known, [];
      new;
      KnownMapped(world, bound, known);
    }

    /** The root commits `view`'s parents stand for. */
    method RootsOf(view: Commit) returns (roots: seq<Commit>)
      requires forall parent | parent in view.parents :: parent in mapped
      ensures |roots| == |view.parents| && forall i | 0 <= i < |roots| :: roots[i] == mapped[view.parents[i]]
    {
      roots := [];
      var i := 0;
      while i < |view.parents|
        invariant 0 <= i <= |view.parents| && |roots| == i
        invariant forall k | 0 <= k < i :: roots[k] == mapped[view.parents[k]]
      {
        roots := roots + [mapped[view.parents[i]]];
        i := i + 1;
      }
    }

    /** One view commit's root commit, its parents split already. */
    method SplitOne(view: Commit) returns (root: Result<Commit>)
      requires Valid() && view !in known && forall parent | parent in view.parents :: parent in mapped
      modifies this`mapped, this`made
      ensures Valid() && root == SplitHistory(world, bound, known, view)
      ensures mapped == if root.Ok? then old(mapped)[view := root.value] else old(mapped)
    {
      var roots := RootsOf(view);
      RootsAre(world, bound, known, mapped, view, roots);
      var parents := DistinctRoots(roots);
      var part := SplitPartOf(world, bound, view, ROOT, view.tree, parents);
      if part.Err? { return Err; }
      root := Ok(RootCommit(world, view, part.value, parents));
      MappedMore(world, bound, known, mapped, view, root.value);
      mapped := mapped[view := root.value];
      made := made + [Made(ROOT, root.value)] + part.value.made;
    }

    /** One commit after another gets its root, and `tip` is the last to. */
    method SplitAll(tip: Commit) returns (root: Result<Commit>)
      requires Valid() && mapped == known
      modifies this`mapped, this`made
      ensures Valid() && root == SplitHistory(world, bound, known, tip)
    {
      var order := PutInOrder(known, tip);
      var i := 0;
      while i < |order|
        invariant 0 <= i <= |order| && Valid()
        invariant InMap(order[..i], mapped)
      {
        forall parent | parent in order[i].parents ensures parent in mapped {
          assert parent in known || parent in order[..i];
        }
        var made := SplitOne(order[i]);
        if made.Err? {
          NoneSplit(world, bound, known, tip, order[i]);
          return Err;
        }
        InMapMore(order, i, mapped);
        i := i + 1;
      }
      assert order[..i] == order;
      assert MappedAs(world, bound, known, mapped, tip);
      root := Ok(mapped[tip]);
    }
  }

  ghost predicate InMap(views: seq<Commit>, mapped: map<Commit, Commit>) {
    forall view | view in views :: view in mapped
  }

  lemma InMapMore(order: seq<Commit>, i: nat, mapped: map<Commit, Commit>)
    requires i < |order| && InMap(order[..i], mapped) && order[i] in mapped
    ensures InMap(order[..i + 1], mapped)
  {
    assert order[..i + 1] == order[..i] + [order[i]];
  }

  ghost predicate MappedRight(world: World, bound: Bound, known: map<Commit, Commit>, mapped: map<Commit, Commit>) {
    forall view {:trigger MappedAs(world, bound, known, mapped, view)} | view in mapped ::
      MappedAs(world, bound, known, mapped, view)
  }

  ghost predicate MappedAs(world: World, bound: Bound, known: map<Commit, Commit>, mapped: map<Commit, Commit>,
                           view: Commit)
    requires view in mapped
  {
    SplitHistory(world, bound, known, view) == Ok(mapped[view])
  }

  lemma KnownMapped(world: World, bound: Bound, known: map<Commit, Commit>)
    ensures MappedRight(world, bound, known, known)
  {
    forall view | view in known ensures MappedAs(world, bound, known, known, view) { }
  }

  lemma MappedMore(world: World, bound: Bound, known: map<Commit, Commit>, mapped: map<Commit, Commit>, view: Commit,
                   root: Commit)
    requires MappedRight(world, bound, known, mapped) && SplitHistory(world, bound, known, view) == Ok(root)
    ensures MappedRight(world, bound, known, mapped[view := root])
  {
    var more := mapped[view := root];
    forall other | other in more ensures MappedAs(world, bound, known, more, other) {
      assert other != view ==> MappedAs(world, bound, known, mapped, other);
    }
  }

  lemma RootsAre(world: World, bound: Bound, known: map<Commit, Commit>, mapped: map<Commit, Commit>, view: Commit,
                 roots: seq<Commit>)
    requires MappedRight(world, bound, known, mapped) && view !in known && |roots| == |view.parents|
    requires forall i | 0 <= i < |roots| :: view.parents[i] in mapped && roots[i] == mapped[view.parents[i]]
    ensures SplitHistory(world, bound, known, view) == SplitView(world, bound, view, roots)
  {
    forall i | 0 <= i < |roots| ensures SplitHistory(world, bound, known, view.parents[i]) == Ok(roots[i]) {
      assert MappedAs(world, bound, known, mapped, view.parents[i]);
    }
    ParentsAre(world, bound, known, view, roots);
  }

  lemma ParentsAre(world: World, bound: Bound, known: map<Commit, Commit>, view: Commit, roots: seq<Commit>)
    requires |roots| == |view.parents| && forall i | 0 <= i < |roots| ::
               SplitHistory(world, bound, known, view.parents[i]) == Ok(roots[i])
    ensures ParentRoots(world, bound, known, view) == Ok(roots)
  {
    var results :=
      seq(|view.parents|, i requires 0 <= i < |view.parents| => SplitHistory(world, bound, known, view.parents[i]));
    assert forall i | 0 <= i < |results| :: results[i] == Ok(roots[i]);
    assert seq(|results|, i requires 0 <= i < |results| => results[i].value) == roots;
  }

  /** How each view commit splits. */
  ghost function Splitting(world: World, bound: Bound, known: map<Commit, Commit>): Commit -> Result<Commit> {
    view => SplitHistory(world, bound, known, view)
  }

  /** What cannot be split keeps what comes right after it from being split. */
  ghost predicate Spreads(split: Commit -> Result<Commit>, known: map<Commit, Commit>) {
    forall child, view | child !in known && view in child.parents && split(view).Err? :: split(child).Err?
  }

  lemma {:induction false} ErrorReaches(split: Commit -> Result<Commit>, known: map<Commit, Commit>, tip: Commit,
                                        view: Commit, steps: nat)
    requires Spreads(split, known) && NeededIn(known, tip, view, steps) && split(view).Err?
    ensures split(tip).Err?
    decreases steps
  {
    if view != tip {
      var child: Commit :| NeededIn(known, tip, child, steps - 1) && child !in known && view in child.parents;
      ErrorReaches(split, known, tip, child, steps - 1);
    }
  }

  lemma SplittingSpreads(world: World, bound: Bound, known: map<Commit, Commit>)
    ensures Spreads(Splitting(world, bound, known), known)
  {
    var split := Splitting(world, bound, known);
    forall child, view | child !in known && view in child.parents && split(view).Err? ensures split(child).Err? {
      var i: nat :| i < |child.parents| && child.parents[i] == view;
      ParentFails(world, bound, known, child, i);
    }
  }

  lemma ParentFails(world: World, bound: Bound, known: map<Commit, Commit>, child: Commit, i: nat)
    requires child !in known && i < |child.parents|
    ensures SplitHistory(world, bound, known, child.parents[i]).Err? ==> SplitHistory(world, bound, known, child).Err?
  {
    var results :=
      seq(|child.parents|, i requires 0 <= i < |child.parents| => SplitHistory(world, bound, known, child.parents[i]));
    assert results[i] == SplitHistory(world, bound, known, child.parents[i]);
    assert results[i].Err? ==> ParentRoots(world, bound, known, child).Err?;
  }

  /** One commit that cannot be split is enough for the tip not to be. */
  lemma NoneSplit(world: World, bound: Bound, known: map<Commit, Commit>, tip: Commit, view: Commit)
    requires Needed(known, tip, view) && Splitting(world, bound, known)(view).Err?
    ensures Splitting(world, bound, known)(tip).Err?
  {
    var steps: nat :| NeededIn(known, tip, view, steps);
    SplittingSpreads(world, bound, known);
    ErrorReaches(Splitting(world, bound, known), known, tip, view, steps);
  }

  method DistinctRoots(roots: seq<Commit>) returns (parents: seq<Commit>)
    ensures parents == Dedup(roots)
  {
    parents := [];
    var i := 0;
    while i < |roots|
      invariant 0 <= i <= |roots| && parents == Dedup(roots[..i])
    {
      assert roots[..i + 1][..i] == roots[..i];
      if roots[i] !in parents { parents := parents + [roots[i]]; }
      i := i + 1;
    }
    assert roots[..i] == roots;
  }
}
