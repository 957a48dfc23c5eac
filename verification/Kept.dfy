/** Which pin a split keeps. */
module Kept {
  // Where all of a child's pins are here, the split keeps one of them or makes a
  // commit: which, and that either way no line of the child's history is dropped.

  import opened Wrappers
  import opened Names
  import opened Objects
  import opened Compose
  import opened Split
  import opened Carried
  import opened Order
  import Messages

  // ---- ancestry ----------------------------------------------------------------

  /** A way back from `way[0]` through parents, one at a time. */
  ghost predicate IsWay(way: seq<Commit>) {
    way != [] && forall i | 0 <= i < |way| - 1 :: way[i + 1] in way[i].parents
  }

  /** A way from `descendant` back to `ancestor`, of one step or more. */
  ghost predicate LeadsBack(way: seq<Commit>, descendant: Commit, ancestor: Commit) {
    IsWay(way) && |way| > 1 && way[0] == descendant && way[|way| - 1] == ancestor
  }

  lemma {:induction false} WayBack(ancestor: Commit, descendant: Commit) returns (way: seq<Commit>)
    requires IsAncestor(ancestor, descendant)
    ensures LeadsBack(way, descendant, ancestor)
    decreases descendant
  {
    var i :| 0 <= i < |descendant.parents|
             && (descendant.parents[i] == ancestor || IsAncestor(ancestor, descendant.parents[i]));
    var rest := [descendant.parents[i]];
    if descendant.parents[i] != ancestor { rest := WayBack(ancestor, descendant.parents[i]); }
    way := [descendant] + rest;
  }

  lemma {:induction false} WayIsAncestry(way: seq<Commit>, descendant: Commit, ancestor: Commit)
    requires LeadsBack(way, descendant, ancestor)
    ensures IsAncestor(ancestor, descendant)
    decreases |way|
  {
    var i :| 0 <= i < |descendant.parents| && descendant.parents[i] == way[1];
    if |way| > 2 {
      var rest := way[1..];
      forall k | 0 <= k < |rest| - 1 ensures rest[k + 1] in rest[k].parents {
        assert way[k + 2] in way[k + 1].parents;
      }
      WayIsAncestry(rest, way[1], ancestor);
    }
  }

  /** An ancestor is what some way back through parents ends at. */
  lemma AncestorMeans(ancestor: Commit, descendant: Commit)
    ensures IsAncestor(ancestor, descendant) <==> exists way :: LeadsBack(way, descendant, ancestor)
  {
    if IsAncestor(ancestor, descendant) { var way := WayBack(ancestor, descendant); }
    if way :| LeadsBack(way, descendant, ancestor) { WayIsAncestry(way, descendant, ancestor); }
  }

  /** No commit is behind itself. */
  lemma {:induction false} AncestorIsSmaller(ancestor: Commit, descendant: Commit)
    requires IsAncestor(ancestor, descendant)
    ensures ancestor < descendant
    decreases descendant
  {
    var i :| 0 <= i < |descendant.parents|
             && (descendant.parents[i] == ancestor || IsAncestor(ancestor, descendant.parents[i]));
    if descendant.parents[i] != ancestor { AncestorIsSmaller(ancestor, descendant.parents[i]); }
  }

  // ---- which pin -----------------------------------------------------------------

  /** Nothing has to be made: the part is what `pin` composes to, and every other pin is behind it. */
  ghost predicate StandsFor(world: World, id: Name, before: seq<Commit>, part: Tree, pin: Commit) {
    && pin in before && TreeFor(world, EVERYONE, id, pin) == Ok(part)
    && forall other | other in before :: other == pin || IsAncestor(other, pin)
  }

  /** All of `before` composes. */
  ghost predicate AllCompose(world: World, id: Name, before: seq<Commit>) {
    forall pin | pin in before :: TreeFor(world, EVERYONE, id, pin).Ok?
  }

  lemma OneStands(world: World, id: Name, before: seq<Commit>, part: Tree, one: Commit, other: Commit)
    requires StandsFor(world, id, before, part, one) && StandsFor(world, id, before, part, other)
    ensures one == other
  {
    if one != other {
      AncestorIsSmaller(one, other);
      AncestorIsSmaller(other, one);
    }
  }

  lemma ReusableNext(world: World, id: Name, before: seq<Commit>, part: Tree, from: nat, seen: Result<Tree>)
    requires from < |before| && seen == TreeFor(world, EVERYONE, id, before[from]) && seen.Ok?
    ensures Reusable(world, id, before, part, from)
            == if seen == Ok(part) && Leads(before, before[from]) then Ok(Some(before[from]))
               else Reusable(world, id, before, part, from + 1)
  {
  }

  lemma StandsForAt(world: World, id: Name, before: seq<Commit>, part: Tree, i: nat)
    requires i < |before|
    ensures StandsFor(world, id, before, part, before[i]) <==>
              TreeFor(world, EVERYONE, id, before[i]) == Ok(part) && Leads(before, before[i])
  {
  }

  /** `found` is the answer of the search from `from` on. */
  ghost predicate Answers(world: World, id: Name, before: seq<Commit>, part: Tree, from: nat,
                          found: Result<Option<Commit>>)
  {
    && found.Ok? && (found.value.Some? ==> StandsFor(world, id, before, part, found.value.value))
    && (found.value.None? ==> forall i | from <= i < |before| :: !StandsFor(world, id, before, part, before[i]))
  }

  lemma {:induction false} ReusableIs(world: World, id: Name, before: seq<Commit>, part: Tree, from: nat)
    requires from <= |before| && AllCompose(world, id, before)
    ensures Answers(world, id, before, part, from, Reusable(world, id, before, part, from))
    decreases |before| - from
  {
    if from < |before| {
      ReusableIs(world, id, before, part, from + 1);
      AnswersNext(world, id, before, part, from, TreeFor(world, EVERYONE, id, before[from]),
                  Reusable(world, id, before, part, from + 1), Reusable(world, id, before, part, from));
    }
  }

  lemma AnswersNext(world: World, id: Name, before: seq<Commit>, part: Tree, from: nat, seen: Result<Tree>,
                    rest: Result<Option<Commit>>, found: Result<Option<Commit>>)
    requires from < |before| && seen == TreeFor(world, EVERYONE, id, before[from]) && seen.Ok?
    requires rest == Reusable(world, id, before, part, from + 1) && found == Reusable(world, id, before, part, from)
    requires Answers(world, id, before, part, from + 1, rest)
    ensures Answers(world, id, before, part, from, found)
  {
    ReusableNext(world, id, before, part, from, seen);
    StandsForAt(world, id, before, part, from);
  }

  lemma {:induction false} ReusedStands(world: World, id: Name, before: seq<Commit>, part: Tree, from: nat)
    requires from <= |before| && Reusable(world, id, before, part, from).Ok?
    requires Reusable(world, id, before, part, from).value.Some?
    ensures StandsFor(world, id, before, part, Reusable(world, id, before, part, from).value.value)
    decreases |before| - from
  {
    if !(TreeFor(world, EVERYONE, id, before[from]) == Ok(part) && Leads(before, before[from])) {
      ReusedStands(world, id, before, part, from + 1);
    }
  }

  /** What is done for a child whose pins are here, none of them standing for its part. */
  lemma ChoiceIs(world: World, bound: Bound, id: Name, before: seq<Commit>, part: Option<Tree>, choice: Result<Choice>)
    requires AllHeld(world, before) && choice == Choose(world, bound, id, before, part)
    requires part.Some? || before != []
    ensures var found := Reusable(world, id, before, part.Or(EMPTY), 0);
            choice == if found.Err? then Err
                      else if found.value.Some? then Ok(Keep(found.value.value))
                      else if bound(id) then Ok(Make) else Err
  {
  }

  lemma KeptFor(view: Commit, before: seq<Commit>, choice: Result<Choice>, inside: Result<Part>, pin: Commit)
    ensures PieceFor(view, before, choice, inside) == Ok(Reused(pin)) <==> choice == Ok(Keep(pin))
    ensures PieceFor(view, before, choice, inside) == Ok(Absent) <==> choice == Ok(Nothing)
  {
  }

  /**
   With all of a child's pins here, one is reused if and only if the child's part
   is what it composes to and every other is behind it.
   */
  lemma KeptExactlyWhen(world: World, bound: Bound, view: Commit, tracker: Name, tree: Tree,
                        children: map<Name, Path>, name: Name, parents: seq<Commit>, pin: Commit)
    requires Subtree(tree, DEFINITIONS_DIR).Some? && name in children && children[name] != []
    requires AllHeld(world, Before(parents, name)) && AllCompose(world, ChildId(tracker, name), Before(parents, name))
    ensures SplitChild(world, bound, view, tracker, tree, children, name, parents) == Ok(Reused(pin)) <==>
              StandsFor(world, ChildId(tracker, name), Before(parents, name), PartOf(tree, children, name).Or(EMPTY),
                        pin)
  {
    var id, before, part := ChildId(tracker, name), Before(parents, name), PartOf(tree, children, name);
    var choice := Choose(world, bound, id, before, part);
    var inside := SplitPart(world, bound, view, id, part.Or(EMPTY), before);
    PieceIsFor(world, bound, view, tracker, tree, children, name, parents, before, part, choice, inside);
    KeptFor(view, before, choice, inside, pin);
    ChoiceWhenHere(world, bound, id, before, part, choice, pin);
  }

  lemma ChoiceWhenHere(world: World, bound: Bound, id: Name, before: seq<Commit>, part: Option<Tree>,
                       choice: Result<Choice>, pin: Commit)
    requires AllHeld(world, before) && AllCompose(world, id, before)
    requires choice == Choose(world, bound, id, before, part)
    ensures choice == Ok(Keep(pin)) <==> StandsFor(world, id, before, part.Or(EMPTY), pin)
  {
    if part.Some? || before != [] {
      ChoiceIs(world, bound, id, before, part, choice);
      ReusableIs(world, id, before, part.Or(EMPTY), 0);
      KeptStands(world, id, before, part.Or(EMPTY), Reusable(world, id, before, part.Or(EMPTY), 0), pin);
    }
  }

  lemma KeptStands(world: World, id: Name, before: seq<Commit>, part: Tree, found: Result<Option<Commit>>, pin: Commit)
    requires Answers(world, id, before, part, 0, found)
    ensures found == Ok(Some(pin)) <==> StandsFor(world, id, before, part, pin)
  {
    if StandsFor(world, id, before, part, pin) {
      var i :| 0 <= i < |before| && before[i] == pin;
      OneStands(world, id, before, part, pin, found.value.value);
    }
  }

  /** A commit on all of `before`, by who made the view commit, and with its message. */
  ghost predicate MadeOf(view: Commit, before: seq<Commit>, pin: Commit) {
    pin.parents == before && pin.author == view.author && pin.committer == view.committer && pin.message == view.message
  }

  /**
   Whichever it is, the pin a split leaves a child at has every pin the parents
   had behind it, or is it: no side of a merge is dropped from the child's history.
   */
  lemma NoLineDropped(world: World, bound: Bound, view: Commit, tracker: Name, tree: Tree, children: map<Name, Path>,
                      name: Name, parents: seq<Commit>, other: Commit)
    requires Subtree(tree, DEFINITIONS_DIR).Some? && name in children && children[name] != []
    requires SplitChild(world, bound, view, tracker, tree, children, name, parents).Ok?
             && other in Before(parents, name)
    ensures var piece := SplitChild(world, bound, view, tracker, tree, children, name, parents).value;
            && !piece.Absent? && (other == piece.pin || IsAncestor(other, piece.pin))
            && (piece.New? ==> MadeOf(view, Before(parents, name), piece.pin))
  {
    var id, before, part := ChildId(tracker, name), Before(parents, name), PartOf(tree, children, name);
    var choice := Choose(world, bound, id, before, part);
    var inside := SplitPart(world, bound, view, id, part.Or(EMPTY), before);
    PieceIsFor(world, bound, view, tracker, tree, children, name, parents, before, part, choice, inside);
    if !AllHeld(world, before) { ChoiceWhenNotHere(world, bound, id, before, part); }
    NothingChosen(world, bound, id, before, part, choice);
    AllBehindPiece(world, id, view, before, part.Or(EMPTY), choice, inside, other);
  }

  lemma AllBehindPiece(world: World, id: Name, view: Commit, before: seq<Commit>, part: Tree, choice: Result<Choice>,
                       inside: Result<Part>, other: Commit)
    requires PieceFor(view, before, choice, inside).Ok? && other in before && choice != Ok(Nothing)
    requires choice.Ok? && choice.value.Keep? ==>
               before == [choice.value.pin] || StandsFor(world, id, before, part, choice.value.pin)
    ensures var piece := PieceFor(view, before, choice, inside).value;
            && !piece.Absent? && (other == piece.pin || IsAncestor(other, piece.pin))
            && (piece.New? ==> MadeOf(view, before, piece.pin))
  {
    if choice == Ok(Make) {
      var i :| 0 <= i < |before| && before[i] == other;
      assert ChildCommit(view, inside.value, before).parents[i] == other;
    }
  }

  /** A child that no parent pinned and that has no part stays away; any other is pinned. */
  lemma AbsentExactlyWhen(world: World, bound: Bound, view: Commit, tracker: Name, tree: Tree,
                          children: map<Name, Path>, name: Name, parents: seq<Commit>)
    requires Subtree(tree, DEFINITIONS_DIR).Some? && name in children && children[name] != []
    ensures SplitChild(world, bound, view, tracker, tree, children, name, parents) == Ok(Absent) <==>
              PartOf(tree, children, name).None?
              && forall i | 0 <= i < |parents| :: name !in Pins(parents[i].tree)
  {
    NoneBefore(parents, name);
    AbsentIs(world, bound, view, tracker, tree, children, name, parents);
  }

  lemma NoneBefore(parents: seq<Commit>, name: Name)
    ensures Before(parents, name) == [] <==> forall i | 0 <= i < |parents| :: name !in Pins(parents[i].tree)
  {
    var before := Before(parents, name);
    forall i | 0 <= i < |parents| && name in Pins(parents[i].tree) ensures before != [] {
      assert Pins(parents[i].tree)[name] in before;
    }
    if before != [] { assert before[0] in before; }
  }

  lemma AbsentIs(world: World, bound: Bound, view: Commit, tracker: Name, tree: Tree, children: map<Name, Path>,
                 name: Name, parents: seq<Commit>)
    requires Subtree(tree, DEFINITIONS_DIR).Some? && name in children && children[name] != []
    ensures SplitChild(world, bound, view, tracker, tree, children, name, parents) == Ok(Absent) <==>
              PartOf(tree, children, name).None? && Before(parents, name) == []
  {
    var id, before, part := ChildId(tracker, name), Before(parents, name), PartOf(tree, children, name);
    var choice := Choose(world, bound, id, before, part);
    var inside := SplitPart(world, bound, view, id, part.Or(EMPTY), before);
    PieceIsFor(world, bound, view, tracker, tree, children, name, parents, before, part, choice, inside);
    KeptFor(view, before, choice, inside, view);
    NothingChosen(world, bound, id, before, part, choice);
  }

  lemma NothingChosen(world: World, bound: Bound, id: Name, before: seq<Commit>, part: Option<Tree>,
                      choice: Result<Choice>)
    requires choice == Choose(world, bound, id, before, part)
    ensures choice == Ok(Nothing) <==> part.None? && before == []
    ensures choice == Ok(Make) ==> AllHeld(world, before) && bound(id)
    ensures choice.Ok? && choice.value.Keep? && AllHeld(world, before) ==>
              StandsFor(world, id, before, part.Or(EMPTY), choice.value.pin)
  {
    if AllHeld(world, before) && (part.Some? || before != []) {
      ChoiceIs(world, bound, id, before, part, choice);
      var found := Reusable(world, id, before, part.Or(EMPTY), 0);
      if found.Ok? && found.value.Some? { ReusedStands(world, id, before, part.Or(EMPTY), 0); }
    }
  }

  // ---- what the root commit says -----------------------------------------------------

  /**
   A root commit stands on the roots of the view's parents, is by whom the view commit is by, and tells
   its id and headers. It has the view's message if the split changed root's own files or made no commit;
   otherwise the message is with the children.
   */
  lemma RootTells(world: World, bound: Bound, view: Commit, roots: seq<Commit>, part: Part, root: Commit)
    requires Messages.IsId(world.id(view)) && SplitView(world, bound, view, roots) == Ok(root)
    requires SplitPart(world, bound, view, ROOT, view.tree, Dedup(roots)) == Ok(part)
    ensures Distinct(root.parents) && forall parent :: parent in root.parents <==> parent in roots
    ensures root.author == view.author && root.committer == view.committer
    ensures var told := Messages.ParseSplit(root.message);
            && told.Some? && told.value.source == world.id(view)
            && (Messages.WellFormed(view.headers) ==> told.value.headers == view.headers)
            && told.value.message
               == if part.made == [] || part.own != (if root.parents == [] then EMPTY else Own(root.parents[0].tree))
                  then view.message else "Update " + CommaJoin(TrackersOf(part.made)) + "\n"
  {
    var message := if CarriesMessage(part, Dedup(roots)) then view.message else UpdateMessage(part.made);
    Messages.ParseSplitUndoes(message, world.id(view), view.headers);
  }

  /** Where commits were made, each tracker once. */
  function TrackersOf(made: seq<Made>): (names: seq<Name>)
    ensures Distinct(names) && forall name :: name in names <==> exists i :: 0 <= i < |made| && made[i].tracker == name
    ensures forall i, j | 0 <= i < j < |names| :: AtMost(names[i], names[j])
  {
    var names := ByName(set i | 0 <= i < |made| :: made[i].tracker);
    assert forall i, j | 0 <= i < j < |names| :: KeyAtMost(NameKey(names[i]), NameKey(names[j]));
    names
  }

  /** Names in a list, a comma and a space between any two. */
  lemma {:induction false} CommaJoined(names: seq<Name>, last: Name)
    ensures CommaJoin([last]) == last
    ensures names != [] ==> CommaJoin(names + [last]) == CommaJoin(names) + ", " + last
    decreases |names|
  {
    if |names| == 1 {
      assert (names + [last])[1..] == [last];
    } else if |names| > 1 {
      CommaJoined(names[1..], last);
      assert (names + [last])[1..] == names[1..] + [last];
      assert names[0] + ", " + (CommaJoin(names[1..]) + ", " + last)
          == names[0] + ", " + CommaJoin(names[1..]) + ", " + last;
    }
  }

  // ---- where commits are made -----------------------------------------------------

  ghost predicate AllBound(bound: Bound, made: seq<Made>) { forall one | one in made :: bound(one.tracker) }

  ghost predicate PieceBound(bound: Bound, id: Name, piece: Piece) {
    piece.New? ==> bound(id) && AllBound(bound, piece.inside)
  }

  lemma PieceForBound(bound: Bound, id: Name, view: Commit, before: seq<Commit>, choice: Result<Choice>,
                      inside: Result<Part>)
    requires choice == Ok(Make) ==> bound(id) && (inside.Ok? ==> AllBound(bound, inside.value.made))
    ensures var piece := PieceFor(view, before, choice, inside); piece.Ok? ==> PieceBound(bound, id, piece.value)
  {
  }

  lemma {:induction false} AssembledBound(bound: Bound, own: Tree, tracker: Name, order: seq<Name>,
                                          pieces: map<Name, Piece>)
    requires forall name | name in order :: name in pieces && PieceBound(bound, ChildId(tracker, name), pieces[name])
    ensures AllBound(bound, Assembled(own, tracker, order, pieces).made)
    decreases |order|
  {
    if order != [] { AssembledBound(bound, own, tracker, order[1..], pieces); }
  }

  lemma ChildBound(world: World, bound: Bound, view: Commit, tracker: Name, tree: Tree, children: map<Name, Path>,
                   name: Name, parents: seq<Commit>, before: seq<Commit>, part: Option<Tree>, inside: Result<Part>)
    requires Subtree(tree, DEFINITIONS_DIR).Some? && name in children && children[name] != []
    requires before == Before(parents, name) && part == PartOf(tree, children, name)
    requires inside == SplitPart(world, bound, view, ChildId(tracker, name), part.Or(EMPTY), before)
    requires inside.Ok? ==> AllBound(bound, inside.value.made)
    ensures var piece := SplitChild(world, bound, view, tracker, tree, children, name, parents);
            piece.Ok? ==> PieceBound(bound, ChildId(tracker, name), piece.value)
  {
    var choice := Choose(world, bound, ChildId(tracker, name), before, part);
    NothingChosen(world, bound, ChildId(tracker, name), before, part, choice);
    PieceIsFor(world, bound, view, tracker, tree, children, name, parents, before, part, choice, inside);
    PieceForBound(bound, ChildId(tracker, name), view, before, choice, inside);
  }

  /** Commits are made in trackers worked on only, at every depth. */
  lemma {:induction false} MadeAreBound(world: World, bound: Bound, view: Commit, tracker: Name, tree: Tree,
                                        parents: seq<Commit>, part: Part)
    requires SplitPart(world, bound, view, tracker, tree, parents) == Ok(part)
    ensures AllBound(bound, part.made)
    decreases Height(tree)
  {
    var children, pieces := LevelIs(world, bound, view, tracker, tree, parents, part);
    forall name | name in children ensures PieceBound(bound, ChildId(tracker, name), pieces[name]) {
      PartHeight(tree, children, name);
      var id, before, mine := ChildId(tracker, name), Before(parents, name), PartOf(tree, children, name);
      var inside := SplitPart(world, bound, view, id, mine.Or(EMPTY), before);
      if inside.Ok? { MadeAreBound(world, bound, view, id, mine.Or(EMPTY), before, inside.value); }
      ChildBound(world, bound, view, tracker, tree, children, name, parents, before, mine, inside);
    }
    var order := DeepestFirst(children);
    AssembledBound(bound, WithoutMounts(Own(tree), children, order), tracker, order, pieces);
  }

  /** Before the commit made for a child come those made inside it, in their order. */
  ghost predicate After(made: seq<Made>, one: Made, inside: seq<Made>) {
    exists i | |inside| <= i < |made| :: made[i] == one && made[i - |inside|..i] == inside
  }

  lemma {:induction false} AssembledAfter(own: Tree, tracker: Name, order: seq<Name>, pieces: map<Name, Piece>,
                                          name: Name)
    requires name in order && pieces.Keys >= (set other | other in order) && pieces[name].New?
    ensures After(Assembled(own, tracker, order, pieces).made, Made(ChildId(tracker, name), pieces[name].pin),
                  pieces[name].inside)
    decreases |order|
  {
    var made := Assembled(own, tracker, order, pieces).made;
    var one, inside := Made(ChildId(tracker, name), pieces[name].pin), pieces[name].inside;
    if order[0] == name {
      assert made[|inside|] == one && made[|inside| - |inside|..|inside|] == inside;
    } else {
      AssembledAfter(own, tracker, order[1..], pieces, name);
      var rest := Assembled(own, tracker, order[1..], pieces).made;
      AfterMore(made[..|made| - |rest|], rest, made, one, inside);
    }
  }

  lemma AfterMore(first: seq<Made>, rest: seq<Made>, made: seq<Made>, one: Made, inside: seq<Made>)
    requires After(rest, one, inside) && made == first + rest
    ensures After(made, one, inside)
  {
    var i :| |inside| <= i < |rest| && rest[i] == one && rest[i - |inside|..i] == inside;
    var at := |first| + i;
    assert made[|first|..] == rest;
    assert made[at - |inside|..at] == made[|first|..][i - |inside|..i];
    assert made[at] == one;
  }

  /** A commit made for a child is listed right behind those made for what is mounted in it. */
  lemma MadeAfterInside(world: World, bound: Bound, view: Commit, tracker: Name, tree: Tree, parents: seq<Commit>,
                        part: Part, children: map<Name, Path>, name: Name, pin: Commit, inside: seq<Made>)
    requires SplitPart(world, bound, view, tracker, tree, parents) == Ok(part)
    requires ChildrenIn(world, tree, tracker) == Ok(children) && name in children
    requires SplitChild(world, bound, view, tracker, tree, children, name, parents) == Ok(New(pin, inside))
    ensures After(part.made, Made(ChildId(tracker, name), pin), inside)
  {
    var found, pieces := LevelIs(world, bound, view, tracker, tree, parents, part);
    var order := DeepestFirst(children);
    AssembledAfter(WithoutMounts(Own(tree), children, order), tracker, order, pieces, name);
  }
}
