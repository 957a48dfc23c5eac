/** Pins of children not here. */
module Carried {
  // A child whose pinned commit is not in the store keeps its pin, whatever the
  // view holds at its mount. These lemmas say when that happens and what it loses.

  import opened Wrappers
  import opened Names
  import opened Objects
  import opened Order
  import opened Compose
  import opened Split

  /** The pins of commits that `world` holds. */
  function Here(world: World, pins: map<Name, Commit>): (here: map<Name, Commit>) {
    map name | name in pins && world.held(pins[name]) :: pins[name]
  }

  /** A reader of everything gets exactly the pins that are here. */
  lemma EveryoneGetsAll(world: World, tracker: Name, pins: map<Name, Commit>)
    ensures ReadablePins(world, EVERYONE, tracker, pins) == Here(world, pins)
  {
  }

  // ---- a merge of pins that are not all here -------------------------------------

  lemma {:induction false} NotBehindUnheld(world: World, commits: seq<Commit>, candidate: Commit, at: nat, unheld: nat)
    requires at <= unheld < |commits| && !world.held(commits[unheld]) && commits[unheld] != candidate
    ensures AllBehind(world, commits, candidate, at) != Ok(true)
    decreases |commits| - at
  {
    if at != unheld { NotBehindUnheld(world, commits, candidate, at + 1, unheld); }
  }

  lemma {:induction false} UnheldCannotLead(world: World, commits: seq<Commit>, candidate: Commit, at: nat, other: nat)
    requires at <= other < |commits| && !world.held(candidate) && commits[other] != candidate
    ensures AllBehind(world, commits, candidate, at).Err?
    decreases |commits| - at
  {
    if at != other && commits[at] == candidate { UnheldCannotLead(world, commits, candidate, at + 1, other); }
  }

  lemma {:induction false} NoDescendant(world: World, commits: seq<Commit>, from: nat, unheld: nat)
    requires Distinct(commits) && |commits| > 1
    requires from <= unheld < |commits| && !world.held(commits[unheld])
    ensures Descendant(world, commits, from).Err?
    decreases |commits| - from
  {
    if from == unheld {
      UnheldCannotLead(world, commits, commits[from], 0, if from == 0 then 1 else 0);
    } else {
      NotBehindUnheld(world, commits, commits[from], 0, unheld);
      NoDescendant(world, commits, from + 1, unheld);
    }
  }

  /**
   A child not all here: one pin carries over, whatever its part is now; pins
   that differ between the parents cannot be joined, and the split is refused.
   */
  lemma ChoiceWhenNotHere(world: World, bound: Bound, id: Name, before: seq<Commit>, part: Option<Tree>)
    requires Distinct(before) && !AllHeld(world, before)
    ensures Choose(world, bound, id, before, part) == if |before| == 1 then Ok(Keep(before[0])) else Err
  {
    var unheld: nat :| unheld < |before| && !world.held(before[unheld]);
    if |before| > 1 {
      NoDescendant(world, before, 0, unheld);
    } else {
      assert AllBehind(world, before, before[0], 1) == Ok(true);
    }
  }

  /** So the piece is the pin itself: nothing of the view, and no choice of where to work, changes it. */
  lemma CarriedWhatever(world: World, bound: Bound, view: Commit, tracker: Name, tree: Tree,
                        children: map<Name, Path>, name: Name, parents: seq<Commit>)
    requires Subtree(tree, DEFINITIONS_DIR).Some? && name in children && children[name] != []
    requires !AllHeld(world, Before(parents, name))
    ensures SplitChild(world, bound, view, tracker, tree, children, name, parents)
            == if |Before(parents, name)| == 1 then Ok(Reused(Before(parents, name)[0])) else Err
  {
    var part := PartOf(tree, children, name);
    ChoiceWhenNotHere(world, bound, ChildId(tracker, name), Before(parents, name), part);
  }

  /** No child is here, and each had one pin. */
  ghost predicate NoneHere(world: World, children: map<Name, Path>, parents: seq<Commit>) {
    forall name | name in children :: !AllHeld(world, Before(parents, name)) && |Before(parents, name)| == 1
  }

  function CarriedPins(world: World, children: map<Name, Path>, parents: seq<Commit>): (pins: map<Name, Commit>)
    requires NoneHere(world, children, parents)
  {
    map name | name in children :: Before(parents, name)[0]
  }

  function CarriedPieces(pins: map<Name, Commit>): map<Name, Piece> {
    map name | name in pins :: Reused(pins[name])
  }

  lemma EachCarried(world: World, bound: Bound, view: Commit, tracker: Name, tree: Tree, children: map<Name, Path>,
                    name: Name, parents: seq<Commit>)
    requires NoneHere(world, children, parents) && name in children
    requires Subtree(tree, DEFINITIONS_DIR).Some? && children[name] != []
    ensures SplitChild(world, bound, view, tracker, tree, children, name, parents)
            == Ok(Reused(CarriedPins(world, children, parents)[name]))
  {
    CarriedWhatever(world, bound, view, tracker, tree, children, name, parents);
  }

  lemma AllPieces(world: World, bound: Bound, view: Commit, tracker: Name, tree: Tree, children: map<Name, Path>,
                  parents: seq<Commit>, pieces: map<Name, Piece>)
    requires NoneHere(world, children, parents) && pieces == CarriedPieces(CarriedPins(world, children, parents))
    requires children != map[] ==> Subtree(tree, DEFINITIONS_DIR).Some?
    requires forall name | name in children :: children[name] != []
    ensures forall name | name in children ::
              SplitChild(world, bound, view, tracker, tree, children, name, parents) == Ok(pieces[name])
  {
    forall name | name in children
      ensures SplitChild(world, bound, view, tracker, tree, children, name, parents) == Ok(pieces[name])
    {
      EachCarried(world, bound, view, tracker, tree, children, name, parents);
    }
  }

  /** With no child here at all, every pin carries over and no commit is made. */
  lemma AllCarried(world: World, bound: Bound, view: Commit, tracker: Name, tree: Tree, children: map<Name, Path>,
                   parents: seq<Commit>)
    requires ChildrenIn(world, tree, tracker) == Ok(children) && NoneHere(world, children, parents)
    ensures SplitPart(world, bound, view, tracker, tree, parents)
            == Ok(Part(WithoutMounts(Own(tree), children, DeepestFirst(children)),
                       CarriedPins(world, children, parents), []))
  {
    var pins := CarriedPins(world, children, parents);
    AllPieces(world, bound, view, tracker, tree, children, parents, CarriedPieces(pins));
    PartGiven(world, bound, view, tracker, tree, parents, children, CarriedPieces(pins));
    AllReused(WithoutMounts(Own(tree), children, DeepestFirst(children)), tracker, children, DeepestFirst(children),
              pins);
  }

  lemma AllReused(own: Tree, tracker: Name, children: map<Name, Path>, order: seq<Name>, pins: map<Name, Commit>)
    requires Distinct(order) && (forall name :: name in order <==> name in children) && pins.Keys == children.Keys
    ensures Assembled(own, tracker, order, CarriedPieces(pins)) == Part(own, pins, [])
  {
    AssembledPins(own, tracker, order, CarriedPieces(pins));
    AssembledMade(own, tracker, order, CarriedPieces(pins));
    assert Assembled(own, tracker, order, CarriedPieces(pins)).pins == pins;
  }

  lemma OneCarried(world: World, bound: Bound, view: Commit, tracker: Name, tree: Tree, children: map<Name, Path>,
                   name: Name, parents: seq<Commit>, pin: Commit)
    requires ChildrenIn(world, tree, tracker) == Ok(children) && children.Keys == {name}
    requires Before(parents, name) == [pin] && !world.held(pin)
    ensures SplitPart(world, bound, view, tracker, tree, parents)
            == Ok(Part(WithoutMounts(Own(tree), children, DeepestFirst(children)), map[name := pin], []))
  {
    OneNotHere(world, children, name, parents, pin);
    AllCarried(world, bound, view, tracker, tree, children, parents);
  }

  lemma OneNotHere(world: World, children: map<Name, Path>, name: Name, parents: seq<Commit>, pin: Commit)
    requires children.Keys == {name} && Before(parents, name) == [pin] && !world.held(pin)
    ensures NoneHere(world, children, parents) && CarriedPins(world, children, parents) == map[name := pin]
  {
    assert pin in Before(parents, name);
    assert !AllHeld(world, Before(parents, name));
    forall other | other in children ensures other == name { }
  }

  // ---- what is lost --------------------------------------------------------------

  /** No child that is not all here has files in `tree`, nor one of a child that commits are made for. */
  ghost predicate NothingLost(world: World, bound: Bound, tracker: Name, tree: Tree, parents: seq<Commit>)
    decreases Height(tree), 1
  {
    var found := ChildrenIn(world, tree, tracker);
    found.Ok? ==> forall name | name in found.value ::
      ChildKept(world, bound, tracker, tree, found.value, name, parents)
  }

  /** A child not all here has no part, and nothing is lost of one that a commit is made for. */
  ghost predicate ChildKept(world: World, bound: Bound, tracker: Name, tree: Tree, children: map<Name, Path>,
                            name: Name, parents: seq<Commit>)
    requires name in children && children[name] != [] && Subtree(tree, DEFINITIONS_DIR).Some?
    decreases Height(tree), 0
  {
    PartHeight(tree, children, name);
    var id, part, before := ChildId(tracker, name), PartOf(tree, children, name), Before(parents, name);
    && (!AllHeld(world, before) ==> part.None?)
    && (Choose(world, bound, id, before, part) == Ok(Make) ==> NothingLost(world, bound, id, part.Or(EMPTY), before))
  }

  lemma CarriedLoses(world: World, bound: Bound, tracker: Name, tree: Tree, parents: seq<Commit>,
                     children: map<Name, Path>, name: Name)
    requires ChildrenIn(world, tree, tracker) == Ok(children) && name in children
    requires !AllHeld(world, Before(parents, name)) && PartOf(tree, children, name).Some?
    ensures !NothingLost(world, bound, tracker, tree, parents)
  {
    assert !ChildKept(world, bound, tracker, tree, children, name, parents);
  }

  /** A store that has every commit loses nothing. */
  lemma {:induction false} WholeLosesNothing(world: World, bound: Bound, tracker: Name, tree: Tree,
                                             parents: seq<Commit>)
    requires forall commit :: world.held(commit)
    ensures NothingLost(world, bound, tracker, tree, parents)
    decreases Height(tree)
  {
    var found := ChildrenIn(world, tree, tracker);
    if found.Ok? {
      var children := found.value;
      forall name | name in children ensures ChildKept(world, bound, tracker, tree, children, name, parents) {
        PartHeight(tree, children, name);
        WholeLosesNothing(world, bound, ChildId(tracker, name), PartOf(tree, children, name).Or(EMPTY),
                          Before(parents, name));
      }
    }
  }
}
