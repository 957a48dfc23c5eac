/** Who holds each tracker's definition. */
module Governance {
  // Who holds each tracker's definition file, decided from who holds them now and
  // what those definitions say. Governance only delegates downward.

  import opened Wrappers
  import opened Order

  const ACCESS := "access"
  const ACCESS_MOUNT := ".newgit/trackers"

  /** What decides ownership, out of one definition file. */
  datatype Facts = Facts(git: bool, mount: string, paths: seq<string>)

  // ---- paths ---------------------------------------------------------------------------------

  /** The segments of a path, empty ones and `.` left out. */
  function Segments(path: string, segment: string): seq<string> {
    if path == "" then Segment(segment)
    else if path[0] == '/' then Segment(segment) + Segments(path[1..], "")
    else Segments(path[1..], segment + [path[0]])
  }

  function Segment(segment: string): seq<string> { if segment == "" || segment == "." then [] else [segment] }

  function Joined(segments: seq<string>): string {
    if segments == [] then ""
    else if |segments| == 1 then segments[0]
    else segments[0] + "/" + Joined(segments[1..])
  }

  function Normalized(path: string): string {
    var segments := Segments(path, "");
    if segments == [] then "." else Joined(segments)
  }

  /** `path` lies within `prefix`, which ends where a name ends; nothing lies outside `.`. */
  predicate HoldsPath(prefix: string, path: string) {
    prefix == "." || path == prefix || prefix + "/" <= path
  }

  /** The workspace path a claim stands for. */
  function PlaceClaim(mount: string, claim: string): string {
    var relative := Normalized(claim);
    if mount == "." then relative else if relative == "." then mount else mount + "/" + relative
  }

  function Slashes(path: string): nat {
    if path == "" then 0 else (if path[0] == '/' then 1 else 0) + Slashes(path[1..])
  }

  function Depth(mount: string): nat { if mount == "." then 0 else Slashes(mount) + 1 }

  // ---- claims --------------------------------------------------------------------------------

  predicate IsExclusion(written: string) { "!" <= written }

  /** The workspace path a claim, or what it excludes, covers. */
  function Placed(mount: string, written: string): string {
    PlaceClaim(mount, if IsExclusion(written) then written[1..] else written)
  }

  predicate Covers(mount: string, written: string, path: string) { HoldsPath(Placed(mount, written), path) }

  function Weight(claim: string): nat { if claim == "." then 0 else |claim| }

  predicate Excluded(facts: Facts, path: string) {
    exists i :: 0 <= i < |facts.paths| && IsExclusion(facts.paths[i]) && Covers(facts.mount, facts.paths[i], path)
  }

  predicate Claims(facts: Facts, path: string, i: nat) {
    i < |facts.paths| && !IsExclusion(facts.paths[i]) && Covers(facts.mount, facts.paths[i], path)
  }

  /** The weight of the longest claim on `path`; nothing when none covers it or an exclusion takes it out. */
  ghost predicate IsClaim(facts: Facts, path: string, claim: Option<nat>) {
    if claim.None? then Excluded(facts, path) || forall i: nat :: !Claims(facts, path, i)
    else
      && !Excluded(facts, path)
      && (exists i: nat :: Claims(facts, path, i) && ClaimWeight(facts, i) == claim.value)
      && forall i: nat | Claims(facts, path, i) :: ClaimWeight(facts, i) <= claim.value
  }

  lemma OneClaim(facts: Facts, path: string, one: Option<nat>, other: Option<nat>)
    requires IsClaim(facts, path, one) && IsClaim(facts, path, other)
    ensures one == other
  {
  }

  function ClaimWeight(facts: Facts, i: nat): nat
    requires i < |facts.paths|
  {
    Weight(Placed(facts.mount, facts.paths[i]))
  }

  ghost function ClaimOf(facts: Facts, path: string): (claim: Option<nat>)
    ensures IsClaim(facts, path, claim)
  {
    SomeClaim(facts, path);
    var claim :| IsClaim(facts, path, claim);
    claim
  }

  lemma SomeClaim(facts: Facts, path: string)
    ensures exists claim :: IsClaim(facts, path, claim)
  {
    var longest := Longest(facts, path, |facts.paths|);
    if Excluded(facts, path) || longest.None? {
      assert IsClaim(facts, path, None);
    } else {
      assert IsClaim(facts, path, Some(ClaimWeight(facts, longest.value)));
    }
  }

  lemma {:induction false} Longest(facts: Facts, path: string, upto: nat) returns (longest: Option<nat>)
    requires upto <= |facts.paths|
    ensures longest.None? ==> forall i: nat | i < upto :: !Claims(facts, path, i)
    ensures longest.Some? ==>
              && longest.value < upto && Claims(facts, path, longest.value)
              && forall i: nat | i < upto && Claims(facts, path, i) ::
                   ClaimWeight(facts, i) <= ClaimWeight(facts, longest.value)
    decreases upto
  {
    longest := None;
    if upto > 0 {
      longest := Longest(facts, path, upto - 1);
      var last := upto - 1;
      if Claims(facts, path, last) && (longest.None? || ClaimWeight(facts, last) > ClaimWeight(facts, longest.value)) {
        longest := Some(last);
      }
    }
  }

  /** How specifically `facts` claims `path`, in whatever order its claims are written. */
  method ClaimOn(facts: Facts, path: string) returns (best: Option<nat>)
    ensures best == ClaimOf(facts, path)
  {
    best := None;
    var i := 0;
    while i < |facts.paths|
      invariant 0 <= i <= |facts.paths|
      invariant forall k | 0 <= k < i :: !(IsExclusion(facts.paths[k]) && Covers(facts.mount, facts.paths[k], path))
      invariant best.None? ==> forall k: nat | k < i :: !Claims(facts, path, k)
      invariant best.Some? ==>
                  && (exists k: nat :: k < i && Claims(facts, path, k) && ClaimWeight(facts, k) == best.value)
                  && forall k: nat | k < i && Claims(facts, path, k) :: ClaimWeight(facts, k) <= best.value
    {
      var written := facts.paths[i];
      if Covers(facts.mount, written, path) {
        if IsExclusion(written) {
          assert Excluded(facts, path);
          return None;
        }
        assert Claims(facts, path, i);
        var weight := Weight(Placed(facts.mount, written));
        if best.None? || weight > best.value { best := Some(weight); }
      }
      i := i + 1;
    }
    OneClaim(facts, path, best, ClaimOf(facts, path));
  }

  // ---- owners --------------------------------------------------------------------------------

  type Definitions = map<string, Facts>

  predicate MountedOver(facts: Definitions, path: string, name: string) {
    name in facts && facts[name].git && HoldsPath(facts[name].mount, path)
  }

  /** Mounted as deep over `path` as any. */
  ghost predicate DeepestOver(facts: Definitions, path: string, name: string) {
    && MountedOver(facts, path, name)
    && forall other | MountedOver(facts, path, other) :: Depth(facts[other].mount) <= Depth(facts[name].mount)
  }

  /** The deepest mount's trackers that claim `path`. */
  ghost function Claimants(facts: Definitions, path: string): set<string> {
    set name | name in facts && DeepestOver(facts, path, name) && ClaimOf(facts[name], path).Some?
  }

  /** The longest claim first, then the lesser name. */
  ghost function Preference(facts: Definitions, path: string): string -> Key {
    name => Key(if name in facts && ClaimOf(facts[name], path).Some? then 0 - ClaimOf(facts[name], path).value as int
                else 0, "", name)
  }

  ghost predicate IsOwner(facts: Definitions, path: string, owner: Option<string>) {
    if owner.None? then Claimants(facts, path) == {}
    else IsLeast(Claimants(facts, path), Preference(facts, path), owner.value)
  }

  lemma OneOwner(facts: Definitions, path: string)
    ensures exists owner: Option<string> :: IsOwner(facts, path, owner)
    ensures forall one, other | IsOwner(facts, path, one) && IsOwner(facts, path, other) :: one == other
  {
    if Claimants(facts, path) == {} {
      assert IsOwner(facts, path, None);
    } else {
      OneLeast(Claimants(facts, path), Preference(facts, path));
      var least :| IsLeast(Claimants(facts, path), Preference(facts, path), least);
      assert IsOwner(facts, path, Some(least));
    }
  }

  /** Who answers for `path`: the best of the claims on it, if any tracker has one. */
  ghost function OwnerOf(facts: Definitions, path: string): (owner: Option<string>)
    ensures IsOwner(facts, path, owner)
  {
    OneOwner(facts, path);
    var owner :| IsOwner(facts, path, owner);
    owner
  }

  /** The best of the claimants among `seen`. */
  ghost predicate BestOf(facts: Definitions, path: string, seen: set<string>, owner: Option<(string, nat)>) {
    var claimants, key := seen * Claimants(facts, path), Preference(facts, path);
    if owner.None? then claimants == {}
    else
      && owner.value.0 in facts && ClaimOf(facts[owner.value.0], path) == Some(owner.value.1)
      && IsLeast(claimants, key, owner.value.0)
  }

  predicate Better(name: string, claim: nat, owner: Option<(string, nat)>) {
    owner.None? || claim > owner.value.1 || (claim == owner.value.1 && !AtMost(owner.value.0, name))
  }

  lemma BestMore(facts: Definitions, path: string, seen: set<string>, owner: Option<(string, nat)>, name: string)
    requires BestOf(facts, path, seen, owner)
    ensures name !in Claimants(facts, path) ==> BestOf(facts, path, seen + {name}, owner)
    ensures name in Claimants(facts, path) ==>
              var claim := ClaimOf(facts[name], path).value;
              BestOf(facts, path, seen + {name}, if Better(name, claim, owner) then Some((name, claim)) else owner)
  {
    var claimants, key := Claimants(facts, path), Preference(facts, path);
    if name !in claimants {
      assert (seen + {name}) * claimants == seen * claimants;
    } else {
      assert (seen + {name}) * claimants == seen * claimants + {name};
      KeyAtMostTotal(key(name), key(name));
      if owner.Some? {
        AtMostTotal(owner.value.0, name);
        if Better(name, ClaimOf(facts[name], path).value, owner) {
          forall other | other in seen * claimants ensures KeyAtMost(key(name), key(other)) {
            KeyAtMostTransitive(key(name), key(owner.value.0), key(other));
          }
        }
      }
    }
  }

  /** The deepest of these mounts. */
  method DeepestMount(facts: Definitions, inGit: set<string>) returns (deepest: nat)
    requires inGit != {} && forall name | name in inGit :: name in facts
    ensures exists name :: name in inGit && Depth(facts[name].mount) == deepest
    ensures forall name | name in inGit :: Depth(facts[name].mount) <= deepest
  {
    var first :| first in inGit;
    deepest := Depth(facts[first].mount);
    var left, seen := inGit - {first}, {first};
    while left != {}
      invariant left + seen == inGit
      invariant exists name :: name in seen && Depth(facts[name].mount) == deepest
      invariant forall name | name in seen :: Depth(facts[name].mount) <= deepest
      decreases left
    {
      var name :| name in left;
      if Depth(facts[name].mount) > deepest { deepest := Depth(facts[name].mount); }
      left, seen := left - {name}, seen + {name};
    }
  }

  /** The owner found going through the definitions in any order. */
  method FindOwner(facts: Definitions, path: string) returns (owner: Option<string>)
    ensures owner == OwnerOf(facts, path)
  {
    OneOwner(facts, path);
    var inGit := set name | name in facts && MountedOver(facts, path, name);
    if inGit == {} {
      assert Claimants(facts, path) == {};
      return None;
    }
    var deepest := DeepestMount(facts, inGit);
    DeepestAre(facts, path, inGit, deepest);
    var best: Option<(string, nat)> := None;
    var left, seen := inGit, {};
    while left != {}
      invariant left + seen == inGit && BestOf(facts, path, seen, best)
      decreases left
    {
      var name :| name in left;
      BestMore(facts, path, seen, best, name);
      if Depth(facts[name].mount) == deepest {
        var claim := ClaimOn(facts[name], path);
        if claim.Some? && Better(name, claim.value, best) { best := Some((name, claim.value)); }
      }
      left, seen := left - {name}, seen + {name};
    }
    assert seen * Claimants(facts, path) == Claimants(facts, path);
    owner := if best.None? then None else Some(best.value.0);
    assert IsOwner(facts, path, owner);
  }

  lemma DeepestAre(facts: Definitions, path: string, inGit: set<string>, deepest: nat)
    requires inGit == set name | name in facts && MountedOver(facts, path, name)
    requires exists name :: name in inGit && Depth(facts[name].mount) == deepest
    requires forall name | name in inGit :: Depth(facts[name].mount) <= deepest
    ensures forall name | name in inGit :: DeepestOver(facts, path, name) <==> Depth(facts[name].mount) == deepest
    ensures forall name :: name in Claimants(facts, path) <==>
              name in inGit && Depth(facts[name].mount) == deepest && ClaimOf(facts[name], path).Some?
  {
    var top :| top in inGit && Depth(facts[top].mount) == deepest;
    forall name | name in inGit ensures DeepestOver(facts, path, name) <==> Depth(facts[name].mount) == deepest {
      assert MountedOver(facts, path, top);
    }
  }

  // ---- chains of holders -------------------------------------------------------------------------

  /** Who holds each tracker's definition file. */
  type Holders = map<string, string>

  /** Going from holder to holder reaches `access` within `steps`, not meeting `target` on the way. */
  predicate Free(holders: Holders, at: string, target: string, steps: nat)
    decreases steps
  {
    at != target && (at == ACCESS || (steps > 0 && at in holders && Free(holders, holders[at], target, steps - 1)))
  }

  /** Going from holder to holder reaches `access` within `steps`. */
  predicate EndsAtAccess(holders: Holders, at: string, steps: nat)
    decreases steps
  {
    at == ACCESS || (steps > 0 && at in holders && EndsAtAccess(holders, holders[at], steps - 1))
  }

  /** From any name, going from holder to holder arrives at `access`. */
  ghost predicate Forest(holders: Holders) {
    forall name | name in holders :: exists steps :: EndsAtAccess(holders, name, steps)
  }

  lemma {:induction false} FreeLonger(holders: Holders, at: string, target: string, steps: nat, more: nat)
    requires Free(holders, at, target, steps) && steps <= more
    ensures Free(holders, at, target, more)
    decreases steps
  {
    if at != ACCESS { FreeLonger(holders, holders[at], target, steps - 1, more - 1); }
  }

  /** A way that cannot pass `skipped` in time goes round it. */
  lemma {:induction false} FreeWithout(holders: Holders, at: string, target: string, steps: nat, skipped: string)
    requires Free(holders, at, target, steps) && !Free(holders, skipped, target, steps)
    ensures Free(holders - {skipped}, at, target, steps)
    decreases steps
  {
    if at != ACCESS {
      if Free(holders, skipped, target, steps - 1) { FreeLonger(holders, skipped, target, steps - 1, steps); }
      FreeWithout(holders, holders[at], target, steps - 1, skipped);
    }
  }

  lemma {:induction false} FreeInMore(holders: Holders, without: Holders, at: string, target: string, steps: nat)
    requires Free(without, at, target, steps)
    requires forall name | name in without :: name in holders && holders[name] == without[name]
    ensures Free(holders, at, target, steps)
    decreases steps
  {
    if at != ACCESS { FreeInMore(holders, without, without[at], target, steps - 1); }
  }

  /** As many steps as there are files are enough to follow any chain that ends. */
  lemma {:induction false} StepsEnough(holders: Holders, at: string, target: string, steps: nat)
    requires Free(holders, at, target, steps)
    ensures Free(holders, at, target, |holders|)
    decreases |holders|, steps
  {
    if at != ACCESS {
      if Free(holders, at, target, steps - 1) {
        StepsEnough(holders, at, target, steps - 1);
      } else {
        var rest := holders - {at};
        assert |rest| == |holders| - 1;
        FreeWithout(holders, holders[at], target, steps - 1, at);
        StepsEnough(rest, holders[at], target, steps - 1);
        FreeInMore(holders, rest, holders[at], target, |rest|);
      }
    }
  }

  /** Following holders from `name` reaches `access` without meeting `target`. */
  ghost predicate Clear(holders: Holders, name: string, target: string) {
    exists steps :: Free(holders, name, target, steps)
  }

  /** `target` is met on the way up from `name`, or the way up never arrives. */
  method Above(holders: Holders, name: string, target: string) returns (above: bool)
    ensures above <==> !Clear(holders, name, target)
  {
    var at, steps := name, 0;
    while steps <= |holders|
      invariant 0 <= steps <= |holders| + 1
      invariant steps <= |holders| ==>
                  (Free(holders, name, target, |holders|) <==> Free(holders, at, target, |holders| - steps))
      invariant steps == |holders| + 1 ==> !Free(holders, name, target, |holders|)
      decreases |holders| + 1 - steps
    {
      if at == target {
        NeverFree(holders, name, target);
        return true;
      }
      if at == ACCESS {
        assert Free(holders, name, target, |holders|);
        return false;
      }
      if at !in holders {
        NeverFree(holders, name, target);
        return true;
      }
      at, steps := holders[at], steps + 1;
    }
    NeverFree(holders, name, target);
    above := true;
  }

  lemma NeverFree(holders: Holders, name: string, target: string)
    requires !Free(holders, name, target, |holders|)
    ensures !Clear(holders, name, target)
  {
    forall steps ensures !Free(holders, name, target, steps) {
      if Free(holders, name, target, steps) { StepsEnough(holders, name, target, steps); }
    }
  }

  // ---- one pass over the definition files -----------------------------------------------------------

  function DefinitionFile(name: string): string { ACCESS_MOUNT + "/" + name + ".toml" }

  function HolderIn(holders: Holders, name: string): string { if name in holders then holders[name] else ACCESS }

  /** May take `name`'s file: its own is held by that file's holder, or it is that holder; and no loop closes. */
  ghost predicate MayTake(next: Holders, current: string, name: string, candidate: string) {
    && candidate != name && (HolderIn(next, candidate) == current || candidate == current)
    && Clear(next, candidate, name)
  }

  ghost function Eligible(facts: Definitions, next: Holders, current: string, name: string): Definitions {
    map candidate | candidate in facts && MayTake(next, current, name, candidate) :: facts[candidate]
  }

  /** Who holds `name`'s file next, `next` being how things stand when its turn comes. */
  ghost function NextHolder(facts: Definitions, next: Holders, current: string, name: string): string {
    if name == ACCESS then ACCESS
    else
      var owner := OwnerOf(Eligible(facts, next, current, name), DefinitionFile(name));
      if owner.Some? then owner.value else ACCESS
  }

  function ByName(): string -> Key { name => Key(0, "", name) }

  function InOrder(holders: Holders): (names: seq<string>)
    ensures Distinct(names) && forall name :: name in names <==> name in holders
  {
    SortedBy(holders.Keys, ByName())
  }

  /** How a file's next holder is chosen, given how things stand. */
  ghost function Chooser(facts: Definitions, holder: Holders): (Holders, string) -> string {
    (next, name) => NextHolder(facts, next, HolderIn(holder, name), name)
  }

  /** The holders after `turns` of the names have been moved, one at a time. */
  ghost function Settled(choose: (Holders, string) -> string, holder: Holders, names: seq<string>,
                         turns: nat): (next: Holders)
    requires turns <= |names|
  {
    if turns == 0 then holder
    else
      var next := Settled(choose, holder, names, turns - 1);
      next[names[turns - 1] := choose(next, names[turns - 1])]
  }

  ghost function NextHolders(facts: Definitions, holder: Holders): (next: Holders) {
    Settled(Chooser(facts, holder), holder, InOrder(holder), |InOrder(holder)|)
  }

  lemma {:induction false} SettledKeys(choose: (Holders, string) -> string, holder: Holders, names: seq<string>,
                                       turns: nat)
    requires turns <= |names| && forall i | 0 <= i < |names| :: names[i] in holder
    ensures Settled(choose, holder, names, turns).Keys == holder.Keys
    decreases turns
  {
    if turns > 0 { SettledKeys(choose, holder, names, turns - 1); }
  }

  lemma NextHoldersKeys(facts: Definitions, holder: Holders)
    ensures NextHolders(facts, holder).Keys == holder.Keys
  {
    var names := InOrder(holder);
    forall i | 0 <= i < |names| ensures names[i] in holder { assert names[i] in names; }
    SettledKeys(Chooser(facts, holder), holder, names, |names|);
  }

  lemma {:induction false} EndsLonger(holders: Holders, at: string, steps: nat, more: nat)
    requires EndsAtAccess(holders, at, steps) && steps <= more
    ensures EndsAtAccess(holders, at, more)
    decreases steps
  {
    if at != ACCESS { EndsLonger(holders, holders[at], steps - 1, more - 1); }
  }

  /** A way that does not meet `name` is the same way after `name`'s holder changes. */
  lemma {:induction false} WayStays(next: Holders, at: string, name: string, steps: nat, owner: string)
    requires Free(next, at, name, steps)
    ensures EndsAtAccess(next[name := owner], at, steps)
    decreases steps
  {
    if at != ACCESS { WayStays(next, next[at], name, steps - 1, owner); }
  }

  lemma {:induction false} StillEnds(next: Holders, at: string, steps: nat, name: string, owner: string, more: nat)
    requires EndsAtAccess(next, at, steps) && EndsAtAccess(next[name := owner], owner, more)
    ensures EndsAtAccess(next[name := owner], at, steps + more + 1)
    decreases steps
  {
    if at == ACCESS {
    } else if at == name {
      EndsLonger(next[name := owner], owner, more, steps + more);
    } else {
      StillEnds(next, next[at], steps - 1, name, owner, more);
    }
  }

  /** Holders stay a forest when one name moves. */
  lemma MoveKeepsForest(facts: Definitions, next: Holders, current: string, name: string)
    requires Forest(next)
    ensures Forest(next[name := NextHolder(facts, next, current, name)])
  {
    var owner := NextHolder(facts, next, current, name);
    var after := next[name := owner];
    var more := 0;
    if owner != ACCESS {
      assert owner in Eligible(facts, next, current, name);
      var steps: nat :| Free(next, owner, name, steps);
      WayStays(next, owner, name, steps, owner);
      more := steps;
    }
    forall other | other in after ensures exists steps :: EndsAtAccess(after, other, steps) {
      if other == name {
        assert EndsAtAccess(after, other, more + 1);
      } else {
        var steps :| EndsAtAccess(next, other, steps);
        StillEnds(next, other, steps, name, owner, more);
      }
    }
  }

  lemma {:induction false} SettlingKeepsForest(facts: Definitions, holder: Holders, names: seq<string>, turns: nat)
    requires turns <= |names| && Forest(holder)
    ensures Forest(Settled(Chooser(facts, holder), holder, names, turns))
    decreases turns
  {
    if turns > 0 {
      SettlingKeepsForest(facts, holder, names, turns - 1);
      var next, name := Settled(Chooser(facts, holder), holder, names, turns - 1), names[turns - 1];
      MoveKeepsForest(facts, next, HolderIn(holder, name), name);
    }
  }

  /** Every chain of holders still ends at `access`. */
  lemma ChainsEndAtAccess(facts: Definitions, holder: Holders)
    requires Forest(holder)
    ensures Forest(NextHolders(facts, holder))
  {
    SettlingKeepsForest(facts, holder, InOrder(holder), |InOrder(holder)|);
  }

  /** A file settled stays settled. */
  lemma {:induction false} SettledOnce(choose: (Holders, string) -> string, holder: Holders, names: seq<string>,
                                       turn: nat, turns: nat)
    requires turn < turns <= |names| && Distinct(names)
    ensures names[turn] in Settled(choose, holder, names, turns)
    ensures Settled(choose, holder, names, turns)[names[turn]]
              == choose(Settled(choose, holder, names, turn), names[turn])
    decreases turns
  {
    if turn < turns - 1 { SettledOnce(choose, holder, names, turn, turns - 1); }
  }

  /** How the holders stand when the `turn`-th file is settled. */
  ghost function AtTurn(facts: Definitions, holder: Holders, turn: nat): Holders
    requires turn <= |InOrder(holder)|
  {
    Settled(Chooser(facts, holder), holder, InOrder(holder), turn)
  }

  /** Where a file may go, from `was`, given how things stand. */
  ghost predicate Downward(facts: Definitions, standing: Holders, was: string, name: string, now: string) {
    && (now == ACCESS || now == was || HolderIn(standing, now) == was)
    && (if name == ACCESS then now == ACCESS else now != name)
    && (now != ACCESS ==>
          now in facts && MountedOver(facts, DefinitionFile(name), now)
            && ClaimOf(facts[now], DefinitionFile(name)).Some?)
  }

  /**
   A definition file leaves its holder only for `access`, or for a tracker whose
   own definition that holder held when the file's turn came; nobody ever holds
   their own, and `access` holds `access`'s.
   */
  lemma OnlyDownward(facts: Definitions, holder: Holders, turn: nat)
    requires turn < |InOrder(holder)|
    ensures var name := InOrder(holder)[turn];
            name in NextHolders(facts, holder)
            && Downward(facts, AtTurn(facts, holder, turn), HolderIn(holder, name), name,
                        NextHolders(facts, holder)[name])
  {
    var name, choose := InOrder(holder)[turn], Chooser(facts, holder);
    SettledOnce(choose, holder, InOrder(holder), turn, |InOrder(holder)|);
    ChosenDownward(facts, AtTurn(facts, holder, turn), HolderIn(holder, name), name);
  }

  lemma ChosenDownward(facts: Definitions, standing: Holders, was: string, name: string)
    ensures Downward(facts, standing, was, name, NextHolder(facts, standing, was, name))
  {
    var now := NextHolder(facts, standing, was, name);
    if now != ACCESS {
      assert now in Claimants(Eligible(facts, standing, was, name), DefinitionFile(name));
    }
  }

  /** One file's next holder, whatever order the definitions come in. */
  method FindHolder(facts: Definitions, next: Holders, current: string, name: string) returns (owner: string)
    ensures owner == NextHolder(facts, next, current, name)
  {
    if name == ACCESS { return ACCESS; }
    var eligible := FindEligible(facts, next, current, name);
    var found := FindOwner(eligible, DefinitionFile(name));
    owner := if found.Some? then found.value else ACCESS;
  }

  lemma SettledMore(choose: (Holders, string) -> string, holder: Holders, names: seq<string>, turn: nat, next: Holders,
                    owner: string)
    requires turn < |names| && next == Settled(choose, holder, names, turn) && owner == choose(next, names[turn])
    ensures next[names[turn] := owner] == Settled(choose, holder, names, turn + 1)
  {
  }

  lemma Chosen(facts: Definitions, holder: Holders, next: Holders, name: string)
    ensures Chooser(facts, holder)(next, name) == NextHolder(facts, next, HolderIn(holder, name), name)
  {
  }

  method SettleHolders(facts: Definitions, holder: Holders) returns (next: Holders)
    ensures next == NextHolders(facts, holder)
  {
    next := holder;
    ghost var choose := Chooser(facts, holder);
    var names, turn := InOrder(holder), 0;
    while turn < |names|
      invariant 0 <= turn <= |names| && next == Settled(choose, holder, names, turn)
    {
      var owner := FindHolder(facts, next, HolderIn(holder, names[turn]), names[turn]);
      Chosen(facts, holder, next, names[turn]);
      SettledMore(choose, holder, names, turn, next, owner);
      next := next[names[turn] := owner];
      turn := turn + 1;
    }
  }

  /** Those of `seen` that may take the file. */
  ghost function EligibleAmong(facts: Definitions, next: Holders, current: string, name: string,
                               seen: set<string>): Definitions
  {
    map candidate | candidate in facts && candidate in seen && MayTake(next, current, name, candidate) ::
      facts[candidate]
  }

  lemma EligibleMore(facts: Definitions, next: Holders, current: string, name: string, seen: set<string>,
                     candidate: string)
    requires candidate in facts && candidate !in seen
    ensures var among := EligibleAmong(facts, next, current, name, seen);
            EligibleAmong(facts, next, current, name, seen + {candidate})
            == if MayTake(next, current, name, candidate) then among[candidate := facts[candidate]] else among
  {
  }

  method FindEligible(facts: Definitions, next: Holders, current: string, name: string) returns (eligible: Definitions)
    ensures eligible == Eligible(facts, next, current, name)
  {
    eligible := map[];
    var left, seen := facts.Keys, {};
    while left != {}
      invariant left !! seen && left + seen == facts.Keys
      invariant eligible == EligibleAmong(facts, next, current, name, seen)
      decreases left
    {
      var candidate :| candidate in left;
      EligibleMore(facts, next, current, name, seen, candidate);
      if candidate != name && (HolderIn(next, candidate) == current || candidate == current) {
        var above := Above(next, candidate, name);
        if !above { eligible := eligible[candidate := facts[candidate]]; }
      }
      left, seen := left - {candidate}, seen + {candidate};
    }
    assert seen == facts.Keys;
    assert EligibleAmong(facts, next, current, name, seen) == Eligible(facts, next, current, name);
  }

  // ---- rounds -------------------------------------------------------------------------------------------

  /** Where a definition is read: in whose repository, mounted where. */
  datatype Source = Source(tracker: string, mount: string)

  type Sources = map<string, Source>

  function HoldersOf(source: Sources): Holders { map name | name in source :: source[name].tracker }

  /** `path` with the mount in front taken off. */
  function RelativeTo(mount: string, path: string): string {
    if mount == "." then path
    else if path == mount then "."
    else if |mount| + 1 <= |path| then path[|mount| + 1..] else ""
  }

  /** Reading a file of a tracker's `main`, and what a definition's text says. */
  datatype Repos = Repos(read: (string, string) -> Option<string>, parse: string -> Option<Facts>)

  /** The definition of a name that needs no file. */
  function Implicit(name: string): Option<Facts> {
    if name == "root" then Some(Facts(true, ".", ["."]))
    else if name == ACCESS then Some(Facts(true, ACCESS_MOUNT, ["."]))
    else None
  }

  function ReadOne(repos: Repos, name: string, from: Source): Option<Facts> {
    var path := RelativeTo(from.mount, DefinitionFile(name));
    var text := if path == "." then None else repos.read(from.tracker, path);
    var found := if text.None? && from.tracker == ACCESS then repos.read(ACCESS, DefinitionFile(name)) else text;
    if found.None? then Implicit(name) else repos.parse(found.value)
  }

  function ReadAll(repos: Repos, source: Sources): Definitions {
    map name | name in source && ReadOne(repos, name, source[name]).Some? :: ReadOne(repos, name, source[name]).value
  }

  function MountOf(facts: Definitions, name: string): string {
    if name in facts then facts[name].mount else ACCESS_MOUNT
  }

  /** Where each definition is read in the next round. */
  ghost function NextSources(repos: Repos, source: Sources): Sources {
    var facts := ReadAll(repos, source);
    var holders := NextHolders(facts, HoldersOf(source));
    NextHoldersKeys(facts, HoldersOf(source));
    map name | name in source :: Source(holders[name], MountOf(facts, holders[name]))
  }

  function AllAtAccess(names: set<string>): Sources {
    map name | name in names + {"root", ACCESS} :: Source(ACCESS, ACCESS_MOUNT)
  }

  ghost function NextRound(repos: Repos): Sources -> Sources { source => NextSources(repos, source) }

  /** Each round starts where the one before it ended. */
  ghost predicate AreRounds(next: Sources -> Sources, first: Sources, rounds: seq<Sources>) {
    && 0 < |rounds| <= 4 && rounds[0] == first
    && forall i | 0 < i < |rounds| :: rounds[i] == next(rounds[i - 1])
  }

  ghost predicate Rounds(repos: Repos, names: set<string>, rounds: seq<Sources>) {
    AreRounds(NextRound(repos), AllAtAccess(names), rounds)
  }

  lemma OneMoreRound(next: Sources -> Sources, first: Sources, rounds: seq<Sources>, more: Sources)
    requires AreRounds(next, first, rounds) && |rounds| < 4 && more == next(rounds[|rounds| - 1])
    ensures AreRounds(next, first, rounds + [more])
  {
  }

  lemma RoundKeepsForest(repos: Repos, source: Sources)
    requires Forest(HoldersOf(source))
    ensures Forest(HoldersOf(NextSources(repos, source)))
  {
    var facts := ReadAll(repos, source);
    ChainsEndAtAccess(facts, HoldersOf(source));
    NextHoldersKeys(facts, HoldersOf(source));
    assert HoldersOf(NextSources(repos, source)) == NextHolders(facts, HoldersOf(source));
  }

  lemma StartsForest(names: set<string>)
    ensures Forest(HoldersOf(AllAtAccess(names)))
  {
    var holders := HoldersOf(AllAtAccess(names));
    forall name | name in holders ensures exists steps :: EndsAtAccess(holders, name, steps) {
      assert EndsAtAccess(holders, name, 1);
    }
  }

  /** Whatever the rounds read, the holders that come out of each are a forest. */
  lemma {:induction false} EveryRoundIsForest(repos: Repos, names: set<string>, rounds: seq<Sources>, i: nat)
    requires Rounds(repos, names, rounds) && i < |rounds|
    ensures Forest(HoldersOf(rounds[i]))
    decreases i
  {
    if i == 0 {
      StartsForest(names);
    } else {
      EveryRoundIsForest(repos, names, rounds, i - 1);
      RoundKeepsForest(repos, rounds[i - 1]);
    }
  }

  /**
   Definitions are read in rounds until nothing moves, four at most; what is
   answered is what the last round's holders say.
   */
  method LoadDefinitions(repos: Repos, names: set<string>) returns (facts: Definitions, ghost rounds: seq<Sources>)
    ensures Loaded(repos, names, rounds, facts)
    ensures |rounds| < 4 ==> NextSources(repos, rounds[|rounds| - 1]) == rounds[|rounds| - 1]
  {
    var source := AllAtAccess(names);
    rounds := [source];
    facts := ReadAll(repos, source);
    var round := 1;
    while round < 4
      invariant 1 <= round <= 4 && |rounds| == round && rounds[round - 1] == source
      invariant Loaded(repos, names, rounds, facts)
    {
      var next := MoveSources(repos, source, facts);
      if next == source { return; }
      ghost var before, read := rounds, facts;
      source, rounds := next, rounds + [next];
      facts := ReadAll(repos, source);
      LoadedMore(repos, names, before, read, next, facts);
      round := round + 1;
    }
  }

  /** The definitions the last round's holders give. */
  ghost predicate Loaded(repos: Repos, names: set<string>, rounds: seq<Sources>, facts: Definitions) {
    Rounds(repos, names, rounds) && facts == ReadAll(repos, rounds[|rounds| - 1])
  }

  lemma LoadedMore(repos: Repos, names: set<string>, rounds: seq<Sources>, facts: Definitions, next: Sources,
                   more: Definitions)
    requires Loaded(repos, names, rounds, facts) && |rounds| < 4
    requires next == NextSources(repos, rounds[|rounds| - 1]) && more == ReadAll(repos, next)
    ensures Loaded(repos, names, rounds + [next], more)
  {
    OneMoreRound(NextRound(repos), AllAtAccess(names), rounds, next);
  }

  method MoveSources(repos: Repos, source: Sources, facts: Definitions) returns (next: Sources)
    requires facts == ReadAll(repos, source)
    ensures next == NextSources(repos, source)
  {
    var holders := SettleHolders(facts, HoldersOf(source));
    NextHoldersKeys(facts, HoldersOf(source));
    next := map name | name in source :: Source(holders[name], MountOf(facts, holders[name]));
  }
}
