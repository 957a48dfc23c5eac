/** Branches and what lands on them. */
module Landing {
  // Branches as maps from tracker to commit, stored twice over: as they are now, and
  // as the rows that led there.

  import opened Wrappers
  import opened Names

  type Commit = string
  type TrackerList = map<string, Commit>
  type Token = string

  /** A row of the log; `old` and `new` in the table. */
  datatype Move = Move(branch: string, tracker: string, was: Option<Commit>, now: Option<Commit>)

  function Get(list: TrackerList, tracker: string): Option<Commit> {
    if tracker in list then Some(list[tracker]) else None
  }

  function Put(list: TrackerList, tracker: string, commit: Option<Commit>): TrackerList {
    if commit.Some? then list[tracker := commit.value] else list - {tracker}
  }

  /** What the log says a branch's list is. */
  function Replay(log: seq<Move>, branch: string): TrackerList {
    if log == [] then map[]
    else
      var before, move := Replay(log[..|log| - 1], branch), log[|log| - 1];
      if move.branch == branch then Put(before, move.tracker, move.now) else before
  }

  /** Each row's `was` is what the rows before it left there, and it moves something. */
  ghost predicate Chained(log: seq<Move>) {
    forall i | 0 <= i < |log| ::
      log[i].was == Get(Replay(log[..i], log[i].branch), log[i].tracker) && log[i].was != log[i].now
  }

  lemma SameList(left: TrackerList, right: TrackerList)
    requires forall tracker :: Get(left, tracker) == Get(right, tracker)
    ensures left == right
  {
    forall tracker ensures tracker in left <==> tracker in right {
      assert Get(left, tracker) == Get(right, tracker);
    }
    forall tracker | tracker in left ensures left[tracker] == right[tracker] {
      assert Get(left, tracker) == Get(right, tracker);
    }
  }

  /** One more row. */
  lemma Logged(log: seq<Move>, move: Move)
    requires Chained(log) && move.was == Get(Replay(log, move.branch), move.tracker) && move.was != move.now
    ensures Chained(log + [move])
    ensures forall branch :: Replay(log + [move], branch)
                             == if move.branch == branch then Put(Replay(log, branch), move.tracker, move.now)
                                else Replay(log, branch)
  {
    var more := log + [move];
    assert more[..|log|] == log;
    forall i | 0 <= i < |more|
      ensures more[i].was == Get(Replay(more[..i], more[i].branch), more[i].tracker) && more[i].was != more[i].now
    {
      assert more[..i] == log[..i];
      if i == |log| { assert log[..i] == log; }
    }
  }

  // ---- has it been a head ------------------------------------------------------------------

  predicate InLog(log: seq<Move>, branch: string, tracker: string, commit: Commit) {
    exists i :: 0 <= i < |log| && log[i].branch == branch && log[i].tracker == tracker
                && (log[i].was == Some(commit) || log[i].now == Some(commit))
  }

  /** Some moment of the log had `commit` as the head. */
  ghost predicate HeadOnce(log: seq<Move>, branch: string, tracker: string, commit: Commit) {
    exists i :: 0 <= i <= |log| && Get(Replay(log[..i], branch), tracker) == Some(commit)
  }

  /** Looking in the log's columns finds every head there ever was, and nothing else. */
  lemma InLogMeans(log: seq<Move>, branch: string, tracker: string, commit: Commit)
    requires Chained(log)
    ensures InLog(log, branch, tracker, commit) <==> HeadOnce(log, branch, tracker, commit)
  {
    if InLog(log, branch, tracker, commit) {
      var i :| 0 <= i < |log| && log[i].branch == branch && log[i].tracker == tracker
               && (log[i].was == Some(commit) || log[i].now == Some(commit));
      assert log[..i + 1][..i] == log[..i];
      if log[i].was == Some(commit) {
        assert Get(Replay(log[..i], branch), tracker) == Some(commit);
      } else {
        assert Get(Replay(log[..i + 1], branch), tracker) == Some(commit);
      }
    }
    if HeadOnce(log, branch, tracker, commit) {
      var i :| 0 <= i <= |log| && Get(Replay(log[..i], branch), tracker) == Some(commit);
      HeadCameFrom(log, branch, tracker, commit, i);
    }
  }

  lemma {:induction false} HeadCameFrom(log: seq<Move>, branch: string, tracker: string, commit: Commit, i: nat)
    requires i <= |log| && Get(Replay(log[..i], branch), tracker) == Some(commit)
    ensures InLog(log, branch, tracker, commit)
    decreases i
  {
    if i > 0 {
      assert log[..i][..i - 1] == log[..i - 1];
      var move := log[i - 1];
      if move.branch != branch || move.tracker != tracker {
        HeadCameFrom(log, branch, tracker, commit, i - 1);
      }
    }
  }

  // ---- what a landing replaces ---------------------------------------------------------------

  /** A tracker whose head a landing compares: root, and each it means to move. */
  predicate Moving(base: TrackerList, list: TrackerList, tracker: string) {
    tracker == ROOT || Get(base, tracker) != Get(list, tracker)
  }

  /** The compare of the compare-and-swap. */
  ghost predicate Admitted(current: TrackerList, base: TrackerList, list: TrackerList) {
    forall tracker :: Moving(base, list, tracker) ==> Get(current, tracker) == Get(base, tracker)
  }

  /**
   An admitted landing sets every head, those it did not compare among them: it
   replaces exactly the list it began with if and only if each tracker it did
   not mean to move is still where it leaves it.
   */
  lemma ReplacesBaseExactlyWhen(current: TrackerList, base: TrackerList, list: TrackerList)
    requires Admitted(current, base, list)
    ensures current == base <==>
              forall tracker | !Moving(base, list, tracker) :: Get(current, tracker) == Get(list, tracker)
  {
    if forall tracker | !Moving(base, list, tracker) :: Get(current, tracker) == Get(list, tracker) {
      forall tracker ensures Get(current, tracker) == Get(base, tracker) {
        if Moving(base, list, tracker) { assert Get(current, tracker) == Get(base, tracker); }
      }
      SameList(current, base);
    }
  }

  /** A landing that takes back another tracker's move, unseen. */
  lemma LandingTakesBack()
    ensures var base := map[ROOT := "r1", "lib" := "l1"];
            var current, list := base["lib" := "l2"], base[ROOT := "r2"];
            Admitted(current, base, list) && current != base && list["lib"] == "l1"
  {
    var base := map[ROOT := "r1", "lib" := "l1"];
    var current := base["lib" := "l2"];
    assert current["lib"] != base["lib"];
    assert ROOT != "lib" by { assert ROOT[0] != "lib"[0]; }
  }

  /** Each list is the index of its root commit. */
  ghost predicate Indexes(index: Commit -> TrackerList, list: TrackerList) {
    ROOT in list && index(list[ROOT]) == list
  }

  /** Where a root commit determines its index, an admitted landing replaces exactly its base. */
  lemma IndexedLandingReplacesBase(index: Commit -> TrackerList, current: TrackerList, base: TrackerList,
                                   list: TrackerList)
    requires Indexes(index, current) && Indexes(index, base) && Admitted(current, base, list)
    ensures current == base
  {
    assert Moving(base, list, ROOT);
  }

  /**
   Of two merges begun on one list that both move one tracker, whichever lands
   second is refused; and where root has moved, any merge is, even one that leaves it.
   */
  lemma SecondIsRefused(base: TrackerList, current: TrackerList, second: TrackerList, tracker: string)
    requires Get(current, tracker) != Get(base, tracker)
    requires tracker == ROOT || Get(second, tracker) != Get(base, tracker)
    ensures !Admitted(current, base, second)
  {
    assert Moving(base, second, tracker);
  }

  // ---- the records -----------------------------------------------------------------------------

  datatype PendingMerge = PendingMerge(owner: string, target: TrackerList, writes: seq<string>, tokens: seq<Token>,
                                       until: int, landed: bool)

  datatype MergeStart = Began(until: int, stale: seq<Token>) | BeginMissing | BeginMoved(list: TrackerList)

  datatype Outcome =
    | Landed(list: TrackerList, tokens: seq<Token>, writes: seq<string>, already: bool)
    | LandMissing
    | LandMoved(list: TrackerList)

  /** The key of a pending merge: one for each branch and root head. */
  function PendingKey(name: string, target: TrackerList): (string, Commit) {
    (name, if ROOT in target then target[ROOT] else "")
  }

  type Pending = map<(string, Commit), PendingMerge>

  /** The merge that makes exactly `target`. */
  function PendingMergeIn(pending: Pending, name: string, target: TrackerList): Option<PendingMerge> {
    var key := PendingKey(name, target);
    if key in pending && pending[key].target == target then Some(pending[key]) else None
  }

  function Expired(pending: Pending, name: string, now: int): set<(string, Commit)> {
    set key | key in pending && key.0 == name && pending[key].until <= now
  }

  ghost predicate HasToken(pending: Pending, token: Token) {
    exists key :: key in pending && token in pending[key].tokens
  }

  /** Some merge given up had this password. */
  ghost predicate GivenUp(pending: Pending, keys: set<(string, Commit)>, token: Token) {
    exists key :: key in keys && key in pending && token in pending[key].tokens
  }

  /** The list with the heads of `done` moved to where `to` has them. */
  ghost predicate PartlyMoved(list: TrackerList, from: TrackerList, to: TrackerList, done: set<string>) {
    forall tracker :: Get(list, tracker) == if tracker in done then Get(to, tracker) else Get(from, tracker)
  }

  /** One row for each head in `done` that moved, and no others. */
  ghost predicate RowsFor(rows: seq<Move>, name: string, from: TrackerList, to: TrackerList, done: set<string>) {
    && (forall i | 0 <= i < |rows| ::
          && rows[i].branch == name && rows[i].tracker in done
          && rows[i].was == Get(from, rows[i].tracker) && rows[i].now == Get(to, rows[i].tracker))
    && (forall i, j | 0 <= i < j < |rows| :: rows[i].tracker != rows[j].tracker)
    && (forall tracker | tracker in done && Get(from, tracker) != Get(to, tracker) ::
          exists i :: 0 <= i < |rows| && rows[i].tracker == tracker)
  }

  lemma RowsMore(rows: seq<Move>, name: string, from: TrackerList, to: TrackerList, done: set<string>, tracker: string)
    requires RowsFor(rows, name, from, to, done) && tracker !in done
    ensures Get(from, tracker) == Get(to, tracker) ==> RowsFor(rows, name, from, to, done + {tracker})
    ensures RowsFor(rows + [Move(name, tracker, Get(from, tracker), Get(to, tracker))], name, from, to,
                    done + {tracker})
  {
    var more := rows + [Move(name, tracker, Get(from, tracker), Get(to, tracker))];
    forall other | other in done + {tracker} && Get(from, other) != Get(to, other)
      ensures exists i :: 0 <= i < |more| && more[i].tracker == other
    {
      if other == tracker {
        assert more[|rows|].tracker == other;
      } else {
        var i :| 0 <= i < |rows| && rows[i].tracker == other;
        assert more[i].tracker == other;
      }
    }
  }

  type Heads = map<(string, string), Commit>

  function HeadIn(heads: Heads, name: string, tracker: string): Option<Commit> {
    if (name, tracker) in heads then Some(heads[(name, tracker)]) else None
  }

  function PutHead(heads: Heads, move: Move): Heads {
    if move.now.Some? then heads[(move.branch, move.tracker) := move.now.value]
    else heads - {(move.branch, move.tracker)}
  }

  /** The heads table holds what the log replays. */
  ghost predicate HeadsReplay(heads: Heads, log: seq<Move>) {
    forall name, tracker :: HeadIn(heads, name, tracker) == Get(Replay(log, name), tracker)
  }

  /** A branch's stored list is what the log replays; what is no branch has no heads. */
  ghost predicate ListsReplay(branches: map<string, TrackerList>, log: seq<Move>, but: set<string>) {
    forall name | name !in but :: Replay(log, name) == if name in branches then branches[name] else map[]
  }

  lemma HeadMoved(heads: Heads, log: seq<Move>, move: Move)
    requires HeadsReplay(heads, log) && Chained(log)
    requires move.was == Get(Replay(log, move.branch), move.tracker) && move.was != move.now
    ensures HeadsReplay(PutHead(heads, move), log + [move]) && Chained(log + [move])
  {
    Logged(log, move);
    forall name, tracker
      ensures HeadIn(PutHead(heads, move), name, tracker) == Get(Replay(log + [move], name), tracker)
    {
      assert HeadIn(heads, name, tracker) == Get(Replay(log, name), tracker);
    }
  }

  /** Only `name`'s part of the log grew. */
  ghost predicate OnlyGrew(log: seq<Move>, more: seq<Move>, name: string) {
    forall other | other != name :: Replay(more, other) == Replay(log, other)
  }

  lemma ListsMoved(branches: map<string, TrackerList>, log: seq<Move>, more: seq<Move>, name: string, to: TrackerList,
                   but: set<string>)
    requires ListsReplay(branches, log, but + {name}) && OnlyGrew(log, more, name) && Replay(more, name) == to
    ensures ListsReplay(branches[name := to], more, but - {name})
  {
    forall other | other !in but - {name}
      ensures Replay(more, other) == if other in branches[name := to] then branches[name := to][other] else map[]
    {
      if other != name { assert other !in but + {name}; }
    }
  }

  lemma OneMoreRow(log: seq<Move>, rows: seq<Move>, move: Move)
    ensures log + (rows + [move]) == log + rows + [move]
  {
  }

  lemma MovedAll(list: TrackerList, from: TrackerList, to: TrackerList)
    requires PartlyMoved(list, from, to, from.Keys + to.Keys)
    ensures list == to
  {
    forall tracker ensures Get(list, tracker) == Get(to, tracker) {
      assert tracker !in from.Keys + to.Keys ==> Get(from, tracker) == Get(to, tracker) == None;
    }
    SameList(list, to);
  }

  lemma MovedOne(list: TrackerList, from: TrackerList, to: TrackerList, done: set<string>, tracker: string)
    requires PartlyMoved(list, from, to, done)
    ensures PartlyMoved(Put(list, tracker, Get(to, tracker)), from, to, done + {tracker})
    ensures Get(from, tracker) == Get(to, tracker) ==> PartlyMoved(list, from, to, done + {tracker})
  {
  }

  /** What moving `name`'s heads keeps, once those of `done` have moved. */
  ghost predicate Midway(heads: Heads, log: seq<Move>, start: seq<Move>, rows: seq<Move>, name: string,
                         from: TrackerList, to: TrackerList, done: set<string>)
  {
    && Chained(log) && HeadsReplay(heads, log) && log == start + rows && OnlyGrew(start, log, name)
    && PartlyMoved(Replay(log, name), from, to, done) && RowsFor(rows, name, from, to, done)
  }

  lemma MidwayStarts(heads: Heads, log: seq<Move>, name: string, from: TrackerList, to: TrackerList)
    requires Chained(log) && HeadsReplay(heads, log) && Replay(log, name) == from
    ensures Midway(heads, log, log, [], name, from, to, {})
  {
  }

  lemma MidwaySame(heads: Heads, log: seq<Move>, start: seq<Move>, rows: seq<Move>, name: string,
                   from: TrackerList, to: TrackerList, done: set<string>, tracker: string)
    requires Midway(heads, log, start, rows, name, from, to, done) && tracker !in done
             && Get(from, tracker) == Get(to, tracker)
    ensures Midway(heads, log, start, rows, name, from, to, done + {tracker})
  {
    RowsMore(rows, name, from, to, done, tracker);
    MovedOne(Replay(log, name), from, to, done, tracker);
  }

  lemma MidwayMoved(heads: Heads, log: seq<Move>, start: seq<Move>, rows: seq<Move>, name: string,
                    from: TrackerList, to: TrackerList, done: set<string>, tracker: string, move: Move)
    requires Midway(heads, log, start, rows, name, from, to, done) && tracker !in done
    requires move == Move(name, tracker, Get(from, tracker), Get(to, tracker)) && move.was != move.now
    ensures Midway(PutHead(heads, move), log + [move], start, rows + [move], name, from, to, done + {tracker})
  {
    RowsMore(rows, name, from, to, done, tracker);
    MovedOne(Replay(log, name), from, to, done, tracker);
    HeadMoved(heads, log, move);
    Logged(log, move);
    OneMoreRow(start, rows, move);
  }

  lemma MidwayEnds(branches: map<string, TrackerList>, heads: Heads, log: seq<Move>, start: seq<Move>, rows: seq<Move>,
                   name: string, from: TrackerList, to: TrackerList, but: set<string>)
    requires Midway(heads, log, start, rows, name, from, to, from.Keys + to.Keys)
             && ListsReplay(branches, start, but + {name})
    ensures Chained(log) && HeadsReplay(heads, log) && OnlyGrew(start, log, name)
    ensures Replay(log, name) == to && ListsReplay(branches[name := to], log, but - {name})
    ensures start <= log && RowsFor(log[|start|..], name, from, to, from.Keys + to.Keys)
  {
    MovedAll(Replay(log, name), from, to);
    ListsMoved(branches, start, log, name, to, but);
    assert log[|start|..] == rows;
  }

  /** The heads a landing compares, against what it began with. */
  method Compare(current: TrackerList, base: TrackerList, list: TrackerList) returns (admitted: bool)
    ensures admitted <==> Admitted(current, base, list)
  {
    var left, seen := base.Keys + list.Keys + {ROOT}, {};
    while left != {}
      invariant left + seen == base.Keys + list.Keys + {ROOT}
      invariant forall tracker | tracker in seen && Moving(base, list, tracker) ::
                  Get(current, tracker) == Get(base, tracker)
      decreases left
    {
      var tracker :| tracker in left;
      if Moving(base, list, tracker) && Get(current, tracker) != Get(base, tracker) { return false; }
      left, seen := left - {tracker}, seen + {tracker};
    }
    forall tracker | Moving(base, list, tracker) ensures Get(current, tracker) == Get(base, tracker) {
      assert tracker in seen;
    }
    admitted := true;
  }

  lemma NoRows(log: seq<Move>, name: string, list: TrackerList)
    ensures RowsFor(log[|log|..], name, list, list, list.Keys + list.Keys)
  {
    assert log[|log|..] == [];
  }

  class ProjectDO {
    var branches: map<string, TrackerList>
    var heads: map<(string, string), Commit>
    var log: seq<Move>
    var pending: Pending

    /** The heads, the stored lists and the replayed log are one and the same. */
    ghost predicate Valid()
      reads this
    {
      Chained(log) && HeadsReplay(heads, log) && ListsReplay(branches, log, {})
    }

    function HeadsOf(name: string): TrackerList
      reads this
    {
      map key | key in heads && key.0 == name :: key.1 := heads[key]
    }

    /** The list, the heads and the log agree on every branch. */
    lemma HeadsAreLists(name: string)
      requires Valid()
      ensures HeadsOf(name) == Replay(log, name) == if name in branches then branches[name] else map[]
    {
      forall tracker ensures Get(HeadsOf(name), tracker) == Get(Replay(log, name), tracker) {
        assert HeadIn(heads, name, tracker) == Get(Replay(log, name), tracker);
        if tracker in HeadsOf(name) { assert (name, tracker) in heads; }
      }
      SameList(HeadsOf(name), Replay(log, name));
    }

    /** A project as stored: its lists become the first heads, and the log begins with them. */
    constructor (stored: map<string, TrackerList>)
      ensures Valid() && branches == stored && pending == map[]
    {
      branches, heads, log, pending := stored, map[], [], map[];
      new;
      var left := branches.Keys;
      while left != {}
        invariant branches == stored && pending == map[]
        invariant left <= branches.Keys && Chained(log) && HeadsReplay(heads, log)
        invariant ListsReplay(branches, log, left) && forall name | name in left :: Replay(log, name) == map[]
        decreases left
      {
        var name :| name in left;
        OpenOne(name, left);
        left := left - {name};
      }
    }

    /** One stored list made heads. */
    method OpenOne(name: string, ghost left: set<string>)
      requires Chained(log) && HeadsReplay(heads, log) && ListsReplay(branches, log, left)
      requires name in left && left <= branches.Keys && forall other | other in left :: Replay(log, other) == map[]
      modifies this`heads, this`log, this`branches
      ensures branches == old(branches) && Chained(log) && HeadsReplay(heads, log)
      ensures ListsReplay(branches, log, left - {name})
      ensures forall other | other in left - {name} :: Replay(log, other) == map[]
    {
      assert left + {name} == left;
      MoveHeads(name, map[], branches[name], left);
    }

    method WriteHead(move: Move)
      modifies this`heads
      ensures heads == PutHead(old(heads), move)
    {
      if move.now.None? {
        heads := heads - {(move.branch, move.tracker)};
      } else {
        heads := heads[(move.branch, move.tracker) := move.now.value];
      }
    }

    /** Each head that differs set and logged. */
    method MoveEach(name: string, from: TrackerList, to: TrackerList) returns (ghost rows: seq<Move>)
      requires Midway(heads, log, log, [], name, from, to, {})
      modifies this`heads, this`log
      ensures Midway(heads, log, old(log), rows, name, from, to, from.Keys + to.Keys)
    {
      var left, done := from.Keys + to.Keys, {};
      rows := [];
      while left != {}
        invariant left !! done
        invariant left + done == from.Keys + to.Keys
        invariant Midway(heads, log, old(log), rows, name, from, to, done)
        decreases left
      {
        var tracker :| tracker in left;
        var was, now := Get(from, tracker), Get(to, tracker);
        if was == now {
          MidwaySame(heads, log, old(log), rows, name, from, to, done, tracker);
        } else {
          var move := Move(name, tracker, was, now);
          MidwayMoved(heads, log, old(log), rows, name, from, to, done, tracker, move);
          WriteHead(move);
          log, rows := log + [move], rows + [move];
        }
        left, done := left - {tracker}, done + {tracker};
      }
      assert done == from.Keys + to.Keys;
    }

    /** The branch's heads become `to`: a row for every difference, and none besides. */
    method MoveHeads(name: string, from: TrackerList, to: TrackerList, ghost but: set<string>)
      requires Chained(log) && HeadsReplay(heads, log) && ListsReplay(branches, log, but + {name})
      requires Replay(log, name) == from && name in branches
      modifies this`heads, this`log, this`branches
      ensures Chained(log) && HeadsReplay(heads, log) && ListsReplay(branches, log, but - {name})
      ensures branches == old(branches)[name := to] && Replay(log, name) == to
      ensures old(log) <= log && RowsFor(log[|old(log)|..], name, from, to, from.Keys + to.Keys)
      ensures OnlyGrew(old(log), log, name)
    {
      MidwayStarts(heads, log, name, from, to);
      ghost var rows := MoveEach(name, from, to);
      MidwayEnds(branches, heads, log, old(log), rows, name, from, to, but);
      branches := branches[name := to];
    }

    /** A new branch; refused where there is one. */
    method CreateBranch(name: string, list: TrackerList) returns (created: Option<TrackerList>)
      requires Valid()
      modifies this`heads, this`log, this`branches
      ensures Valid() && old(log) <= log
      ensures name in old(branches) ==>
                created == None && branches == old(branches) && log == old(log) && heads == old(heads)
      ensures name !in old(branches) ==>
                && created == Some(list) && branches == old(branches)[name := list]
                && RowsFor(log[|old(log)|..], name, map[], list, list.Keys)
    {
      if name in branches { return None; }
      assert Replay(log, name) == map[];
      branches := branches[name := list];
      var none: TrackerList := map[];
      assert none.Keys + list.Keys == list.Keys;
      MoveHeads(name, none, list, {});
      assert Valid();
      HeadsAreLists(name);
      created := Some(HeadsOf(name));
    }

    /** The merges into `name` whose time is up are dropped, and their passwords collected. */
    method Forget(name: string, now: int) returns (stale: seq<Token>)
      modifies this`pending
      ensures pending == old(pending) - Expired(old(pending), name, now)
      ensures forall token :: token in stale <==> GivenUp(old(pending), Expired(old(pending), name, now), token)
    {
      stale := [];
      var left, gone: set<(string, Commit)> := Expired(pending, name, now), {};
      ghost var all := left;
      while left != {}
        invariant left !! gone && left + gone == all
        invariant pending == old(pending) - gone
        invariant forall token :: token in stale <==> GivenUp(old(pending), gone, token)
        decreases left
      {
        var key :| key in left;
        GiveUpOne(old(pending), gone, key);
        stale := stale + pending[key].tokens;
        pending := pending - {key};
        left, gone := left - {key}, gone + {key};
      }
      assert gone == all;
    }

    /**
     Note a merge as pending, and drop those that have expired. The passwords of
     what is dropped or written over are what the method returns.
     */
    method BeginMerge(name: string, base: TrackerList, owner: string, now: int, seconds: nat, target: TrackerList,
                      writes: seq<string>)
      returns (start: MergeStart)
      requires Valid()
      modifies this`pending
      ensures Valid()
      ensures name !in branches ==> start == BeginMissing && pending == old(pending)
      ensures name in branches && branches[name] != base ==>
                start == BeginMoved(branches[name]) && pending == old(pending)
      ensures name in branches && branches[name] == base ==>
                var merge := PendingMerge(owner, target, writes, [], now + seconds * 1000, false);
                && start.Began? && start.until == merge.until
                && Noted(old(pending), pending, name, now, target, merge)
                && (forall token :: token in start.stale <==> Cancelled(old(pending), name, now, target, token))
    {
      if name !in branches { return BeginMissing; }
      HeadsAreLists(name);
      if HeadsOf(name) != base { return BeginMoved(HeadsOf(name)); }
      var stale := Forget(name, now);
      forall token { CancelledAre(old(pending), name, now, target, token); }
      var again := PendingMergeIn(pending, name, target);
      if again.Some? { stale := stale + again.value.tokens; }
      var until := now + seconds * 1000;
      pending := pending[PendingKey(name, target) := PendingMerge(owner, target, writes, [], until, false)];
      start := Began(until, stale);
    }

    /** Put `tokens` beside the merge under this key; where there is none, nothing changes. */
    method RecordMergeTokens(name: string, target: TrackerList, tokens: seq<Token>)
      requires Valid()
      modifies this`pending
      ensures Valid() && pending.Keys == old(pending).Keys
      ensures forall token :: HasToken(pending, token) <==>
                HasToken(old(pending), token) || (token in tokens && PendingMergeIn(old(pending), name, target).Some?)
      ensures forall key | key in pending && (key != PendingKey(name, target) || pending[key].target != target) ::
                pending[key] == old(pending)[key]
      ensures PendingMergeIn(old(pending), name, target).Some? ==>
                var merge, was := pending[PendingKey(name, target)], PendingMergeIn(old(pending), name, target).value;
                merge.tokens == was.tokens + tokens && merge.(tokens := []) == was.(tokens := [])
    {
      var merge := PendingMergeIn(pending, name, target);
      if merge.None? { return; }
      var key, more := PendingKey(name, target), merge.value.(tokens := merge.value.tokens + tokens);
      TokensAdded(pending, key, more, tokens);
      pending := pending[key := more];
    }

    /** The merge turns from pending to landed and is left without passwords. */
    method MarkLanded(name: string, list: TrackerList)
      modifies this`pending
      ensures pending == AfterLanding(old(pending), name, list)
    {
      var merge := PendingMergeIn(pending, name, list);
      if merge.Some? {
        pending := pending[PendingKey(name, list) := merge.value.(tokens := [], landed := true)];
      }
    }

    /** `name`'s list moved and logged, and its merge kept as landed. */
    method Store(name: string, current: TrackerList, list: TrackerList)
      requires Valid() && name in branches && branches[name] == current
      modifies this
      ensures Valid() && old(log) <= log && branches == old(branches)[name := list]
      ensures RowsFor(log[|old(log)|..], name, current, list, current.Keys + list.Keys)
      ensures pending == AfterLanding(old(pending), name, list)
    {
      HeadsAreLists(name);
      MoveHeads(name, current, list, {});
      MarkLanded(name, list);
    }

    /** The branch goes to `list` at one stroke, if it may; the outcome says what stood in the way. */
    method Land(name: string, base: TrackerList, list: TrackerList) returns (done: Outcome)
      requires Valid()
      modifies this
      ensures Valid() && old(log) <= log
      ensures done.LandMissing? <==> name !in old(branches)
      ensures done.Landed? <==>
                name in old(branches) && (old(branches)[name] == list || Admitted(old(branches)[name], base, list))
      ensures done.LandMoved? ==> done.list == old(branches)[name]
      ensures !done.Landed? ==>
                branches == old(branches) && log == old(log) && heads == old(heads) && pending == old(pending)
      ensures done.Landed? ==>
                var was := old(branches)[name];
                && branches == old(branches)[name := list]
                && RowsFor(log[|old(log)|..], name, was, list, was.Keys + list.Keys)
                && done.list == list && (done.already <==> was == list)
                && HandedBack(old(pending), pending, name, list, done.tokens, done.writes)
    {
      if name !in branches { return LandMissing; }
      HeadsAreLists(name);
      var current := HeadsOf(name);
      var merge := PendingMergeIn(pending, name, list);
      LandingHandsBack(pending, name, list, current == list);
      if current == list {
        MarkLanded(name, list);
        NoRows(log, name, list);
        return LandedWith(current, merge, true);
      }
      var admitted := Compare(current, base, list);
      if !admitted { return LandMoved(current); }
      Store(name, current, list);
      HeadsAreLists(name);
      done := LandedWith(HeadsOf(name), merge, false);
    }

    /** The log is searched for `commit`, on either side of a row. */
    method WasHead(name: string, tracker: string, commit: Commit) returns (was: bool)
      requires Valid()
      ensures was <==> HeadOnce(log, name, tracker, commit)
    {
      InLogMeans(log, name, tracker, commit);
      HeadsAreLists(name);
      if Get(HeadsOf(name), tracker) == Some(commit) {
        assert log[..|log|] == log;
        return true;
      }
      was := InLog(log, name, tracker, commit);
    }
  }

  /** A landing's answer: the list, with the passwords to cancel and the moves of its merge, if it began one. */
  function LandedWith(list: TrackerList, merge: Option<PendingMerge>, already: bool): Outcome {
    match merge
    case None => Landed(list, [], [], already)
    case Some(begun) => Landed(list, begun.tokens, begun.writes, already)
  }

  function AfterLanding(pending: Pending, name: string, list: TrackerList): Pending {
    var merge := PendingMergeIn(pending, name, list);
    if merge.None? then pending else pending[PendingKey(name, list) := merge.value.(tokens := [], landed := true)]
  }

  lemma TokensAdded(pending: Pending, key: (string, Commit), more: PendingMerge, tokens: seq<Token>)
    requires key in pending && more.tokens == pending[key].tokens + tokens
    ensures forall token :: HasToken(pending[key := more], token) <==> HasToken(pending, token) || token in tokens
  {
    var after := pending[key := more];
    forall token ensures HasToken(after, token) <==> HasToken(pending, token) || token in tokens {
      if other :| other in after && token in after[other].tokens {
        assert other == key || pending[other] == after[other];
      }
      if token in tokens { assert token in after[key].tokens; }
      if other :| other in pending && token in pending[other].tokens {
        assert other in after && token in after[other].tokens;
      }
    }
  }

  lemma GiveUpOne(pending: Pending, gone: set<(string, Commit)>, key: (string, Commit))
    requires key in pending
    ensures forall token ::
              GivenUp(pending, gone + {key}, token) <==> GivenUp(pending, gone, token) || token in pending[key].tokens
  {
    forall token
      ensures GivenUp(pending, gone + {key}, token) <==> GivenUp(pending, gone, token) || token in pending[key].tokens
    {
      if token in pending[key].tokens { assert key in gone + {key}; }
      if GivenUp(pending, gone, token) {
        var other :| other in gone && other in pending && token in pending[other].tokens;
        assert other in gone + {key};
      }
    }
  }

  /** The merge is pending; of the others those into `name` whose time is up are gone, and the rest are as they were. */
  ghost predicate Noted(before: Pending, after: Pending, name: string, now: int, target: TrackerList,
                        merge: PendingMerge)
  {
    && PendingKey(name, target) in after && after[PendingKey(name, target)] == merge
    && forall key | key != PendingKey(name, target) ::
         && (key in after <==> key in before && (key.0 != name || before[key].until > now))
         && (key in after ==> after[key] == before[key])
  }

  /** A password to cancel: of a merge into `name` whose time is up, or of this very merge, begun before. */
  ghost predicate Cancelled(pending: Pending, name: string, now: int, target: TrackerList, token: Token) {
    || (exists key :: key in pending && key.0 == name && pending[key].until <= now && token in pending[key].tokens)
    || (PendingKey(name, target) in pending && pending[PendingKey(name, target)].target == target
        && token in pending[PendingKey(name, target)].tokens)
  }

  lemma CancelledAre(pending: Pending, name: string, now: int, target: TrackerList, token: Token)
    ensures var gone := Expired(pending, name, now);
            var again := PendingMergeIn(pending - gone, name, target);
            Cancelled(pending, name, now, target, token) <==>
              GivenUp(pending, gone, token) || (again.Some? && token in again.value.tokens)
  {
    var gone := Expired(pending, name, now);
    if key :| key in pending && key.0 == name && pending[key].until <= now && token in pending[key].tokens {
      assert key in gone;
    }
    var key := PendingKey(name, target);
    if key in pending && pending[key].target == target && token in pending[key].tokens && key in gone {
      assert GivenUp(pending, gone, token);
    }
  }

  /** No password was handed out for two merges. */
  ghost predicate OneMergeEach(pending: Pending) {
    forall key, other, token
      | key in pending && other in pending && token in pending[key].tokens && token in pending[other].tokens ::
      key == other
  }

  /** A merge to the same root commit and another list is written over before its time is up. */
  predicate WritesOver(pending: Pending, name: string, now: int, target: TrackerList) {
    var key := PendingKey(name, target);
    key in pending && pending[key].until > now && pending[key].target != target && pending[key].tokens != []
  }

  /**
   Beginning a merge loses track of no password if and only if there is no other
   merge under its key whose passwords it would neither keep nor return.
   */
  lemma PasswordsAccountedExactlyWhen(pending: Pending, after: Pending, name: string, now: int, target: TrackerList,
                                      merge: PendingMerge)
    requires merge.tokens == [] && OneMergeEach(pending) && Noted(pending, after, name, now, target, merge)
    ensures (forall token | HasToken(pending, token) ::
               HasToken(after, token) || Cancelled(pending, name, now, target, token))
            <==> !WritesOver(pending, name, now, target)
  {
    var key := PendingKey(name, target);
    forall token | HasToken(pending, token)
      ensures HasToken(after, token) || Cancelled(pending, name, now, target, token)
              || (WritesOver(pending, name, now, target) && token in pending[key].tokens)
    {
      var other :| other in pending && token in pending[other].tokens;
      if other != key && (other.0 != name || pending[other].until > now) {
        assert other in after && after[other] == pending[other];
      }
    }
    if WritesOver(pending, name, now, target) {
      var token := pending[key].tokens[0];
      assert HasToken(pending, token);
    }
  }

  /**
   Its passwords and the moves it asked for come out of the merge that makes `list`, if one was begun,
   which keeps only the moves; every other merge is as it was.
   */
  ghost predicate HandedBack(before: Pending, after: Pending, name: string, list: TrackerList, tokens: seq<Token>,
                             writes: seq<string>)
  {
    var key := PendingKey(name, list);
    if key !in before || before[key].target != list then tokens == [] && writes == [] && after == before
    else
      && tokens == before[key].tokens && writes == before[key].writes && after.Keys == before.Keys
      && after[key].landed && after[key].tokens == []
      && after[key].(tokens := [], landed := false) == before[key].(tokens := [], landed := false)
      && forall other | other in before && other != key :: after[other] == before[other]
  }

  lemma LandingHandsBack(pending: Pending, name: string, list: TrackerList, already: bool)
    ensures var done := LandedWith(list, PendingMergeIn(pending, name, list), already);
            && done.Landed? && done.list == list && done.already == already
            && HandedBack(pending, AfterLanding(pending, name, list), name, list, done.tokens, done.writes)
  {
  }

  /** A merge that lands again, having landed, has no password to hand back; its moves come back as before. */
  lemma HandedBackOnce(pending: Pending, after: Pending, later: Pending, name: string, list: TrackerList,
                       tokens: seq<Token>, writes: seq<string>, more: seq<Token>, again: seq<string>)
    requires HandedBack(pending, after, name, list, tokens, writes)
    requires HandedBack(after, later, name, list, more, again)
    ensures more == [] && again == writes && later == after
  {
    var key := PendingKey(name, list);
    if key in pending && pending[key].target == list { assert later[key] == after[key]; }
  }
}
