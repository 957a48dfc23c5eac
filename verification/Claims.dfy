/** What a claim covers. */
module Claims {
  // Claims, mounts and paths are compared as text; these lemmas say what that comes to
  // for the directories they name, one inside the other.

  import opened Wrappers
  import opened Order
  import opened Governance

  // ---- segments ------------------------------------------------------------------

  /** A directory's or a file's own name. */
  ghost predicate IsSegment(text: string) { text != "" && text != "." && '/' !in text }

  ghost predicate AreSegments(segments: seq<string>) { forall segment | segment in segments :: IsSegment(segment) }

  lemma {:induction false} SegmentsFrom(path: string, segment: string)
    requires '/' !in path
    ensures Segments(path, segment) == Segment(segment + path)
    decreases |path|
  {
    if path == "" {
      assert segment + path == segment;
    } else {
      SegmentsFrom(path[1..], segment + [path[0]]);
      assert segment + [path[0]] + path[1..] == segment + path;
    }
  }

  /** Without a slash there is one segment, or none. */
  lemma SegmentAlone(path: string)
    requires '/' !in path
    ensures Segments(path, "") == if path == "" || path == "." then [] else [path]
  {
    SegmentsFrom(path, "");
    assert "" + path == path;
  }

  lemma {:induction false} SegmentsJoin(left: string, segment: string, right: string)
    ensures Segments(left + "/" + right, segment) == Segments(left, segment) + Segments(right, "")
    decreases |left|
  {
    var path := left + "/" + right;
    if left == "" {
      assert path[0] == '/' && path[1..] == right;
    } else {
      assert path[0] == left[0] && path[1..] == left[1..] + "/" + right;
      if left[0] == '/' {
        SegmentsJoin(left[1..], "", right);
        assert Segment(segment) + (Segments(left[1..], "") + Segments(right, ""))
            == Segment(segment) + Segments(left[1..], "") + Segments(right, "");
      } else {
        SegmentsJoin(left[1..], segment + [left[0]], right);
      }
    }
  }

  /** A slash parts segments: those before it, then those after. */
  lemma SlashParts(left: string, right: string)
    ensures Segments(left + "/" + right, "") == Segments(left, "") + Segments(right, "")
  {
    SegmentsJoin(left, "", right);
  }

  lemma {:induction false} SegmentsOfJoined(segments: seq<string>)
    requires AreSegments(segments)
    ensures Segments(Joined(segments), "") == segments
    decreases |segments|
  {
    if |segments| == 1 {
      assert segments[0] in segments;
      SegmentAlone(segments[0]);
    } else if |segments| > 1 {
      assert segments[0] in segments;
      SegmentAlone(segments[0]);
      SlashParts(segments[0], Joined(segments[1..]));
      SegmentsOfJoined(segments[1..]);
      assert segments == [segments[0]] + segments[1..];
    }
  }

  lemma {:induction false} SegmentsAre(path: string, segment: string)
    requires '/' !in segment
    ensures AreSegments(Segments(path, segment))
    decreases |path|
  {
    if path != "" {
      if path[0] == '/' { SegmentsAre(path[1..], ""); } else { SegmentsAre(path[1..], segment + [path[0]]); }
    }
  }

  /** A path as it is written: segments with slashes between them, or `.` for none. */
  ghost predicate Plain(path: string) { path == Normalized(path) }

  /** Writing a path plainly keeps its segments, and is writing it plainly for good. */
  lemma NormalizedIsPlain(path: string)
    ensures Plain(Normalized(path)) && Segments(Normalized(path), "") == Segments(path, "")
  {
    SegmentsAre(path, "");
    SegmentsOfJoined(Segments(path, ""));
    SegmentAlone(".");
  }

  lemma PlainIs(path: string)
    requires Plain(path)
    ensures AreSegments(Segments(path, ""))
    ensures path == if path == "." then "." else Joined(Segments(path, ""))
    ensures path == "." <==> Segments(path, "") == []
  {
    SegmentsAre(path, "");
    SegmentAlone(".");
    SegmentsOfJoined(Segments(path, ""));
  }

  lemma {:induction false} JoinedMore(left: seq<string>, right: seq<string>)
    requires left != [] && right != []
    ensures Joined(left + right) == Joined(left) + "/" + Joined(right)
    decreases |left|
  {
    if |left| == 1 {
      assert (left + right)[0] == left[0] && (left + right)[1..] == right;
    } else {
      JoinedMore(left[1..], right);
      assert (left + right)[0] == left[0] && (left + right)[1..] == left[1..] + right;
      assert left[0] + "/" + (Joined(left[1..]) + "/" + Joined(right))
          == left[0] + "/" + Joined(left[1..]) + "/" + Joined(right);
    }
  }

  // ---- what is held, and where it is placed -------------------------------------------

  /** One path holds another exactly when its segments are the other's first: whole names, never parts of one. */
  lemma HoldsExactly(prefix: string, path: string)
    requires Plain(prefix) && Plain(path)
    ensures HoldsPath(prefix, path) <==> Segments(prefix, "") <= Segments(path, "")
  {
    PlainIs(prefix);
    PlainIs(path);
    var mine, all := Segments(prefix, ""), Segments(path, "");
    if prefix != "." {
      if prefix + "/" <= path {
        var rest := path[|prefix| + 1..];
        assert path == prefix + "/" + rest;
        SlashParts(prefix, rest);
      }
      if mine <= all && mine != all {
        assert all == mine + all[|mine|..];
        JoinedMore(mine, all[|mine|..]);
      }
    }
  }

  /** A claim lies below its tracker's mount, segment for segment. */
  lemma PlacedBelow(mount: string, claim: string)
    requires Plain(mount)
    ensures Plain(PlaceClaim(mount, claim))
    ensures Segments(PlaceClaim(mount, claim), "") == Segments(mount, "") + Segments(claim, "")
  {
    PlainIs(mount);
    NormalizedIsPlain(claim);
    PlainIs(Normalized(claim));
    var relative := Normalized(claim);
    if mount != "." && relative != "." {
      SlashParts(mount, relative);
      JoinedMore(Segments(mount, ""), Segments(relative, ""));
    }
  }

  lemma {:induction false} SlashesJoin(left: string, right: string)
    ensures Slashes(left + "/" + right) == Slashes(left) + 1 + Slashes(right)
    decreases |left|
  {
    var path := left + "/" + right;
    if left == "" {
      assert path[0] == '/' && path[1..] == right;
    } else {
      assert path[0] == left[0] && path[1..] == left[1..] + "/" + right;
      SlashesJoin(left[1..], right);
    }
  }

  lemma {:induction false} NoSlashes(text: string)
    requires '/' !in text
    ensures Slashes(text) == 0
    decreases |text|
  {
    if text != "" { NoSlashes(text[1..]); }
  }

  lemma {:induction false} SlashesOfJoined(segments: seq<string>)
    requires AreSegments(segments) && segments != []
    ensures Slashes(Joined(segments)) + 1 == |segments|
    decreases |segments|
  {
    assert segments[0] in segments;
    NoSlashes(segments[0]);
    if |segments| > 1 {
      SlashesJoin(segments[0], Joined(segments[1..]));
      SlashesOfJoined(segments[1..]);
    }
  }

  /** A mount is as deep as it has segments. */
  lemma DepthIsSegments(mount: string)
    requires Plain(mount)
    ensures Depth(mount) == |Segments(mount, "")|
  {
    PlainIs(mount);
    if mount != "." { SlashesOfJoined(Segments(mount, "")); }
  }

  /** What a claim of a tracker covers: the paths whose segments begin with the mount's, and then the claim's. */
  lemma CoversExactly(mount: string, written: string, path: string)
    requires Plain(mount) && Plain(path)
    ensures var claim := if "!" <= written then written[1..] else written;
            Covers(mount, written, path) <==> Segments(mount, "") + Segments(claim, "") <= Segments(path, "")
  {
    var claim := if "!" <= written then written[1..] else written;
    PlacedBelow(mount, claim);
    HoldsExactly(PlaceClaim(mount, claim), path);
  }

  /** What is under a mount, put back under it, is where it was. */
  lemma RelativeIsBelow(mount: string, path: string)
    requires Plain(mount) && Plain(path) && HoldsPath(mount, path)
    ensures Segments(path, "") == Segments(mount, "") + Segments(RelativeTo(mount, path), "")
  {
    PlainIs(mount);
    if mount == "." {
      SegmentAlone(".");
    } else if path == mount {
      SegmentAlone(".");
    } else {
      assert path == mount + "/" + path[|mount| + 1..];
      SlashParts(mount, path[|mount| + 1..]);
    }
  }

  // ---- who owns a path -----------------------------------------------------------------

  /** Some claim, or some exclusion, reaches the path. */
  ghost predicate Reaches(facts: Facts, path: string, exclusion: bool) {
    exists i | 0 <= i < |facts.paths| ::
      var written := facts.paths[i];
      && ("!" <= written <==> exclusion)
      && Segments(facts.mount, "") + Segments(if exclusion then written[1..] else written, "") <= Segments(path, "")
  }

  /** A tracker claims a path that some claim of its reaches and no exclusion does, whatever order they come in. */
  lemma ClaimedExactlyWhen(facts: Facts, path: string)
    requires Plain(facts.mount) && Plain(path)
    ensures ClaimOf(facts, path).Some? <==> Reaches(facts, path, false) && !Reaches(facts, path, true)
  {
    forall i | 0 <= i < |facts.paths|
      ensures var written := facts.paths[i];
              Covers(facts.mount, written, path) <==>
                Segments(facts.mount, "") + Segments(if "!" <= written then written[1..] else written, "")
                  <= Segments(path, "")
    {
      CoversExactly(facts.mount, facts.paths[i], path);
    }
    assert Excluded(facts, path) <==> Reaches(facts, path, true);
    assert Reaches(facts, path, false) <==> exists i: nat :: Claims(facts, path, i) by {
      if i: nat :| Claims(facts, path, i) { assert !("!" <= facts.paths[i]); }
      if Reaches(facts, path, false) {
        var i :| 0 <= i < |facts.paths| && !("!" <= facts.paths[i])
                 && Segments(facts.mount, "") + Segments(facts.paths[i], "") <= Segments(path, "");
        assert Claims(facts, path, i);
      }
    }
  }

  /** How long a claim is: the text of the path it stands for, and nothing for the whole workspace. */
  function Length(facts: Facts, i: nat): nat
    requires i < |facts.paths|
  {
    var placed := PlaceClaim(facts.mount, facts.paths[i]);
    if placed == "." then 0 else |placed|
  }

  /** Of the claims that cover a path, the longest is what counts. */
  lemma LongestCounts(facts: Facts, path: string, best: nat)
    requires Plain(facts.mount) && Plain(path) && ClaimOf(facts, path) == Some(best)
    ensures forall i: nat | i < |facts.paths| && !("!" <= facts.paths[i])
                            && Segments(facts.mount, "") + Segments(facts.paths[i], "") <= Segments(path, "") ::
              Length(facts, i) <= best
    ensures exists i: nat :: i < |facts.paths| && Length(facts, i) == best
  {
    forall i: nat | i < |facts.paths| && !("!" <= facts.paths[i])
      ensures Claims(facts, path, i) <==>
                Segments(facts.mount, "") + Segments(facts.paths[i], "") <= Segments(path, "")
      ensures ClaimWeight(facts, i) == Length(facts, i)
    {
      CoversExactly(facts.mount, facts.paths[i], path);
    }
    var i: nat :| Claims(facts, path, i) && ClaimWeight(facts, i) == best;
    assert !("!" <= facts.paths[i]);
  }

  /** One tracker's claim on a path comes before another's: longer, or as long and of a lesser name. */
  ghost predicate Beats(facts: Definitions, path: string, name: string, other: string)
    requires name in facts && other in facts && ClaimOf(facts[name], path).Some?
  {
    var mine, its := ClaimOf(facts[name], path).value, ClaimOf(facts[other], path);
    its.None? || mine > its.value || (mine == its.value && AtMost(name, other))
  }

  /** In Git, mounted over the path, claiming it, and before any other: no mount over it is deeper. */
  ghost predicate Owns(facts: Definitions, path: string, name: string) {
    && name in facts && facts[name].git && HoldsPath(facts[name].mount, path) && ClaimOf(facts[name], path).Some?
    && forall other | other in facts && facts[other].git && HoldsPath(facts[other].mount, path) ::
         || Depth(facts[other].mount) < Depth(facts[name].mount)
         || (Depth(facts[other].mount) == Depth(facts[name].mount) && Beats(facts, path, name, other))
  }

  lemma PreferenceIs(facts: Definitions, path: string, name: string, other: string)
    requires name in facts && ClaimOf(facts[name], path).Some?
    requires other in facts && ClaimOf(facts[other], path).Some?
    ensures KeyAtMost(Preference(facts, path)(name), Preference(facts, path)(other)) <==>
              Beats(facts, path, name, other)
  {
  }

  lemma BestOwns(facts: Definitions, path: string, name: string)
    requires Owns(facts, path, name)
    ensures IsLeast(Claimants(facts, path), Preference(facts, path), name)
  {
    assert MountedOver(facts, path, name);
    assert DeepestOver(facts, path, name) && name in Claimants(facts, path);
    forall other | other in Claimants(facts, path)
      ensures KeyAtMost(Preference(facts, path)(name), Preference(facts, path)(other))
    {
      assert MountedOver(facts, path, other);
      PreferenceIs(facts, path, name, other);
    }
  }

  lemma LeastOwns(facts: Definitions, path: string, name: string)
    requires IsLeast(Claimants(facts, path), Preference(facts, path), name)
    ensures Owns(facts, path, name)
  {
    forall other | other in facts && facts[other].git && HoldsPath(facts[other].mount, path)
      ensures || Depth(facts[other].mount) < Depth(facts[name].mount)
              || (Depth(facts[other].mount) == Depth(facts[name].mount) && Beats(facts, path, name, other))
    {
      assert MountedOver(facts, path, other);
      if Depth(facts[other].mount) == Depth(facts[name].mount) && ClaimOf(facts[other], path).Some? {
        assert DeepestOver(facts, path, other) && other in Claimants(facts, path);
        PreferenceIs(facts, path, name, other);
      }
    }
  }

  /** The owner of a path is who owns it: one tracker, or none. */
  lemma OwnerExactlyWhen(facts: Definitions, path: string, name: string)
    ensures OwnerOf(facts, path) == Some(name) <==> Owns(facts, path, name)
  {
    var owner := OwnerOf(facts, path);
    assert IsOwner(facts, path, owner);
    if Owns(facts, path, name) {
      BestOwns(facts, path, name);
      assert IsOwner(facts, path, Some(name));
      OneOwner(facts, path);
    }
    if owner == Some(name) { LeastOwns(facts, path, name); }
  }

  // ---- who takes a definition file -------------------------------------------------------

  /** A file's holder, or a tracker whose own file its holder has, with a chain to `access` that does not meet it. */
  ghost predicate Stands(standing: Holders, was: string, name: string, candidate: string) {
    && candidate != name && Clear(standing, candidate, name)
    && (candidate == was || (if candidate in standing then standing[candidate] else ACCESS) == was)
  }

  /**
   A tracker that stands for a definition file and owns it, among all that stand for
   it, is the next to hold it: a holder that still claims it best keeps it, and one it
   has delegated to may take it. Where none does, `access` has it.
   */
  lemma TakesExactlyWhen(facts: Definitions, standing: Holders, was: string, name: string, taker: string)
    requires name != ACCESS && taker != ACCESS
    ensures var among := map other | other in facts && Stands(standing, was, name, other) :: facts[other];
            NextHolder(facts, standing, was, name) == taker <==>
              Owns(among, ACCESS_MOUNT + "/" + name + ".toml", taker)
  {
    var among := map other | other in facts && Stands(standing, was, name, other) :: facts[other];
    var eligible := Eligible(facts, standing, was, name);
    assert eligible == among;
    OwnerExactlyWhen(among, DefinitionFile(name), taker);
  }

  /** A holder whose claim is no worse than any other that stands for the file keeps it. */
  lemma KeepsWhatItHolds(facts: Definitions, standing: Holders, was: string, name: string)
    requires name != ACCESS && was != ACCESS && was != name && was in facts && Clear(standing, was, name)
    requires var file := ACCESS_MOUNT + "/" + name + ".toml";
             && facts[was].git && HoldsPath(facts[was].mount, file) && ClaimOf(facts[was], file).Some?
             && forall other | other in facts && other != was && Stands(standing, was, name, other)
                               && facts[other].git && HoldsPath(facts[other].mount, file) ::
                  || Depth(facts[other].mount) < Depth(facts[was].mount)
                  || (Depth(facts[other].mount) == Depth(facts[was].mount) && Beats(facts, file, was, other))
    ensures NextHolder(facts, standing, was, name) == was
  {
    var file := ACCESS_MOUNT + "/" + name + ".toml";
    var among := map other | other in facts && Stands(standing, was, name, other) :: facts[other];
    AtMostTotal(was, was);
    forall other | other in among && facts[other].git && HoldsPath(facts[other].mount, file)
      ensures || Depth(among[other].mount) < Depth(among[was].mount)
              || (Depth(among[other].mount) == Depth(among[was].mount) && Beats(among, file, was, other))
    {
    }
    assert Owns(among, file, was);
    TakesExactlyWhen(facts, standing, was, name, was);
  }

  // ---- where definitions are read ------------------------------------------------------------

  /**
   A definition is read from its holder's file at its place under the holder's mount, and from the
   definitions' own place only where `access` holds it and has no such file; `root` and `access` need none.
   */
  lemma ReadFromHolder(repos: Repos, source: Sources, name: string, path: string)
    requires name in source
    requires var from := source[name]; from.mount != "." && from.mount + "/" + path == DefinitionFile(name)
    ensures var from, read := source[name], ReadAll(repos, source);
            var text := if path == "." then None else repos.read(from.tracker, path);
            var own := if from.tracker == ACCESS then repos.read(ACCESS, ACCESS_MOUNT + "/" + name + ".toml") else None;
            && (text.Some? ==> (name in read <==> repos.parse(text.value).Some?))
            && (text.Some? && name in read ==> repos.parse(text.value) == Some(read[name]))
            && (text.None? && own.Some? ==> (name in read <==> repos.parse(own.value).Some?))
            && (text.None? && own.Some? && name in read ==> repos.parse(own.value) == Some(read[name]))
            && (text.None? && own.None? ==> (name in read <==> name == "root" || name == "access"))
  {
    var from := source[name];
    assert DefinitionFile(name)[|from.mount| + 1..] == path;
    assert DefinitionFile(name) != from.mount;
  }

  /** In the next round each is read from who holds it next, under the mount that tracker has now. */
  lemma NextReads(repos: Repos, source: Sources, name: string)
    requires name in source
    ensures var read, next := ReadAll(repos, source), NextSources(repos, source);
            && name in next && name in NextHolders(read, HoldersOf(source))
            && next[name].tracker == NextHolders(read, HoldersOf(source))[name]
            && (next[name].tracker in read ==> next[name].mount == read[next[name].tracker].mount)
            && (next[name].tracker !in read ==> next[name].mount == ".newgit/trackers")
  {
    NextHoldersKeys(ReadAll(repos, source), HoldersOf(source));
  }
}
