/** What commit messages and headers carry. */
module Messages {
  // Messages with trailers, and stored commits: writing each, reading each, and the
  // two being inverse.

  import opened Wrappers
  import opened Text

  type Bytes = string

  const SPLIT_TRAILER: Bytes := "Newgit-Split: "
  const HEADER_TRAILER: Bytes := "Newgit-Split-Header: "

  // ---- messages ------------------------------------------------------------

  /** How many newlines `message` ends with. */
  function EndingLength(message: Bytes): (length: nat)
    ensures length <= |message|
    ensures forall at | |message| - length <= at < |message| :: message[at] == '\n'
    ensures length < |message| ==> message[|message| - length - 1] != '\n'
  {
    if message == "" || message[|message| - 1] != '\n' then 0
    else 1 + EndingLength(message[..|message| - 1])
  }

  function BodyOf(message: Bytes): Bytes { message[..|message| - EndingLength(message)] }

  function EndingOf(message: Bytes): Bytes { message[|message| - EndingLength(message)..] }

  lemma {:induction false} EndingIs(body: Bytes, ending: Bytes)
    requires body == "" || body[|body| - 1] != '\n'
    requires forall at | 0 <= at < |ending| :: ending[at] == '\n'
    ensures BodyOf(body + ending) == body && EndingOf(body + ending) == ending
  {
    if ending == "" {
      assert body + ending == body;
    } else {
      var message, shorter := body + ending, ending[..|ending| - 1];
      assert message[..|message| - 1] == body + shorter;
      EndingIs(body, shorter);
      assert EndingLength(message) == 1 + EndingLength(body + shorter);
      assert EndingLength(body + shorter) == |shorter| by {
        assert |BodyOf(body + shorter)| == |body|;
      }
    }
  }

  /** `lines` without the empty ones. */
  function Kept(lines: seq<Bytes>): (kept: seq<Bytes>)
    ensures NonBlank(kept)
    ensures NoNewlines(lines) ==> NoNewlines(kept)
  {
    if lines == [] then []
    else if lines[0] == "" then Kept(lines[1..])
    else [lines[0]] + Kept(lines[1..])
  }

  function Marked(lines: seq<Bytes>): seq<Bytes> {
    seq(|lines|, i requires 0 <= i < |lines| => HEADER_TRAILER + lines[i])
  }

  function HeaderBlock(lines: seq<Bytes>): Bytes { Ended(Marked(Kept(lines))) }

  /**
   A message that remembers `source` and `headers` after its own text. Newlines
   at the end of `message` are moved to the end of the result.
   */
  function WithSplitTrailers(message: Bytes, source: Bytes, headers: Bytes): Bytes {
    BodyOf(message) + BLANK + HeaderBlock(Lines(headers)) + SPLIT_TRAILER + source + EndingOf(message)
  }

  /** What can be read back: which commit, its message, and its headers. */
  datatype SplitFrom = SplitFrom(source: Bytes, message: Bytes, headers: Bytes)

  predicate IsHex(digit: char) {
    '0' <= digit <= '9' || 'a' <= digit <= 'f' || 'A' <= digit <= 'F'
  }

  predicate IsId(source: Bytes) {
    |source| == 40 && forall digit | digit in source :: IsHex(digit)
  }

  /** An id is forty digits to the base of sixteen, in either case. */
  lemma IdIs(source: Bytes)
    ensures IsId(source) <==>
              |source| == 40 && forall digit | digit in source :: digit in "0123456789abcdefABCDEF"
  {
    forall digit: char ensures IsHex(digit) <==> digit in "0123456789abcdefABCDEF" { HexIs(digit); }
  }

  lemma HexIs(digit: char)
    ensures IsHex(digit) <==> digit in "0123456789abcdefABCDEF"
  {
    if IsHex(digit) {
      var at := if digit <= '9' then digit as int - '0' as int
                else if digit >= 'a' then 10 + (digit as int - 'a' as int) else 16 + (digit as int - 'A' as int);
      assert "0123456789abcdefABCDEF"[at] == digit;
    }
  }

  /** Where the last empty line starts. */
  function LastBlank(text: Bytes, below: nat): (at: Option<nat>)
    ensures at.None? ==> forall k: nat | k < below :: !BlankAt(text, k)
    ensures at.Some? ==> at.value < below && BlankAt(text, at.value)
                         && forall k: nat | at.value < k < below :: !BlankAt(text, k)
  {
    if below == 0 then None
    else if BlankAt(text, below - 1) then Some(below - 1)
    else LastBlank(text, below - 1)
  }

  predicate AllMarked(lines: seq<Bytes>) {
    forall i | 0 <= i < |lines| :: HEADER_TRAILER <= lines[i]
  }

  function Unmarked(lines: seq<Bytes>): seq<Bytes>
    requires AllMarked(lines)
  {
    seq(|lines|, i requires 0 <= i < |lines| => lines[i][|HEADER_TRAILER|..])
  }

  /** What the last paragraph says, when it is a split commit's trailers. */
  function ParseBlock(body: Bytes, block: Bytes, ending: Bytes): Option<SplitFrom> {
    var lines := Lines(block);
    var last, rest := lines[|lines| - 1], lines[..|lines| - 1];
    if !(SPLIT_TRAILER <= last) || !IsId(last[|SPLIT_TRAILER|..]) then None
    else
      var source := last[|SPLIT_TRAILER|..];
      if AllMarked(rest) then
        Some(SplitFrom(source, body + ending, Ended(Unmarked(rest))))
      else
        // No trailer line among these: they were written by the author.
        Some(SplitFrom(source, body + BLANK + Join(rest) + ending, ""))
  }

  /** The reverse of `WithSplitTrailers`: `None` for a message that is no split commit's. */
  function ParseSplit(message: Bytes): Option<SplitFrom> {
    var trimmed, ending := BodyOf(message), EndingOf(message);
    var at := LastBlank(trimmed, |trimmed|);
    if at.Some? then ParseBlock(trimmed[..at.value], trimmed[at.value + 2..], ending)
    else ParseBlock("", trimmed, ending)
  }

  /** Headers as Git stores them: each line ended, none empty. */
  ghost predicate WellFormed(headers: Bytes) {
    Ended(Kept(Lines(headers))) == headers
  }

  lemma {:induction false} KeptAll(lines: seq<Bytes>)
    requires NonBlank(lines)
    ensures Kept(lines) == lines && Kept(lines + [""]) == lines
  {
    if lines != [] {
      KeptAll(lines[1..]);
      assert (lines + [""])[1..] == lines[1..] + [""];
    }
  }

  /** Headers are well formed exactly when they are non-empty lines, each ended. */
  lemma WellFormedHeaders(headers: Bytes)
    ensures WellFormed(headers) <==>
            exists lines :: NonBlank(lines) && NoNewlines(lines) && Ended(lines) == headers
  {
    if WellFormed(headers) {
      var lines := Kept(Lines(headers));
      assert NonBlank(lines) && NoNewlines(lines) && Ended(lines) == headers;
    }
    if lines :| NonBlank(lines) && NoNewlines(lines) && Ended(lines) == headers {
      LinesEnded(lines);
      KeptAll(lines);
    }
  }

  lemma {:induction false} LastBlankIs(body: Bytes, block: Bytes)
    requires block != "" && block[0] != '\n'
    requires forall at: nat :: !BlankAt(block, at)
    ensures var text := body + BLANK + block; LastBlank(text, |text|) == Some(|body|)
  {
    var text := body + BLANK + block;
    assert BlankAt(text, |body|);
    forall k: nat | |body| < k ensures !BlankAt(text, k) {
      if |body| + 2 <= k && k + 1 < |text| {
        assert text[k] == block[k - |body| - 2] && text[k + 1] == block[k + 1 - |body| - 2];
        assert !BlankAt(block, k - |body| - 2);
      }
    }
  }

  /** The trailers, line by line. */
  function TrailerLines(source: Bytes, headers: Bytes): seq<Bytes> {
    Marked(Kept(Lines(headers))) + [SPLIT_TRAILER + source]
  }

  lemma TrailerLinesAreLines(source: Bytes, headers: Bytes)
    requires IsId(source)
    ensures NonBlank(TrailerLines(source, headers)) && NoNewlines(TrailerLines(source, headers))
  {
    assert forall digit | digit in source :: digit != '\n';
  }

  lemma WithTrailersIsBlock(message: Bytes, source: Bytes, headers: Bytes)
    ensures WithSplitTrailers(message, source, headers)
            == BodyOf(message) + BLANK + Join(TrailerLines(source, headers)) + EndingOf(message)
  {
    EndedIsJoined(Marked(Kept(Lines(headers))), SPLIT_TRAILER + source);
    assert HeaderBlock(Lines(headers)) + (SPLIT_TRAILER + source) == Join(TrailerLines(source, headers));
  }

  lemma TrailersEnd(source: Bytes, headers: Bytes)
    requires IsId(source)
    ensures var block := Join(TrailerLines(source, headers));
            block != "" && block[0] != '\n' && block[|block| - 1] != '\n'
    ensures forall at: nat :: !BlankAt(Join(TrailerLines(source, headers)), at)
  {
    var lines := TrailerLines(source, headers);
    TrailerLinesAreLines(source, headers);
    NoBlankJoined(lines, 0);
    LastNotNewline(lines);
    forall at: nat ensures !BlankAt(Join(lines), at) { NoBlankJoined(lines, at); }
  }

  lemma TrimmedBlock(body: Bytes, block: Bytes, ending: Bytes)
    requires block != "" && block[0] != '\n' && block[|block| - 1] != '\n'
    requires forall at: nat :: !BlankAt(block, at)
    requires forall at | 0 <= at < |ending| :: ending[at] == '\n'
    ensures ParseSplit(body + BLANK + block + ending) == ParseBlock(body, block, ending)
  {
    var trimmed := body + BLANK + block;
    assert trimmed[|trimmed| - 1] == block[|block| - 1];
    EndingIs(trimmed, ending);
    LastBlankIs(body, block);
    ParseSplitAt(trimmed + ending, body, block, ending);
  }

  /**
   Reading trailers back gives the message and the source exactly, whatever
   they were, and the headers' non-empty lines, each ended.
   */
  lemma ParseSplitUndoes(message: Bytes, source: Bytes, headers: Bytes)
    requires IsId(source)
    ensures ParseSplit(WithSplitTrailers(message, source, headers))
            == Some(SplitFrom(source, message, Ended(Kept(Lines(headers)))))
  {
    WithTrailersIsBlock(message, source, headers);
    TrailersEnd(source, headers);
    TrimmedBlock(BodyOf(message), Join(TrailerLines(source, headers)), EndingOf(message));
    ParseBlockUndoes(BodyOf(message), source, headers, EndingOf(message));
    assert BodyOf(message) + EndingOf(message) == message;
  }

  lemma ParseSplitAt(message: Bytes, body: Bytes, block: Bytes, ending: Bytes)
    requires BodyOf(message) == body + BLANK + block && EndingOf(message) == ending
    requires LastBlank(BodyOf(message), |BodyOf(message)|) == Some(|body|)
    ensures ParseSplit(message) == ParseBlock(body, block, ending)
  {
    var trimmed := BodyOf(message);
    assert trimmed[..|body|] == body && trimmed[|body| + 2..] == block;
  }

  lemma ParseBlockOf(body: Bytes, block: Bytes, rest: seq<Bytes>, source: Bytes, ending: Bytes)
    requires IsId(source) && AllMarked(rest) && Lines(block) == rest + [SPLIT_TRAILER + source]
    ensures ParseBlock(body, block, ending) == Some(SplitFrom(source, body + ending, Ended(Unmarked(rest))))
  {
    var last := SPLIT_TRAILER + source;
    assert (rest + [last])[..|rest|] == rest;
    assert SPLIT_TRAILER <= last && last[|SPLIT_TRAILER|..] == source;
  }

  lemma UnmarkedMarked(lines: seq<Bytes>)
    ensures AllMarked(Marked(lines)) && Unmarked(Marked(lines)) == lines
  {
  }

  lemma ParseBlockUndoes(body: Bytes, source: Bytes, headers: Bytes, ending: Bytes)
    requires IsId(source)
    ensures ParseBlock(body, Join(TrailerLines(source, headers)), ending)
            == Some(SplitFrom(source, body + ending, Ended(Kept(Lines(headers)))))
  {
    TrailerLinesAreLines(source, headers);
    LinesJoined(TrailerLines(source, headers));
    UnmarkedMarked(Kept(Lines(headers)));
    ParseBlockOf(body, Join(TrailerLines(source, headers)), Marked(Kept(Lines(headers))), source, ending);
  }

  /** What a message's last paragraph tells: the line at its end, and whether all the others are trailers too. */
  function Told(body: Bytes, lines: seq<Bytes>, ending: Bytes): Option<SplitFrom>
    requires lines != []
  {
    var last, rest := lines[|lines| - 1], lines[..|lines| - 1];
    if !("Newgit-Split: " <= last && IsId(last[14..])) then None
    else if forall i | 0 <= i < |rest| :: "Newgit-Split-Header: " <= rest[i] then
      Some(SplitFrom(last[14..], body + ending, Ended(seq(|rest|, i requires 0 <= i < |rest| => rest[i][21..]))))
    else Some(SplitFrom(last[14..], body + BLANK + Join(rest) + ending, ""))
  }

  /**
   The last paragraph decides: a message is a split commit's if that ends in the
   trailer, whoever wrote it, and lines beside it that are no trailers stay in the message.
   */
  lemma ParagraphDecides(body: Bytes, lines: seq<Bytes>, ending: Bytes)
    requires lines != [] && NonBlank(lines) && NoNewlines(lines)
    requires forall at | 0 <= at < |ending| :: ending[at] == '\n'
    ensures ParseSplit(body + BLANK + Join(lines) + ending) == Told(body, lines, ending)
  {
    NoBlankJoined(lines, 0);
    LastNotNewline(lines);
    forall at: nat ensures !BlankAt(Join(lines), at) { NoBlankJoined(lines, at); }
    TrimmedBlock(body, Join(lines), ending);
    LinesJoined(lines);
    BlockTells(body, Join(lines), lines, ending);
  }

  lemma BlockTells(body: Bytes, block: Bytes, lines: seq<Bytes>, ending: Bytes)
    requires lines != [] && Lines(block) == lines
    ensures ParseBlock(body, block, ending) == Told(body, lines, ending)
  {
    var rest := lines[..|lines| - 1];
    if AllMarked(rest) { assert Unmarked(rest) == seq(|rest|, i requires 0 <= i < |rest| => rest[i][21..]); }
  }

  /** So the whole of it comes back exactly when the headers are well formed. */
  lemma SplitRoundTrip(message: Bytes, source: Bytes, headers: Bytes)
    requires IsId(source)
    ensures ParseSplit(WithSplitTrailers(message, source, headers)) == Some(SplitFrom(source, message, headers))
            <==> WellFormed(headers)
  {
    ParseSplitUndoes(message, source, headers);
  }

  lemma ParsedBlockIsShorter(body: Bytes, block: Bytes, ending: Bytes)
    requires ParseBlock(body, block, ending).Some?
    ensures |ParseBlock(body, block, ending).value.message| + 30 < |body| + |block| + |ending|
  {
    var lines := Lines(block);
    JoinLines(block);
    JoinInit(lines);
    assert |lines[|lines| - 1]| >= 40;
  }

  /** A message read from trailers is shorter than the one that held them. */
  lemma ParsedIsShorter(message: Bytes)
    requires ParseSplit(message).Some?
    ensures |ParseSplit(message).value.message| < |message|
  {
    var trimmed, ending := BodyOf(message), EndingOf(message);
    var at := LastBlank(trimmed, |trimmed|);
    if at.Some? {
      ParsedBlockIsShorter(trimmed[..at.value], trimmed[at.value + 2..], ending);
    } else {
      ParsedBlockIsShorter("", trimmed, ending);
    }
  }

  lemma {:induction false} JoinInit(lines: seq<Bytes>)
    requires lines != []
    ensures |Join(lines)| == |Join(lines[..|lines| - 1])| + |lines[|lines| - 1]| + if |lines| > 1 then 1 else 0
  {
    if |lines| > 1 {
      JoinInit(lines[1..]);
      assert lines[1..][..|lines| - 2] == lines[..|lines| - 1][1..];
    }
  }

  // ---- the loops that fill the buffers --------------------------------------

  lemma {:induction false} EndedAppend(lines: seq<Bytes>, line: Bytes)
    ensures Ended(lines + [line]) == Ended(lines) + line + NEWLINE
  {
    if lines == [] {
      assert lines + [line] == [line];
    } else {
      EndedAppend(lines[1..], line);
      assert (lines + [line])[1..] == lines[1..] + [line];
    }
  }

  lemma {:induction false} KeptAppend(lines: seq<Bytes>, line: Bytes)
    ensures Kept(lines + [line]) == Kept(lines) + if line == "" then [] else [line]
  {
    if lines == [] {
      assert lines + [line] == [line];
    } else {
      KeptAppend(lines[1..], line);
      assert (lines + [line])[1..] == lines[1..] + [line];
    }
  }

  lemma TrailerStep(lines: seq<Bytes>, at: nat)
    requires at < |lines|
    ensures Ended(Marked(Kept(lines[..at + 1])))
            == Ended(Marked(Kept(lines[..at]))) + if lines[at] == "" then "" else HEADER_TRAILER + lines[at] + NEWLINE
  {
    var kept := Kept(lines[..at]);
    KeptAppend(lines[..at], lines[at]);
    assert lines[..at + 1] == lines[..at] + [lines[at]];
    if lines[at] == "" {
      assert Kept(lines[..at + 1]) == kept;
    } else {
      assert Marked(kept + [lines[at]]) == Marked(kept) + [HEADER_TRAILER + lines[at]];
      EndedAppend(Marked(kept), HEADER_TRAILER + lines[at]);
    }
  }

  method WriteHeaders(lines: seq<Bytes>) returns (out: Bytes)
    ensures out == HeaderBlock(lines)
  {
    out := "";
    var at := 0;
    while at < |lines|
      invariant 0 <= at <= |lines|
      invariant out == HeaderBlock(lines[..at])
    {
      TrailerStep(lines, at);
      if lines[at] != "" {
        out := out + (HEADER_TRAILER + lines[at] + NEWLINE);
      }
      at := at + 1;
    }
    assert lines[..at] == lines;
  }

  method WriteTrailers(message: Bytes, source: Bytes, headers: Bytes) returns (out: Bytes)
    ensures out == WithSplitTrailers(message, source, headers)
  {
    var bodyLength := |message|;
    while bodyLength > 0 && message[bodyLength - 1] == '\n'
      invariant 0 <= bodyLength <= |message|
      invariant forall at | bodyLength <= at < |message| :: message[at] == '\n'
    {
      bodyLength := bodyLength - 1;
    }
    EndingIs(message[..bodyLength], message[bodyLength..]);
    assert message == message[..bodyLength] + message[bodyLength..];
    var block := WriteHeaders(Lines(headers));
    out := message[..bodyLength] + BLANK + block + SPLIT_TRAILER + source + message[bodyLength..];
  }

  // ---- commits as stored -----------------------------------------------------

  /** A commit's fields as Git stores them, ids and all. */
  datatype Stored = Stored(
    tree: Bytes, parents: seq<Bytes>, author: Bytes, committer: Bytes, headers: Bytes, message: Bytes)

  const NOTHING := Stored("", [], "", "", "", "")

  const TREE: Bytes := "tree "
  const PARENT: Bytes := "parent "
  const AUTHOR: Bytes := "author "
  const COMMITTER: Bytes := "committer "

  function ParentLines(parents: seq<Bytes>): seq<Bytes> {
    seq(|parents|, i requires 0 <= i < |parents| => PARENT + parents[i])
  }

  /** One commit as bytes, line after line. */
  function CommitBody(commit: Stored): Bytes {
    TREE + commit.tree + NEWLINE + Ended(ParentLines(commit.parents))
    + AUTHOR + commit.author + NEWLINE + COMMITTER + commit.committer + NEWLINE
    + commit.headers + NEWLINE + commit.message
  }

  /** What reading one line of the head adds; `after` is past the committer line. */
  function ReadLine(line: Bytes, commit: Stored, after: bool): (Stored, bool) {
    if after then (commit.(headers := commit.headers + line + NEWLINE), true)
    else if TREE <= line then (commit.(tree := line[|TREE|..]), false)
    else if PARENT <= line then (commit.(parents := commit.parents + [line[|PARENT|..]]), false)
    else if AUTHOR <= line then (commit.(author := line[|AUTHOR|..]), false)
    else if COMMITTER <= line then (commit.(committer := line[|COMMITTER|..]), true)
    else (commit, false)
  }

  function ReadLines(lines: seq<Bytes>, commit: Stored, after: bool): (Stored, bool) {
    if lines == [] then (commit, after)
    else var (next, then_) := ReadLine(lines[0], commit, after); ReadLines(lines[1..], next, then_)
  }

  /** Where the first empty line starts, from `from` on. */
  function FirstBlank(text: Bytes, from: nat): (at: Option<nat>)
    ensures at.Some? ==> from <= at.value && BlankAt(text, at.value)
                         && forall k: nat | from <= k < at.value :: !BlankAt(text, k)
    ensures at.None? ==> forall k: nat | from <= k :: !BlankAt(text, k)
    decreases |text| - from
  {
    if from >= |text| then None else if BlankAt(text, from) then Some(from) else FirstBlank(text, from + 1)
  }

  function ParseCommit(raw: Bytes): Stored {
    var at := FirstBlank(raw, 0);
    var head := if at.Some? then raw[..at.value] else raw;
    var message := if at.Some? then raw[at.value + 2..] else "";
    ReadLines(Lines(head), NOTHING.(message := message), false).0
  }

  ghost predicate Storable(commit: Stored) {
    && '\n' !in commit.tree && '\n' !in commit.author && '\n' !in commit.committer
    && NoNewlines(commit.parents)
    && WellFormed(commit.headers)
  }

  lemma {:induction false} ReadLinesAppend(left: seq<Bytes>, right: seq<Bytes>, commit: Stored, after: bool)
    ensures ReadLines(left + right, commit, after)
            == var (next, then_) := ReadLines(left, commit, after); ReadLines(right, next, then_)
  {
    if left == [] {
      assert left + right == right;
    } else {
      var (next, then_) := ReadLine(left[0], commit, after);
      assert (left + right)[1..] == left[1..] + right;
      ReadLinesAppend(left[1..], right, next, then_);
    }
  }

  lemma {:induction false} ReadParents(parents: seq<Bytes>, commit: Stored)
    ensures ReadLines(ParentLines(parents), commit, false) == (commit.(parents := commit.parents + parents), false)
  {
    if parents == [] {
      assert commit.parents + parents == commit.parents;
    } else {
      assert ParentLines(parents)[1..] == ParentLines(parents[1..]);
      var line := PARENT + parents[0];
      assert line[0] == 'p' && line[|PARENT|..] == parents[0];
      assert ReadLine(line, commit, false) == (commit.(parents := commit.parents + [parents[0]]), false);
      var next := commit.(parents := commit.parents + [parents[0]]);
      ReadParents(parents[1..], next);
      assert next.parents + parents[1..] == commit.parents + parents;
    }
  }

  lemma {:induction false} ReadHeaders(lines: seq<Bytes>, commit: Stored)
    ensures ReadLines(lines, commit, true) == (commit.(headers := commit.headers + Ended(lines)), true)
  {
    if lines == [] {
      assert commit.headers + "" == commit.headers;
    } else {
      var next := commit.(headers := commit.headers + lines[0] + NEWLINE);
      ReadHeaders(lines[1..], next);
      assert next.headers + Ended(lines[1..]) == commit.headers + Ended(lines);
    }
  }

  /** The lines of a commit's head, headers last. */
  function HeadLines(commit: Stored): seq<Bytes> {
    [TREE + commit.tree] + ParentLines(commit.parents)
    + [AUTHOR + commit.author] + [COMMITTER + commit.committer] + Kept(Lines(commit.headers))
  }

  lemma {:induction false} EndedConcat(left: seq<Bytes>, right: seq<Bytes>)
    ensures Ended(left + right) == Ended(left) + Ended(right)
  {
    if left == [] {
      assert left + right == right;
    } else {
      EndedConcat(left[1..], right);
      assert (left + right)[1..] == left[1..] + right;
    }
  }

  lemma HeadLinesAreLines(commit: Stored)
    requires Storable(commit)
    ensures NonBlank(HeadLines(commit)) && NoNewlines(HeadLines(commit))
  {
  }

  lemma EndedFive(top: Bytes, parents: seq<Bytes>, author: Bytes, committer: Bytes, headers: seq<Bytes>)
    ensures Ended([top] + parents + [author] + [committer] + headers)
            == top + NEWLINE + Ended(parents) + author + NEWLINE + committer + NEWLINE + Ended(headers)
  {
    var two, three := [top] + parents, [top] + parents + [author];
    EndedConcat(three + [committer], headers);
    EndedAppend(three, committer);
    EndedAppend(two, author);
    EndedConcat([top], parents);
    OneEnded(top);
  }

  lemma EndedHead(commit: Stored)
    requires WellFormed(commit.headers)
    ensures CommitBody(commit) == Ended(HeadLines(commit)) + NEWLINE + commit.message
  {
    var top, author, committer := TREE + commit.tree, AUTHOR + commit.author, COMMITTER + commit.committer;
    EndedFive(top, ParentLines(commit.parents), author, committer, Kept(Lines(commit.headers)));
    SameText(TREE, commit.tree, Ended(ParentLines(commit.parents)), AUTHOR, commit.author, COMMITTER, commit.committer);
  }

  /** The head's text, read as pieces or as lines. */
  lemma SameText(a: Bytes, b: Bytes, c: Bytes, d: Bytes, e: Bytes, f: Bytes, g: Bytes)
    ensures (a + b) + NEWLINE + c + (d + e) + NEWLINE + (f + g) + NEWLINE
            == a + b + NEWLINE + c + d + e + NEWLINE + f + g + NEWLINE
  {
    var x, y := (a + b) + NEWLINE + c, (a + b) + NEWLINE + c + (d + e) + NEWLINE;
    assert x + (d + e) == x + d + e;
    assert y + (f + g) == y + f + g;
  }

  lemma OneEnded(line: Bytes)
    ensures Ended([line]) == line + NEWLINE
  {
  }

  lemma EndedLines(lines: seq<Bytes>)
    requires lines != []
    ensures Ended(lines) == Join(lines) + NEWLINE
  {
    var last := lines[|lines| - 1];
    EndedIsJoined(lines[..|lines| - 1], last);
    EndedAppend(lines[..|lines| - 1], last);
    assert lines[..|lines| - 1] + [last] == lines;
  }

  lemma BodyIsLines(commit: Stored)
    requires Storable(commit)
    ensures CommitBody(commit) == Join(HeadLines(commit)) + BLANK + commit.message
  {
    EndedHead(commit);
    EndedLines(HeadLines(commit));
    BlankAfter(Join(HeadLines(commit)), commit.message);
  }

  lemma BlankAfter(head: Bytes, message: Bytes)
    ensures head + NEWLINE + NEWLINE + message == head + BLANK + message
  {
    assert NEWLINE + NEWLINE == BLANK;
    assert head + NEWLINE + NEWLINE == head + (NEWLINE + NEWLINE);
  }

  /** Parsing a commit's body gives back each field, byte for byte. */
  lemma ParseCommitUndoes(commit: Stored)
    requires Storable(commit)
    ensures ParseCommit(CommitBody(commit)) == commit
  {
    var lines, raw := HeadLines(commit), CommitBody(commit);
    var head := Join(lines);
    BodyIsLines(commit);
    HeadLinesAreLines(commit);
    HeadEnds(lines, commit.message);
    assert raw[..|head|] == head && raw[|head| + 2..] == commit.message;
    LinesJoined(lines);
    ReadHead(commit);
  }

  lemma HeadEnds(lines: seq<Bytes>, message: Bytes)
    requires NonBlank(lines) && NoNewlines(lines) && lines != []
    ensures FirstBlank(Join(lines) + BLANK + message, 0) == Some(|Join(lines)|)
  {
    var head := Join(lines);
    var raw := head + BLANK + message;
    NoBlankJoined(lines, 0);
    LastNotNewline(lines);
    assert BlankAt(raw, |head|);
    forall k: nat | k < |head| ensures !BlankAt(raw, k) {
      NoBlankJoined(lines, k);
      assert raw[k] == head[k];
      if k + 1 < |head| { assert raw[k + 1] == head[k + 1]; }
    }
  }

  lemma {:induction false} LastNotNewline(lines: seq<Bytes>)
    requires NonBlank(lines) && NoNewlines(lines) && lines != []
    ensures Join(lines) != "" && Join(lines)[|Join(lines)| - 1] != '\n'
  {
    if |lines| > 1 { LastNotNewline(lines[1..]); }
  }

  lemma ReadTree(tree: Bytes, commit: Stored)
    ensures ReadLines([TREE + tree], commit, false) == (commit.(tree := tree), false)
  {
    var line := TREE + tree;
    assert TREE <= line && line[|TREE|..] == tree;
    ReadOne(line, commit, false);
  }

  lemma ReadAuthor(author: Bytes, commit: Stored)
    ensures ReadLines([AUTHOR + author], commit, false) == (commit.(author := author), false)
  {
    var line := AUTHOR + author;
    assert AUTHOR <= line && line[0] == 'a' && line[|AUTHOR|..] == author;
    ReadOne(line, commit, false);
  }

  lemma ReadCommitter(committer: Bytes, commit: Stored)
    ensures ReadLines([COMMITTER + committer], commit, false) == (commit.(committer := committer), true)
  {
    var line := COMMITTER + committer;
    assert COMMITTER <= line && line[0] == 'c' && line[|COMMITTER|..] == committer;
    ReadOne(line, commit, false);
  }

  lemma ReadOne(line: Bytes, commit: Stored, after: bool)
    ensures ReadLines([line], commit, after) == ReadLine(line, commit, after)
  {
  }

  lemma ReadHead(commit: Stored)
    requires WellFormed(commit.headers)
    ensures ReadLines(HeadLines(commit), NOTHING.(message := commit.message), false) == (commit, true)
  {
    var top, author, committer := [TREE + commit.tree], [AUTHOR + commit.author], [COMMITTER + commit.committer];
    var parents, kept := ParentLines(commit.parents), Kept(Lines(commit.headers));
    var start := NOTHING.(message := commit.message);
    var c1 := start.(tree := commit.tree);
    var c2 := c1.(parents := commit.parents);
    var c3 := c2.(author := commit.author);
    var c4 := c3.(committer := commit.committer);
    ReadTree(commit.tree, start);
    ReadParents(commit.parents, c1);
    ReadAuthor(commit.author, c2);
    ReadCommitter(commit.committer, c3);
    ReadHeaders(kept, c4);
    assert c1.parents + commit.parents == commit.parents && c4.headers + Ended(kept) == commit.headers;
    ReadLinesAppend(top, parents, start, false);
    ReadLinesAppend(top + parents, author, start, false);
    ReadLinesAppend(top + parents + author, committer, start, false);
    ReadLinesAppend(top + parents + author + committer, kept, start, false);
  }

  /** `Commit::parse`, line by line. */
  method ReadCommit(raw: Bytes) returns (commit: Stored)
    ensures commit == ParseCommit(raw)
  {
    var at := FirstBlank(raw, 0);
    var head := if at.Some? then raw[..at.value] else raw;
    commit := NOTHING.(message := if at.Some? then raw[at.value + 2..] else "");
    var lines, after, next := Lines(head), false, 0;
    ghost var start := commit;
    while next < |lines|
      invariant 0 <= next <= |lines|
      invariant ReadLines(lines[..next], start, false) == (commit, after)
    {
      ReadLinesAppend(lines[..next], [lines[next]], start, false);
      assert lines[..next] + [lines[next]] == lines[..next + 1];
      var (read, then_) := ReadLine(lines[next], commit, after);
      commit, after := read, then_;
      next := next + 1;
    }
    assert lines[..next] == lines;
  }

  // ---- headers a rebuilt commit keeps ------------------------------------------

  predicate IsSignature(line: Bytes) {
    "gpgsig " <= line || "gpgsig-sha256 " <= line || "mergetag " <= line
  }

  /** Lines that are not a signature's; a continuation goes with the line it continues. */
  function UnsignedLines(lines: seq<Bytes>, keep: bool): seq<Bytes> {
    if lines == [] then []
    else
      var keeps := if " " <= lines[0] then keep else !IsSignature(lines[0]);
      (if keeps then [lines[0]] else []) + UnsignedLines(lines[1..], keeps)
  }

  lemma {:induction false} UnsignedAreLines(lines: seq<Bytes>, keep: bool)
    requires NonBlank(lines) && NoNewlines(lines)
    ensures NonBlank(UnsignedLines(lines, keep)) && NoNewlines(UnsignedLines(lines, keep))
  {
    if lines != [] {
      UnsignedAreLines(lines[1..], if " " <= lines[0] then keep else !IsSignature(lines[0]));
    }
  }

  /** What remains of `headers` without signatures, which a commit made anew cannot have. */
  function UnsignedHeaders(headers: Bytes): Bytes {
    Ended(UnsignedLines(Kept(Lines(headers)), true))
  }

  /** The line that names an encoding, or nothing. */
  function EncodingLine(lines: seq<Bytes>): Bytes {
    if lines == [] then ""
    else if "encoding " <= lines[0] then lines[0] + NEWLINE
    else EncodingLine(lines[1..])
  }

  function EncodingHeader(headers: Bytes): Bytes { EncodingLine(Kept(Lines(headers))) }

  /** A signature starts at line `start`, and all lines from there to `i` continue it. */
  ghost predicate SignsTo(lines: seq<Bytes>, start: nat, i: nat) {
    && start <= i < |lines|
    && ("gpgsig " <= lines[start] || "gpgsig-sha256 " <= lines[start] || "mergetag " <= lines[start])
    && forall k | start < k <= i :: " " <= lines[k]
  }

  ghost predicate IsSigned(lines: seq<Bytes>, i: nat) { exists start: nat :: SignsTo(lines, start, i) }

  lemma NoContinuation(line: Bytes)
    requires IsSignature(line)
    ensures !(" " <= line)
  {
    assert "gpgsig "[0] == 'g' && "gpgsig-sha256 "[0] == 'g' && "mergetag "[0] == 'm';
  }

  lemma SignedNext(lines: seq<Bytes>, line: Bytes)
    ensures IsSigned(lines + [line], |lines|) <==>
              if " " <= line then lines != [] && IsSigned(lines, |lines| - 1) else IsSignature(line)
  {
    var more := lines + [line];
    assert more[|lines|] == line && forall k | 0 <= k < |lines| :: more[k] == lines[k];
    if IsSigned(more, |lines|) {
      var start: nat :| SignsTo(more, start, |lines|);
      NoContinuation(more[start]);
      if start < |lines| {
        assert " " <= more[|lines|];
        assert SignsTo(lines, start, |lines| - 1);
      }
    }
    if " " <= line && lines != [] && IsSigned(lines, |lines| - 1) {
      var start: nat :| SignsTo(lines, start, |lines| - 1);
      assert SignsTo(more, start, |lines|);
    }
    if !(" " <= line) && IsSignature(line) { assert SignsTo(more, |lines|, |lines|); }
  }

  /** Whether the line after these would be kept as a continuation. */
  ghost predicate KeepsOn(lines: seq<Bytes>, keep: bool) {
    if lines == [] then keep else if " " <= lines[|lines| - 1] then KeepsOn(lines[..|lines| - 1], keep)
    else !IsSignature(lines[|lines| - 1])
  }

  lemma {:induction false} KeepsUnlessSigned(lines: seq<Bytes>)
    ensures KeepsOn(lines, true) <==> lines == [] || !IsSigned(lines, |lines| - 1)
    decreases |lines|
  {
    if lines != [] {
      var before, last := lines[..|lines| - 1], lines[|lines| - 1];
      assert lines == before + [last];
      SignedNext(before, last);
      KeepsUnlessSigned(before);
    }
  }

  lemma {:induction false} UnsignedAppend(lines: seq<Bytes>, line: Bytes, keep: bool)
    ensures var keeps := if " " <= line then KeepsOn(lines, keep) else !IsSignature(line);
            UnsignedLines(lines + [line], keep) == UnsignedLines(lines, keep) + if keeps then [line] else []
    decreases |lines|
  {
    var more := lines + [line];
    if lines == [] {
      assert more == [line] && [line][1..] == [];
    } else {
      assert more[0] == lines[0] && more[1..] == lines[1..] + [line];
      var next := if " " <= lines[0] then keep else !IsSignature(lines[0]);
      UnsignedAppend(lines[1..], line, next);
      KeepsLater(lines, keep, next);
    }
  }

  lemma {:induction false} KeepsLater(lines: seq<Bytes>, keep: bool, next: bool)
    requires lines != [] && next == if " " <= lines[0] then keep else !IsSignature(lines[0])
    ensures KeepsOn(lines, keep) == KeepsOn(lines[1..], next)
    decreases |lines|
  {
    if |lines| > 1 {
      var before := lines[..|lines| - 1];
      assert before[1..] == lines[1..][..|lines| - 2];
      assert lines[1..][|lines| - 2] == lines[|lines| - 1];
      KeepsLater(before, keep, next);
    }
  }

  /** Of a commit's headers, in their order, exactly the lines that are no signature's remain. */
  lemma UnsignedNext(lines: seq<Bytes>, line: Bytes)
    ensures UnsignedLines(lines + [line], true)
            == UnsignedLines(lines, true) + if IsSigned(lines + [line], |lines|) then [] else [line]
  {
    UnsignedAppend(lines, line, true);
    SignedNext(lines, line);
    KeepsUnlessSigned(lines);
  }

  /** The encoding kept is the first line that names one. */
  lemma {:induction false} EncodingIs(lines: seq<Bytes>, i: nat)
    requires i <= |lines| && forall k | 0 <= k < i :: !("encoding " <= lines[k])
    requires i < |lines| ==> "encoding " <= lines[i]
    ensures EncodingLine(lines) == if i == |lines| then "" else lines[i] + "\n"
    decreases |lines|
  {
    if i > 0 { EncodingIs(lines[1..], i - 1); }
  }

  /** A commit as Git lays it out. */
  lemma BodyLaidOut(tree: Bytes, parent: Bytes, author: Bytes, committer: Bytes, headers: Bytes, message: Bytes)
    ensures CommitBody(Stored(tree, [parent], author, committer, headers, message))
            == "tree " + tree + "\nparent " + parent + "\nauthor " + author + "\ncommitter " + committer + "\n"
               + headers + "\n" + message
  {
    assert ParentLines([parent]) == ["parent " + parent];
    assert ["parent " + parent][1..] == [];
    assert Ended(["parent " + parent]) == "parent " + parent + "\n";
    assert "\n" + "parent " == "\nparent " && "\n" + "author " == "\nauthor " && "\n" + "committer " == "\ncommitter ";
  }
}
