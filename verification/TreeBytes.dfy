/** Trees as the very bytes that Git hashes. */
module TreeBytes {
  // Trees as the bytes Git hashes: entries in one order, each ended by its id.

  import opened Wrappers
  import opened Objects
  import opened Order
  import opened Sequences

  const TREE_MODE := "40000"
  const ID_LENGTH := 20
  const NUL := '\0'

  /** An entry as it is stored, its id in bytes. */
  datatype Stored = Stored(mode: Bytes, name: Bytes, id: Bytes)

  /** What can be told apart in bytes: no space in a mode, no NUL in either, ids of one length. */
  ghost predicate Readable(entry: Stored) {
    ' ' !in entry.mode && NUL !in entry.mode && NUL !in entry.name && |entry.id| == ID_LENGTH
  }

  /** What Git stores: no slash in a name either. */
  ghost predicate WellFormed(entry: Stored) { Readable(entry) && '/' !in entry.name }

  /** What entries are ordered by: a directory's name counts with a slash after it. */
  function SortKey(entry: Stored): Bytes { if entry.mode == TREE_MODE then entry.name + "/" else entry.name }

  predicate Follows(left: Stored, right: Stored) { AtMost(SortKey(left), SortKey(right)) }

  // ---- the bytes --------------------------------------------------------------------------------

  function EncodedOne(entry: Stored): Bytes { entry.mode + " " + entry.name + [NUL] + entry.id }

  function Encoded(entries: seq<Stored>): Bytes {
    if entries == [] then "" else EncodedOne(entries[0]) + Encoded(entries[1..])
  }

  function FirstOf(bytes: Bytes, byte: char): (at: Option<nat>)
    ensures at.Some? ==> at.value < |bytes| && bytes[at.value] == byte && byte !in bytes[..at.value]
    ensures at.None? ==> byte !in bytes
  {
    if bytes == [] then None
    else if bytes[0] == byte then Some(0)
    else
      var rest := FirstOf(bytes[1..], byte);
      assert bytes == [bytes[0]] + bytes[1..];
      if rest.None? then None
      else
        assert bytes[..rest.value + 1] == [bytes[0]] + bytes[1..][..rest.value];
        Some(rest.value + 1)
  }

  /** What reading one entry comes to: an entry and what follows it, bytes that stop short, or a panic. */
  datatype Reading = Found(entry: Stored, rest: Bytes) | CutShort | Panics

  /** The reader slices a name from after the space to the NUL, and panics where the NUL comes first. */
  function ParseOne(bytes: Bytes): (reading: Reading)
    ensures reading.Found? ==> |reading.rest| < |bytes|
  {
    var space, nul := FirstOf(bytes, ' '), FirstOf(bytes, NUL);
    if space.None? || nul.None? || nul.value + ID_LENGTH + 1 > |bytes| then CutShort
    else if space.value + 1 > nul.value then Panics
    else
      Found(Stored(bytes[..space.value], bytes[space.value + 1..nul.value],
                   bytes[nul.value + 1..nul.value + 1 + ID_LENGTH]),
            bytes[nul.value + 1 + ID_LENGTH..])
  }

  /** A tree's entries, as far as its bytes go; an error where reading them panics. */
  function Parsed(bytes: Bytes): Result<seq<Stored>>
    decreases |bytes|
  {
    var first := ParseOne(bytes);
    match first
    case CutShort => Ok([])
    case Panics => Err
    case Found(entry, rest) =>
      var more :- Parsed(rest);
      Ok([entry] + more)
  }

  lemma {:induction false} FirstIs(before: Bytes, byte: char, after: Bytes)
    requires byte !in before
    ensures FirstOf(before + [byte] + after, byte) == Some(|before|)
    decreases |before|
  {
    var bytes := before + [byte] + after;
    if before != [] {
      assert bytes[1..] == before[1..] + [byte] + after;
      assert bytes[0] == before[0] && bytes[0] in before;
      FirstIs(before[1..], byte, after);
    }
  }

  lemma OneParses(entry: Stored, rest: Bytes)
    requires Readable(entry)
    ensures ParseOne(EncodedOne(entry) + rest) == Found(entry, rest)
  {
    var bytes := EncodedOne(entry) + rest;
    assert bytes == entry.mode + [' '] + (entry.name + [NUL] + entry.id + rest);
    FirstIs(entry.mode, ' ', entry.name + [NUL] + entry.id + rest);
    assert bytes == (entry.mode + [' '] + entry.name) + [NUL] + (entry.id + rest);
    FirstIs(entry.mode + [' '] + entry.name, NUL, entry.id + rest);
    assert bytes[..|entry.mode|] == entry.mode;
    assert bytes[|entry.mode| + 1..|entry.mode| + 1 + |entry.name|] == entry.name;
    var nul := |entry.mode| + 1 + |entry.name|;
    assert bytes[nul + 1..] == entry.id + rest;
    assert bytes[nul + 1..nul + 1 + ID_LENGTH] == entry.id;
    assert bytes[nul + 1 + ID_LENGTH..] == rest;
  }

  /** What is found is what the bytes begin with. */
  lemma FoundIsThere(bytes: Bytes)
    requires ParseOne(bytes).Found?
    ensures Readable(ParseOne(bytes).entry) && bytes == EncodedOne(ParseOne(bytes).entry) + ParseOne(bytes).rest
  {
    var space, nul := FirstOf(bytes, ' ').value, FirstOf(bytes, NUL).value;
    var entry := ParseOne(bytes).entry;
    forall k | 0 <= k < |entry.mode| ensures entry.mode[k] != NUL { assert bytes[..nul][k] != NUL; }
    forall k | 0 <= k < |entry.name| ensures entry.name[k] != NUL { assert bytes[..nul][space + 1 + k] != NUL; }
    assert bytes[space] == ' ' && bytes[nul] == NUL;
    CutAt(bytes, space, nul, nul + 1 + ID_LENGTH);
  }

  /** Bytes are their pieces around a space and a NUL. */
  lemma CutAt(bytes: Bytes, space: nat, nul: nat, end: nat)
    requires space < nul < end <= |bytes| && bytes[space] == ' ' && bytes[nul] == NUL
    ensures bytes == bytes[..space] + " " + bytes[space + 1..nul] + [NUL] + bytes[nul + 1..end] + bytes[end..]
  {
  }

  ghost predicate AllReadable(entries: seq<Stored>) {
    forall entry | entry in entries :: Readable(entry)
  }

  /** `body` is `entries`, and then bytes that reading stops at as `end` says. */
  ghost predicate EndsSo(body: Bytes, entries: seq<Stored>, rest: Bytes, end: Reading) {
    AllReadable(entries) && body == Encoded(entries) + rest && ParseOne(rest) == end && !end.Found?
  }

  lemma ParsedStep(body: Bytes, entry: Stored, tail: Bytes)
    requires ParseOne(body) == Found(entry, tail)
    ensures Parsed(body) == if Parsed(tail).Err? then Err else Ok([entry] + Parsed(tail).value)
  {
  }

  /** Past its first entry, bytes end as they did. */
  lemma EndsSoLater(body: Bytes, entries: seq<Stored>, rest: Bytes, end: Reading)
    requires EndsSo(body, entries, rest, end) && entries != []
    ensures var tail := Encoded(entries[1..]) + rest;
            EndsSo(tail, entries[1..], rest, end) && ParseOne(body) == Found(entries[0], tail)
  {
    var tail := Encoded(entries[1..]) + rest;
    assert entries[0] in entries;
    assert body == EncodedOne(entries[0]) + tail;
    OneParses(entries[0], tail);
  }

  lemma {:induction false} EndsOneWay(body: Bytes, entries: seq<Stored>, rest: Bytes, end: Reading)
    requires EndsSo(body, entries, rest, end)
    ensures Parsed(body) == if end.Panics? then Err else Ok(entries)
    decreases |entries|
  {
    if entries == [] {
      assert body == rest;
    } else {
      var tail := Encoded(entries[1..]) + rest;
      EndsSoLater(body, entries, rest, end);
      EndsOneWay(tail, entries[1..], rest, end);
      ParsedStep(body, entries[0], tail);
      assert entries == [entries[0]] + entries[1..];
    }
  }

  lemma {:induction false} EndsSomeWay(body: Bytes) returns (entries: seq<Stored>, rest: Bytes, end: Reading)
    ensures EndsSo(body, entries, rest, end)
    decreases |body|
  {
    var first := ParseOne(body);
    if first.Found? {
      FoundIsThere(body);
      entries, rest, end := EndsSomeWay(first.rest);
      assert ([first.entry] + entries)[1..] == entries;
      assert EncodedOne(first.entry) + (Encoded(entries) + rest) == EncodedOne(first.entry) + Encoded(entries) + rest;
      entries := [first.entry] + entries;
    } else {
      entries, rest, end := [], body, first;
    }
  }

  /** Reading gives exactly the entries the bytes begin with, up to where they are cut short. */
  lemma ReadsExactly(body: Bytes, entries: seq<Stored>)
    ensures Parsed(body) == Ok(entries) <==> exists rest :: EndsSo(body, entries, rest, CutShort)
  {
    if rest :| EndsSo(body, entries, rest, CutShort) { EndsOneWay(body, entries, rest, CutShort); }
    var found, rest, end := EndsSomeWay(body);
    EndsOneWay(body, found, rest, end);
  }

  /**
   It panics if and only if, after some entries, a NUL comes before the first space
   with an id's worth of bytes after it.
   */
  lemma PanicsExactlyWhen(body: Bytes)
    ensures Parsed(body).Err? <==> exists entries, rest :: EndsSo(body, entries, rest, Panics)
    ensures ParseOne(body).Panics? <==>
              exists nul: nat, space: nat | nul < space < |body| ::
                && body[nul] == NUL && body[space] == ' ' && ' ' !in body[..space] && NUL !in body[..nul]
                && nul + 1 + ID_LENGTH <= |body|
  {
    if entries, rest :| EndsSo(body, entries, rest, Panics) { EndsOneWay(body, entries, rest, Panics); }
    var found, rest, end := EndsSomeWay(body);
    EndsOneWay(body, found, rest, end);
    PanicIs(body);
  }

  lemma PanicIs(body: Bytes)
    ensures ParseOne(body).Panics? <==>
              exists nul: nat, space: nat | nul < space < |body| ::
                && body[nul] == NUL && body[space] == ' ' && ' ' !in body[..space] && NUL !in body[..nul]
                && nul + 1 + ID_LENGTH <= |body|
  {
    if nul: nat, space: nat :| nul < space < |body| && body[nul] == NUL && body[space] == ' '
                               && ' ' !in body[..space] && NUL !in body[..nul] && nul + 1 + ID_LENGTH <= |body| {
      assert body == body[..nul] + [NUL] + body[nul + 1..];
      FirstIs(body[..nul], NUL, body[nul + 1..]);
      assert body == body[..space] + [' '] + body[space + 1..];
      FirstIs(body[..space], ' ', body[space + 1..]);
    }
    if ParseOne(body).Panics? {
      var space, nul := FirstOf(body, ' ').value, FirstOf(body, NUL).value;
      assert body[space] != body[nul];
    }
  }

  /** Reading a tree's bytes gives its entries back, as they were written. */
  lemma ParsedUndoes(entries: seq<Stored>)
    requires forall i | 0 <= i < |entries| :: WellFormed(entries[i])
    ensures Parsed(Encoded(entries)) == Ok(entries)
  {
    assert Encoded(entries) + "" == Encoded(entries);
    EndsOneWay(Encoded(entries), entries, "", CutShort);
  }

  // ---- the order --------------------------------------------------------------------------------

  /** Put after what it does not come before: entries that tie keep their order. */
  function Insert(entry: Stored, sorted: seq<Stored>): seq<Stored> {
    if sorted == [] || !Follows(sorted[0], entry) then [entry] + sorted else [sorted[0]] + Insert(entry, sorted[1..])
  }

  function Canonical(entries: seq<Stored>): seq<Stored> {
    if entries == [] then [] else Insert(entries[|entries| - 1], Canonical(entries[..|entries| - 1]))
  }

  ghost predicate Ordered(entries: seq<Stored>) {
    forall i, j | 0 <= i < j < |entries| :: Follows(entries[i], entries[j])
  }

  ghost predicate OneEach(entries: seq<Stored>) {
    forall i, j | 0 <= i < j < |entries| :: entries[i].name != entries[j].name
  }

  lemma {:induction false} InsertIs(entry: Stored, sorted: seq<Stored>)
    requires Ordered(sorted)
    ensures Ordered(Insert(entry, sorted)) && multiset(Insert(entry, sorted)) == multiset(sorted) + multiset{entry}
    decreases |sorted|
  {
    if sorted == [] {
    } else if !Follows(sorted[0], entry) {
      AtMostTotal(SortKey(sorted[0]), SortKey(entry));
      forall i | 0 <= i < |sorted| ensures Follows(entry, sorted[i]) {
        if i > 0 { AtMostTransitive(SortKey(entry), SortKey(sorted[0]), SortKey(sorted[i])); }
      }
    } else {
      assert sorted == [sorted[0]] + sorted[1..];
      InsertIs(entry, sorted[1..]);
      var rest := Insert(entry, sorted[1..]);
      forall i | 0 <= i < |rest| ensures Follows(sorted[0], rest[i]) {
        assert rest[i] in multiset(rest);
        if rest[i] != entry { assert rest[i] in sorted[1..]; }
      }
    }
  }

  lemma {:induction false} CanonicalIs(entries: seq<Stored>)
    ensures Ordered(Canonical(entries)) && multiset(Canonical(entries)) == multiset(entries)
    decreases |entries|
  {
    if entries != [] {
      var last := |entries| - 1;
      assert entries == entries[..last] + [entries[last]];
      CanonicalIs(entries[..last]);
      InsertIs(entries[last], Canonical(entries[..last]));
    }
  }

  lemma KeysDiffer(left: Stored, right: Stored)
    requires WellFormed(left) && WellFormed(right) && SortKey(left) == SortKey(right)
    ensures left.name == right.name
  {
    SlashEnds(left);
    SlashEnds(right);
  }

  lemma SlashEnds(entry: Stored)
    requires WellFormed(entry)
    ensures '/' in SortKey(entry) <==> entry.mode == TREE_MODE
    ensures entry.name == if entry.mode == TREE_MODE then SortKey(entry)[..|SortKey(entry)| - 1] else SortKey(entry)
  {
  }

  /** Whether entries with one name are one entry. */
  ghost predicate NamesDecide(entries: seq<Stored>) {
    forall one, other | one in entries && other in entries && one.name == other.name :: one == other
  }

  /** Two orders of the same entries, each name one entry's. */
  ghost predicate SameInOrder(left: seq<Stored>, right: seq<Stored>) {
    && Ordered(left) && Ordered(right) && multiset(left) == multiset(right)
    && NamesDecide(left) && forall entry | entry in left :: WellFormed(entry)
  }

  lemma RestSame(left: seq<Stored>, right: seq<Stored>)
    requires SameInOrder(left, right) && left != [] && right != []
    ensures left[0] == right[0] && SameInOrder(left[1..], right[1..])
  {
    FirstSame(left, right);
    FirstTaken(left);
    FirstTaken(right);
    assert forall entry | entry in left[1..] :: entry in left;
  }

  lemma {:induction false} OneOrder(left: seq<Stored>, right: seq<Stored>)
    requires SameInOrder(left, right)
    ensures left == right
    decreases |left|
  {
    assert |left| == |multiset(left)| == |multiset(right)| == |right|;
    if left != [] {
      RestSame(left, right);
      OneOrder(left[1..], right[1..]);
      assert left == [left[0]] + left[1..] && right == [right[0]] + right[1..];
    }
  }

  lemma FirstSame(left: seq<Stored>, right: seq<Stored>)
    requires Ordered(left) && Ordered(right) && multiset(left) == multiset(right) && left != [] && right != []
    requires NamesDecide(left) && forall entry | entry in left :: WellFormed(entry)
    ensures left[0] == right[0]
  {
    assert left[0] in multiset(right) && right[0] in multiset(left);
    var i :| 0 <= i < |right| && right[i] == left[0];
    var j :| 0 <= j < |left| && left[j] == right[0];
    AtMostTotal(SortKey(left[0]), SortKey(left[0]));
    AtMostTotal(SortKey(right[0]), SortKey(right[0]));
    assert Follows(left[0], right[0]) && Follows(right[0], left[0]);
    AtMostAntisymmetric(SortKey(left[0]), SortKey(right[0]));
    KeysDiffer(left[0], right[0]);
  }

  /** The same entries in any order are the same tree: the same order, so the same bytes. */
  lemma OrderDoesNotMatter(left: seq<Stored>, right: seq<Stored>)
    requires multiset(left) == multiset(right) && OneEach(left) && forall entry | entry in left :: WellFormed(entry)
    ensures Canonical(left) == Canonical(right) && Encoded(Canonical(left)) == Encoded(Canonical(right))
  {
    CanonicalIs(left);
    CanonicalIs(right);
    var one := Canonical(left);
    forall entry | entry in one ensures entry in left { assert entry in multiset(one); }
    forall a, b | a in one && b in one && a.name == b.name ensures a == b {
      assert a in left && b in left;
    }
    OneOrder(one, Canonical(right));
  }

  /** A name's bytes as Git compares them: a subtree's has a slash at its end, and past the end is before all. */
  function ByteAt(entry: Stored, k: nat): int {
    if k < |entry.name| then entry.name[k] as int
    else if k == |entry.name| && entry.mode == TREE_MODE then '/' as int
    else -1
  }

  /** Names alike up to `k` and no further, the first byte that differs decides, end of name or not. */
  lemma FirstByteDecides(left: Stored, right: Stored, k: nat)
    requires WellFormed(left) && WellFormed(right) && left.name != right.name
    requires k <= |left.name| && k <= |right.name| && left.name[..k] == right.name[..k]
    requires k < |left.name| && k < |right.name| ==> left.name[k] != right.name[k]
    ensures ByteAt(left, k) != ByteAt(right, k)
    ensures Follows(left, right) <==> ByteAt(left, k) < ByteAt(right, k)
  {
    var l, r := SortKey(left), SortKey(right);
    assert left.name[..|left.name|] == left.name && right.name[..|right.name|] == right.name;
    assert l[..k] == left.name[..k] == right.name[..k] == r[..k];
    FirstDifference(l, r, k);
  }

  /** So a subtree `a` comes after the file `a.txt`, where the one name alone would come before the other. */
  lemma SubtreeAfterDot(tree: Stored, file: Stored, rest: Bytes)
    requires WellFormed(tree) && WellFormed(file) && tree.mode == TREE_MODE && file.mode != TREE_MODE
    requires file.name == tree.name + "." + rest
    ensures Follows(file, tree) && !Follows(tree, file)
  {
    FirstByteDecides(file, tree, |tree.name|);
    FirstByteDecides(tree, file, |tree.name|);
  }

  // ---- making and reading one -------------------------------------------------------------------

  method Sort(entries: seq<Stored>) returns (sorted: seq<Stored>)
    ensures sorted == Canonical(entries)
  {
    sorted := [];
    var i := 0;
    while i < |entries|
      invariant 0 <= i <= |entries| && sorted == Canonical(entries[..i])
    {
      assert entries[..i + 1][..i] == entries[..i];
      sorted := Insert(entries[i], sorted);
      i := i + 1;
    }
    assert entries[..i] == entries;
  }

  lemma {:induction false} EncodedAppend(entries: seq<Stored>, last: Stored)
    ensures Encoded(entries + [last]) == Encoded(entries) + EncodedOne(last)
    decreases |entries|
  {
    if entries == [] {
      assert [last][1..] == [];
      assert entries + [last] == [last];
      assert Encoded([last]) == EncodedOne(last) + Encoded([]);
    } else {
      EncodedAppend(entries[1..], last);
      assert (entries + [last])[1..] == entries[1..] + [last];
      assert EncodedOne(entries[0]) + (Encoded(entries[1..]) + EncodedOne(last))
               == EncodedOne(entries[0]) + Encoded(entries[1..]) + EncodedOne(last);
    }
  }

  lemma EncodedNext(entries: seq<Stored>, i: nat, body: Bytes, more: Bytes)
    requires i < |entries| && body == Encoded(entries[..i]) && more == body + EncodedOne(entries[i])
    ensures more == Encoded(entries[..i + 1])
  {
    EncodedAppend(entries[..i], entries[i]);
    assert entries[..i + 1] == entries[..i] + [entries[i]];
  }

  method Encode(entries: seq<Stored>) returns (body: Bytes)
    ensures body == Encoded(entries)
  {
    body := "";
    var i := 0;
    while i < |entries|
      invariant 0 <= i <= |entries| && body == Encoded(entries[..i])
    {
      ghost var before := body;
      body := body + entries[i].mode;
      body := body + " ";
      body := body + entries[i].name;
      body := body + [NUL];
      body := body + entries[i].id;
      assert body == before + EncodedOne(entries[i]);
      EncodedNext(entries, i, before, body);
      i := i + 1;
    }
    assert entries[..i] == entries;
  }

  /** A tree of `entries`, in any order. */
  method MakeTree(entries: seq<Stored>) returns (body: Bytes)
    ensures body == Encoded(Canonical(entries))
  {
    var sorted := Sort(entries);
    body := Encode(sorted);
  }

  /** Reading a made tree gives its entries back in Git's order, whatever order they came in. */
  lemma MadeTreeReads(entries: seq<Stored>)
    requires forall entry | entry in entries :: WellFormed(entry)
    ensures Parsed(Encoded(Canonical(entries))) == Ok(Canonical(entries))
    ensures Ordered(Canonical(entries)) && multiset(Canonical(entries)) == multiset(entries)
  {
    CanonicalIs(entries);
    var sorted := Canonical(entries);
    forall i | 0 <= i < |sorted| ensures WellFormed(sorted[i]) { assert sorted[i] in multiset(sorted); }
    ParsedUndoes(sorted);
  }

  /** The entries read so far, and what the rest comes to. */
  function After(entries: seq<Stored>, rest: Result<seq<Stored>>): Result<seq<Stored>> {
    match rest
    case Err => Err
    case Ok(more) => Ok(entries + more)
  }

  lemma NothingRead(rest: Result<seq<Stored>>)
    ensures After([], rest) == rest
  {
    if rest.Ok? { assert [] + rest.value == rest.value; }
  }

  lemma ParsedNext(entries: seq<Stored>, rest: Bytes, entry: Stored, after: Bytes)
    requires ParseOne(rest) == Found(entry, after)
    ensures After(entries + [entry], Parsed(after)) == After(entries, Parsed(rest))
  {
    if Parsed(after).Ok? { Associate(entries, [entry], Parsed(after).value); }
  }

  /** A tree's entries off its bytes; an error where that panics. */
  method ReadTree(body: Bytes) returns (found: Result<seq<Stored>>)
    ensures found == Parsed(body)
  {
    var entries: seq<Stored>, rest := [], body;
    NothingRead(Parsed(body));
    while rest != ""
      invariant After(entries, Parsed(rest)) == Parsed(body)
      decreases |rest|
    {
      match ParseOne(rest)
      case CutShort => break;
      case Panics => return Err;
      case Found(entry, after) =>
        ParsedNext(entries, rest, entry, after);
        entries, rest := entries + [entry], after;
    }
    assert entries + [] == entries;
    found := Ok(entries);
  }
}
