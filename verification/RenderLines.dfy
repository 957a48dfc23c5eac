/** Telling rendered values apart by the lines they stand on. */
module RenderLines {
  // Which values in an edited file are the render's own: a value is matched with the
  // rendered text by what its whole line says, and where on it it stands.

  import opened Wrappers
  import opened Render
  import opened RenderInverse

  // ---- lines -------------------------------------------------------------------------

  function LineStart(content: string, at: nat): (start: nat)
    requires at <= |content|
    ensures start <= at && (start == 0 || content[start - 1] == '\n')
    ensures forall k | start <= k < at :: content[k] != '\n'
  {
    if at == 0 || content[at - 1] == '\n' then at else LineStart(content, at - 1)
  }

  function LineEnd(content: string, at: nat): (end: nat)
    requires at <= |content|
    ensures at <= end <= |content| && (end == |content| || content[end] == '\n')
    ensures forall k | at <= k < end :: content[k] != '\n'
    decreases |content| - at
  {
    if at == |content| || content[at] == '\n' then at else LineEnd(content, at + 1)
  }

  predicate IsLineStart(content: string, at: nat) {
    at <= |content| && (at == 0 || content[at - 1] == '\n')
  }

  function LineAt(content: string, start: nat): string
    requires start <= |content|
  {
    content[start..LineEnd(content, start)]
  }

  /** How a value is recognised in another text: `line` in full, and where on it the value begins. */
  datatype Place = Place(rule: nat, line: string, column: nat)

  function PlaceIn(content: string, hit: Hit): Place
    requires hit.start <= hit.end <= |content|
  {
    var start := LineStart(content, hit.start);
    Place(hit.rule, content[start..LineEnd(content, hit.end)], hit.start - start)
  }

  ghost predicate Within(content: string, hits: seq<Hit>) {
    forall i | 0 <= i < |hits| :: hits[i].start <= hits[i].end <= |content|
  }

  /** How many of `hits` stand at `place`. */
  function CountAt(content: string, hits: seq<Hit>, place: Place): nat
    requires forall i | 0 <= i < |hits| :: hits[i].start <= hits[i].end <= |content|
  {
    if hits == [] then 0
    else
      assert forall i | 0 <= i < |hits[1..]| :: hits[1..][i] == hits[i + 1];
      (if PlaceIn(content, hits[0]) == place then 1 else 0) + CountAt(content, hits[1..], place)
  }

  // ---- what is taken back ----------------------------------------------------------------

  /** Where the render wrote its values, in what it wrote. */
  function Spans(committed: string, rules: seq<Rule>): (spans: seq<Hit>)
    requires Substitute(committed, rules).Ok?
    ensures forall i | 0 <= i < |spans| ::
              spans[i].start <= spans[i].end <= |Substitute(committed, rules).value| && spans[i].rule < |rules|
  {
    var hits := Located(committed, Finds(rules));
    SubstituteHits(committed, rules);
    var edits := Edits(hits, Values(rules));
    UndoInOrder(committed, edits, 0, "");
    assert "" + Apply(committed, edits, 0) == Substitute(committed, rules).value;
    var undo := Undo(committed, edits, 0, 0);
    InOrderEnds(undo, 0, |Substitute(committed, rules).value|);
    Written(hits, undo)
  }

  lemma SubstituteHits(committed: string, rules: seq<Rule>)
    requires Substitute(committed, rules).Ok?
    ensures var hits := Located(committed, Finds(rules));
            (forall i | 0 <= i < |hits| :: hits[i].rule < |rules|)
              && InOrder(Edits(hits, Values(rules)), 0, |committed|)
  {
    LocatedIs(committed, Finds(rules));
    var hits := Located(committed, Finds(rules));
    assert forall i | 0 <= i < |hits| :: hits[i] in hits;
  }

  /** What a render wrote, and what of it stands in the file now. */
  datatype Sides = Sides(expected: string, spans: seq<Hit>, current: string, found: seq<Hit>) {
    ghost predicate Valid() { Within(expected, spans) && Within(current, found) }

    /** As many values stand at `place` now as the render wrote there. */
    ghost predicate Matched(place: Place)
      requires Valid()
    {
      CountAt(expected, spans, place) > 0 && CountAt(current, found, place) == CountAt(expected, spans, place)
    }

    /** Some value the render wrote for `rule` is not where it was written. */
    ghost predicate Missing(rule: nat)
      requires Valid()
    {
      exists i | 0 <= i < |spans| :: spans[i].rule == rule && !Matched(PlaceIn(expected, spans[i]))
    }

    /** Whether the `i`-th value found is taken back. */
    ghost predicate TakenBack(rules: seq<Rule>, i: nat)
      requires Valid() && i < |found| && found[i].rule < |rules|
    {
      || Matched(PlaceIn(current, found[i]))
      || (Missing(found[i].rule) && CountRule(found, found[i].rule) == rules[found[i].rule].count)
    }

    /** A rule with a value left in place because nothing told it apart. */
    ghost predicate Unplaced(rules: seq<Rule>, rule: nat)
      requires Valid() && forall i | 0 <= i < |found| :: found[i].rule < |rules|
    {
      && rule < |rules| && Missing(rule) && CountRule(found, rule) != rules[rule].count
      && exists i | 0 <= i < |found| :: found[i].rule == rule && !TakenBack(rules, i)
    }
  }

  // ---- an edited file -----------------------------------------------------------------------

  predicate NewlineFree(text: string) { '\n' !in text }

  /** Where lines reading `line` start. */
  ghost function StartsOfLine(content: string, line: string): set<nat> {
    set at | 0 <= at <= |content| && IsLineStart(content, at) && LineAt(content, at) == line
  }

  /** Some value was written on a line reading `line`. */
  ghost predicate RenderedLine(expected: string, spans: seq<Hit>, line: string)
    requires Within(expected, spans)
  {
    exists i | 0 <= i < |spans| :: PlaceIn(expected, spans[i]).line == line
  }

  /**
   Lines the render wrote are all there, as often as it wrote them; any other
   line may have been added, removed or changed.
   */
  ghost predicate RenderedLinesKept(expected: string, spans: seq<Hit>, current: string)
    requires Within(expected, spans)
  {
    forall line | RenderedLine(expected, spans, line) ::
      |StartsOfLine(current, line)| == |StartsOfLine(expected, line)|
  }

  lemma NoNewlineTo(content: string, hit: Hit, value: string)
    requires MatchAt(content, value, hit.start) && hit.end == hit.start + |value| && NewlineFree(value)
    ensures forall k | LineStart(content, hit.start) <= k < hit.end :: content[k] != '\n'
  {
    forall k | hit.start <= k < hit.end ensures content[k] != '\n' {
      assert content[k] == value[k - hit.start];
    }
  }

  /** A newline-free match stands on one line, at its column. */
  lemma MatchOnLine(content: string, hit: Hit, value: string)
    requires MatchAt(content, value, hit.start) && hit.end == hit.start + |value| && NewlineFree(value)
    ensures var place, start := PlaceIn(content, hit), hit.start - PlaceIn(content, hit).column;
            && place.column <= hit.start && IsLineStart(content, start) && LineAt(content, start) == place.line
            && MatchAt(place.line, value, place.column)
  {
    var start := LineStart(content, hit.start);
    NoNewlineTo(content, hit, value);
    SameLineEnd(content, start, hit.end);
    var end := LineEnd(content, hit.end);
    SliceOfSlice(content, start, end, hit.start - start, hit.end - start);
  }

  lemma {:induction false} SameLineEnd(content: string, start: nat, end: nat)
    requires start <= end <= |content| && forall k | start <= k < end :: content[k] != '\n'
    ensures LineEnd(content, start) == LineEnd(content, end)
    decreases end - start
  {
    if start < end { SameLineEnd(content, start + 1, end); }
  }

  lemma {:induction false} SameLineStart(content: string, start: nat, at: nat)
    requires start <= at <= |content| && IsLineStart(content, start) && forall k | start <= k < at :: content[k] != '\n'
    ensures LineStart(content, at) == start
    decreases at - start
  {
    if start < at { SameLineStart(content, start, at - 1); }
  }

  lemma SliceOfSlice(content: string, start: nat, end: nat, low: nat, high: nat)
    requires start <= end <= |content| && low <= high <= end - start
    ensures content[start..end][low..high] == content[start + low..start + high]
  {
    forall k | low <= k < high ensures content[start..end][k] == content[start + k] {
    }
  }

  /** A value in a line stands in the content wherever that line does. */
  lemma LineHolds(content: string, start: nat, value: string, column: nat, rule: nat)
    requires IsLineStart(content, start) && MatchAt(LineAt(content, start), value, column)
    ensures var hit := Hit(start + column, start + column + |value|, rule);
            && MatchAt(content, value, hit.start)
            && PlaceIn(content, hit) == Place(rule, LineAt(content, start), column)
  {
    MatchInLine(content, start, value, column);
    OnOneLine(content, start, start + column, start + column + |value|);
  }

  lemma MatchInLine(content: string, start: nat, value: string, column: nat)
    requires IsLineStart(content, start) && MatchAt(LineAt(content, start), value, column)
    ensures MatchAt(content, value, start + column) && start + column + |value| <= LineEnd(content, start)
  {
    SliceOfSlice(content, start, LineEnd(content, start), column, column + |value|);
  }

  lemma OnOneLine(content: string, start: nat, from: nat, to: nat)
    requires IsLineStart(content, start) && start <= from <= to <= LineEnd(content, start)
    ensures LineStart(content, from) == start && LineEnd(content, to) == LineEnd(content, start)
  {
    SameLineStart(content, start, from);
    SameLineEnd(content, start, to);
  }

  /** The starts of the hits at `place`. */
  function StartsAt(content: string, hits: seq<Hit>, place: Place): (starts: seq<nat>)
    requires forall i | 0 <= i < |hits| :: hits[i].start <= hits[i].end <= |content|
    ensures |starts| == CountAt(content, hits, place)
  {
    if hits == [] then []
    else
      assert forall i | 0 <= i < |hits[1..]| :: hits[1..][i] == hits[i + 1];
      (if PlaceIn(content, hits[0]) == place then [hits[0].start] else []) + StartsAt(content, hits[1..], place)
  }

  lemma {:induction false} StartsAtMembers(content: string, hits: seq<Hit>, place: Place, start: nat)
    requires Within(content, hits)
    ensures start in StartsAt(content, hits, place) <==>
              exists i | 0 <= i < |hits| :: PlaceIn(content, hits[i]) == place && hits[i].start == start
    decreases |hits|
  {
    if hits != [] {
      var rest := hits[1..];
      assert forall i | 0 <= i < |rest| :: rest[i] == hits[i + 1];
      StartsAtMembers(content, rest, place, start);
      if i :| 0 < i < |hits| && PlaceIn(content, hits[i]) == place && hits[i].start == start {
        assert rest[i - 1] == hits[i];
      }
    }
  }

  lemma {:induction false} StartsAtDiffer(content: string, hits: seq<Hit>, place: Place)
    requires Within(content, hits) && OneStartEach(hits)
    ensures NoRepeats(StartsAt(content, hits, place))
    decreases |hits|
  {
    if hits != [] {
      var rest := hits[1..];
      assert forall i | 0 <= i < |rest| :: rest[i] == hits[i + 1];
      StartsAtDiffer(content, rest, place);
      if PlaceIn(content, hits[0]) == place {
        var starts := StartsAt(content, rest, place);
        forall k | 0 <= k < |starts| ensures starts[k] != hits[0].start {
          StartsAtMembers(content, rest, place, starts[k]);
          var i :| 0 <= i < |rest| && PlaceIn(content, rest[i]) == place && rest[i].start == starts[k];
          assert hits[i + 1].rule == hits[0].rule;
        }
      }
    }
  }

  /** No rule has two hits at one start. */
  ghost predicate OneStartEach(hits: seq<Hit>) {
    forall i, j | 0 <= i < j < |hits| && hits[i].rule == hits[j].rule :: hits[i].start != hits[j].start
  }

  predicate IsValueAt(content: string, values: seq<string>, hit: Hit) {
    && hit.rule < |values| && MatchAt(content, values[hit.rule], hit.start)
    && hit.end == hit.start + |values[hit.rule]|
  }

  ghost predicate Sound(content: string, values: seq<string>, hits: seq<Hit>) {
    forall i | 0 <= i < |hits| :: IsValueAt(content, values, hits[i])
  }

  ghost predicate Complete(content: string, values: seq<string>, hits: seq<Hit>) {
    forall hit | IsValueAt(content, values, hit) :: hit in hits
  }

  /** `hits` are the places where some value stands, all of them, each once. */
  ghost predicate AllFound(content: string, values: seq<string>, hits: seq<Hit>) {
    Sound(content, values, hits) && Complete(content, values, hits) && OneStartEach(hits)
  }

  /** Values that cannot overlap themselves are located wherever they stand. */
  lemma LocatedFindsAll(content: string, rules: seq<Rule>)
    requires Invertible(rules)
    ensures AllFound(content, Values(rules), Located(content, Values(rules)))
    ensures Within(content, Located(content, Values(rules)))
  {
    var values := Values(rules);
    var hits := Located(content, values);
    LocatedIs(content, values);
    forall i | 0 <= i < |hits| ensures IsValueAt(content, values, hits[i]) {
      assert hits[i] in hits;
      GreedyMatches(content, values[hits[i].rule], 0);
    }
    forall hit | IsValueAt(content, values, hit) ensures hit in hits {
      UnborderedFindsAll(content, values[hit.rule], hit.start);
    }
    forall i, j | 0 <= i < j < |hits| && hits[i].rule == hits[j].rule ensures hits[i].start != hits[j].start {
      assert Before(hits[i], hits[j]);
    }
  }

  lemma HitOnLine(content: string, hit: Hit, value: string, place: Place)
    requires MatchAt(content, value, hit.start) && hit.end == hit.start + |value| && NewlineFree(value)
    requires PlaceIn(content, hit) == place
    ensures MatchAt(place.line, value, place.column)
    ensures place.column <= hit.start && hit.start - place.column in StartsOfLine(content, place.line)
  {
    MatchOnLine(content, hit, value);
  }

  lemma SomeStart(content: string, hits: seq<Hit>, place: Place, start: nat) returns (i: nat)
    requires Within(content, hits) && start in StartsAt(content, hits, place)
    ensures i < |hits| && PlaceIn(content, hits[i]) == place && hits[i].start == start && hits[i].rule == place.rule
  {
    StartsAtMembers(content, hits, place, start);
    i :| 0 <= i < |hits| && PlaceIn(content, hits[i]) == place && hits[i].start == start;
  }

  /** The hits of one rule are where `value` stands, all of them. */
  ghost predicate FoundSound(content: string, value: string, hits: seq<Hit>, rule: nat) {
    forall i | 0 <= i < |hits| && hits[i].rule == rule ::
      MatchAt(content, value, hits[i].start) && hits[i].end == hits[i].start + |value|
  }

  ghost predicate FoundComplete(content: string, value: string, hits: seq<Hit>, rule: nat) {
    forall at: nat | MatchAt(content, value, at) :: Hit(at, at + |value|, rule) in hits
  }

  lemma PlacedOnLine(content: string, value: string, hits: seq<Hit>, place: Place, start: nat)
    requires Within(content, hits) && start in StartsAt(content, hits, place) && NewlineFree(value)
    requires FoundSound(content, value, hits, place.rule)
    ensures MatchAt(place.line, value, place.column)
    ensures place.column <= start && start - place.column in StartsOfLine(content, place.line)
  {
    var i := SomeStart(content, hits, place, start);
    HitOnLine(content, hits[i], value, place);
  }

  lemma LineIsPlaced(content: string, value: string, hits: seq<Hit>, place: Place, line: nat, start: nat)
    requires Within(content, hits) && MatchAt(place.line, value, place.column)
    requires FoundComplete(content, value, hits, place.rule)
    requires line in StartsOfLine(content, place.line) && start == line + place.column
    ensures start in StartsAt(content, hits, place)
  {
    LineHolds(content, line, value, place.column, place.rule);
    var hit := Hit(start, start + |value|, place.rule);
    var i := PlaceOfHit(hits, hit);
    StartCounted(content, hits, place, i);
  }

  lemma PlaceOfHit(hits: seq<Hit>, hit: Hit) returns (i: nat)
    requires hit in hits
    ensures i < |hits| && hits[i] == hit
  {
    i :| 0 <= i < |hits| && hits[i] == hit;
  }

  lemma StartCounted(content: string, hits: seq<Hit>, place: Place, i: nat)
    requires Within(content, hits) && i < |hits| && PlaceIn(content, hits[i]) == place
    ensures hits[i].start in StartsAt(content, hits, place)
  {
    StartsAtMembers(content, hits, place, hits[i].start);
  }

  function Moved(items: set<nat>, column: nat): set<nat> { set item | item in items :: item + column }

  lemma {:induction false} MovedAreAsMany(items: set<nat>, column: nat)
    ensures |Moved(items, column)| == |items|
  {
    if item :| item in items {
      var rest := items - {item};
      MovedAreAsMany(rest, column);
      OneMoreMoved(rest, item, column);
      assert items == rest + {item};
    }
  }

  lemma OneMoreMoved(rest: set<nat>, item: nat, column: nat)
    requires item !in rest
    ensures Moved(rest + {item}, column) == Moved(rest, column) + {item + column}
            && item + column !in Moved(rest, column)
  {
    forall moved: nat
      ensures moved in Moved(rest + {item}, column) <==> moved in Moved(rest, column) + {item + column}
    {
      if moved == item + column { assert item in rest + {item}; }
      if other :| other in rest && moved == other + column { assert other in rest + {item}; }
    }
  }

  lemma StartIsLine(content: string, value: string, hits: seq<Hit>, place: Place, start: nat)
    requires Within(content, hits) && NewlineFree(value) && FoundSound(content, value, hits, place.rule)
    requires start in StartsAt(content, hits, place)
    ensures start in Moved(StartsOfLine(content, place.line), place.column)
  {
    PlacedOnLine(content, value, hits, place, start);
    IsMoved(StartsOfLine(content, place.line), start - place.column, place.column);
  }

  lemma IsMoved(items: set<nat>, item: nat, column: nat)
    requires item in items
    ensures item + column in Moved(items, column)
  {
  }

  lemma MovedFrom(items: set<nat>, column: nat, moved: nat) returns (item: nat)
    requires moved in Moved(items, column)
    ensures item in items && moved == item + column
  {
    item :| item in items && moved == item + column;
  }

  lemma LineIsStart(content: string, value: string, hits: seq<Hit>, place: Place, moved: nat)
    requires Within(content, hits) && MatchAt(place.line, value, place.column)
    requires FoundComplete(content, value, hits, place.rule)
    requires moved in Moved(StartsOfLine(content, place.line), place.column)
    ensures moved in StartsAt(content, hits, place)
  {
    var line := MovedFrom(StartsOfLine(content, place.line), place.column, moved);
    LineIsPlaced(content, value, hits, place, line, moved);
  }

  /** Every start is some line's, moved on by the column. */
  lemma StartsAreLines(content: string, value: string, hits: seq<Hit>, place: Place, starts: seq<nat>)
    requires Within(content, hits) && NewlineFree(value) && FoundSound(content, value, hits, place.rule)
    requires starts == StartsAt(content, hits, place)
    ensures SetOf(starts) <= Moved(StartsOfLine(content, place.line), place.column)
  {
    forall start: nat | start in starts ensures start in Moved(StartsOfLine(content, place.line), place.column) {
      StartIsLine(content, value, hits, place, start);
    }
  }

  /** Every line, moved on by the column, is a start. */
  lemma LinesAreStarts(content: string, value: string, hits: seq<Hit>, place: Place, starts: seq<nat>)
    requires Within(content, hits) && starts == StartsAt(content, hits, place)
    requires MatchAt(place.line, value, place.column) && FoundComplete(content, value, hits, place.rule)
    ensures Moved(StartsOfLine(content, place.line), place.column) <= SetOf(starts)
  {
    forall moved: nat | moved in Moved(StartsOfLine(content, place.line), place.column) ensures moved in starts {
      LineIsStart(content, value, hits, place, moved);
    }
  }

  lemma AsMany(starts: seq<nat>, lines: set<nat>, column: nat)
    requires NoRepeats(starts) && SetOf(starts) <= Moved(lines, column) && Moved(lines, column) <= SetOf(starts)
    ensures |starts| == |lines|
  {
    SetSize(starts);
    MovedAreAsMany(lines, column);
    assert SetOf(starts) == Moved(lines, column);
  }

  /** A value stands at a place on a line as often as the line is there. */
  lemma CountOneValue(content: string, value: string, hits: seq<Hit>, place: Place)
    requires Within(content, hits) && OneStartEach(hits) && NewlineFree(value)
    requires FoundSound(content, value, hits, place.rule) && FoundComplete(content, value, hits, place.rule)
    ensures CountAt(content, hits, place) ==
            if MatchAt(place.line, value, place.column) then |StartsOfLine(content, place.line)| else 0
  {
    var starts := StartsAt(content, hits, place);
    assert |starts| == CountAt(content, hits, place);
    if MatchAt(place.line, value, place.column) {
      StartsAtDiffer(content, hits, place);
      StartsAreLines(content, value, hits, place, starts);
      LinesAreStarts(content, value, hits, place, starts);
      AsMany(starts, StartsOfLine(content, place.line), place.column);
    } else if starts != [] {
      PlacedOnLine(content, value, hits, place, starts[0]);
    }
  }

  /**
   A value stands at a place on a line as often as the line is there, if it is
   part of the line, and never otherwise.
   */
  lemma CountIsLines(content: string, values: seq<string>, hits: seq<Hit>, place: Place)
    requires Within(content, hits) && AllFound(content, values, hits)
    requires place.rule < |values| && NewlineFree(values[place.rule])
    ensures CountAt(content, hits, place) ==
            if MatchAt(place.line, values[place.rule], place.column) then |StartsOfLine(content, place.line)| else 0
  {
    var value := values[place.rule];
    assert FoundSound(content, value, hits, place.rule) by {
      forall i | 0 <= i < |hits| && hits[i].rule == place.rule
        ensures MatchAt(content, value, hits[i].start) && hits[i].end == hits[i].start + |value|
      {
        assert IsValueAt(content, values, hits[i]);
      }
    }
    assert FoundComplete(content, value, hits, place.rule) by {
      forall at: nat | MatchAt(content, value, at) ensures Hit(at, at + |value|, place.rule) in hits {
        assert IsValueAt(content, values, Hit(at, at + |value|, place.rule));
      }
    }
    CountOneValue(content, value, hits, place);
  }

  // ---- only what the render wrote is taken back ---------------------------------------------

  /** The two sides of undoing a finished render on a file as it is now. */
  function SidesOf(committed: string, rules: seq<Rule>, current: string): Sides
    requires Substitute(committed, rules).Ok?
  {
    Sides(Substitute(committed, rules).value, Spans(committed, rules), current, Located(current, Values(rules)))
  }

  lemma SpansAreLocated(committed: string, rules: seq<Rule>, expected: string)
    requires Composed(committed, rules) == Ok(expected) && Invertible(rules)
    ensures Substitute(committed, rules) == Ok(expected) && Spans(committed, rules) == Located(expected, Values(rules))
  {
    var hits, edits, undo := RenderedIs(committed, rules, expected);
    WrittenAreLocated(committed, rules, expected, hits, edits, undo);
  }

  /**
   On a file whose rendered lines were kept, exactly the values on those lines
   are taken back, at the spans the render wrote, and every other line is left
   alone even if it holds the same value. Nothing is left unplaced.
   */
  lemma OnlyRenderedLines(committed: string, rules: seq<Rule>, expected: string, current: string)
    requires Composed(committed, rules) == Ok(expected) && Invertible(rules)
    requires forall k | 0 <= k < |rules| :: NewlineFree(rules[k].value)
    requires RenderedLinesKept(expected, Spans(committed, rules), current)
    ensures var sides := SidesOf(committed, rules, current);
            && sides.Valid() && (forall i | 0 <= i < |sides.found| :: sides.found[i].rule < |rules|)
            && (forall i | 0 <= i < |sides.found| ::
                  sides.TakenBack(rules, i) <==>
                    RenderedLine(expected, sides.spans, PlaceIn(current, sides.found[i]).line))
            && (forall rule :: !sides.Unplaced(rules, rule))
  {
    var sides, values := SidesOf(committed, rules, current), Values(rules);
    SpansAreLocated(committed, rules, expected);
    LocatedFindsAll(expected, rules);
    LocatedFindsAll(current, rules);
    forall i | 0 <= i < |sides.spans| ensures sides.Matched(PlaceIn(expected, sides.spans[i])) {
      WrittenIsMatched(sides, rules, values, i);
    }
    assert forall rule :: !sides.Missing(rule);
    forall i | 0 <= i < |sides.found|
      ensures sides.Matched(PlaceIn(current, sides.found[i])) <==>
                RenderedLine(expected, sides.spans, PlaceIn(current, sides.found[i]).line)
    {
      FoundIsMatched(sides, rules, values, i);
    }
  }

  ghost predicate Comparable(sides: Sides, rules: seq<Rule>, values: seq<string>) {
    && sides.Valid() && values == Values(rules)
    && AllFound(sides.expected, values, sides.spans) && AllFound(sides.current, values, sides.found)
    && (forall k | 0 <= k < |rules| :: NewlineFree(rules[k].value))
    && RenderedLinesKept(sides.expected, sides.spans, sides.current)
  }

  lemma {:induction false} CountedOnce(content: string, hits: seq<Hit>, i: nat)
    requires Within(content, hits) && i < |hits|
    ensures CountAt(content, hits, PlaceIn(content, hits[i])) > 0
    decreases |hits|
  {
    if i > 0 {
      assert forall k | 0 <= k < |hits[1..]| :: hits[1..][k] == hits[k + 1];
      CountedOnce(content, hits[1..], i - 1);
    }
  }

  lemma WrittenIsMatched(sides: Sides, rules: seq<Rule>, values: seq<string>, i: nat)
    requires Comparable(sides, rules, values) && i < |sides.spans|
    ensures sides.Matched(PlaceIn(sides.expected, sides.spans[i]))
  {
    var place := PlaceIn(sides.expected, sides.spans[i]);
    CountedOnce(sides.expected, sides.spans, i);
    CountIsLines(sides.expected, values, sides.spans, place);
    CountIsLines(sides.current, values, sides.found, place);
    assert RenderedLine(sides.expected, sides.spans, place.line);
  }

  lemma {:induction false} SomeCounted(content: string, hits: seq<Hit>, place: Place) returns (i: nat)
    requires Within(content, hits) && CountAt(content, hits, place) > 0
    ensures i < |hits| && PlaceIn(content, hits[i]) == place
    decreases |hits|
  {
    if PlaceIn(content, hits[0]) == place {
      i := 0;
    } else {
      assert forall k | 0 <= k < |hits[1..]| :: hits[1..][k] == hits[k + 1];
      i := SomeCounted(content, hits[1..], place);
      i := i + 1;
    }
  }

  lemma FoundIsMatched(sides: Sides, rules: seq<Rule>, values: seq<string>, i: nat)
    requires Comparable(sides, rules, values) && i < |sides.found|
    ensures sides.Matched(PlaceIn(sides.current, sides.found[i]))
            <==> RenderedLine(sides.expected, sides.spans, PlaceIn(sides.current, sides.found[i]).line)
  {
    var place := PlaceIn(sides.current, sides.found[i]);
    assert IsValueAt(sides.current, values, sides.found[i]);
    MatchOnLine(sides.current, sides.found[i], values[place.rule]);
    CountIsLines(sides.expected, values, sides.spans, place);
    CountIsLines(sides.current, values, sides.found, place);
    if sides.Matched(place) {
      var k := SomeCounted(sides.expected, sides.spans, place);
    }
    if RenderedLine(sides.expected, sides.spans, place.line) {
      RenderedLineStarts(sides, rules, values, place.line);
    }
  }

  lemma RenderedLineStarts(sides: Sides, rules: seq<Rule>, values: seq<string>, line: string)
    requires Comparable(sides, rules, values) && RenderedLine(sides.expected, sides.spans, line)
    ensures |StartsOfLine(sides.expected, line)| > 0
  {
    var i :| 0 <= i < |sides.spans| && PlaceIn(sides.expected, sides.spans[i]).line == line;
    var hit := sides.spans[i];
    assert IsValueAt(sides.expected, values, hit);
    HitOnLine(sides.expected, hit, values[hit.rule], PlaceIn(sides.expected, hit));
  }
}
