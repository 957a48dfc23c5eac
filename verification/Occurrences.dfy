/** Which occurrences are the render's own. */
module Occurrences {
  // What undoing a render takes back, said of the two texts: where a value occurs in
  // the file, on which lines, and where the render had written it.

  import opened Render
  import opened RenderInverse
  import opened RenderLines

  /** Which of the spans the render writes stand at `place`. */
  ghost function WrittenAt(committed: string, rules: seq<Rule>, place: Place): set<nat>
    requires Substitute(committed, rules).Ok?
  {
    var spans := Spans(committed, rules);
    set i: nat | i < |spans| && PlaceIn(Substitute(committed, rules).value, spans[i]) == place
  }

  /** Where in the file the value is found on such a line, at that column. */
  ghost function FoundAt(rules: seq<Rule>, current: string, place: Place): set<nat> {
    if place.rule >= |rules| then {}
    else
      var value := rules[place.rule].value;
      set at | at in Greedy(current, value, 0) && at + |value| <= |current|
               && PlaceIn(current, Hit(at, at + |value|, place.rule)) == place
  }

  /** The render writes the value on this very line, at this column, and as often as it is found so. */
  ghost predicate AsWritten(committed: string, rules: seq<Rule>, current: string, place: Place)
    requires Substitute(committed, rules).Ok?
  {
    |WrittenAt(committed, rules, place)| == |FoundAt(rules, current, place)| > 0
  }

  /** Some value the render writes for `rule` is not found as it was written: its line was edited, or repeated. */
  ghost predicate Astray(committed: string, rules: seq<Rule>, current: string, rule: nat)
    requires Substitute(committed, rules).Ok?
  {
    var spans := Spans(committed, rules);
    exists i | 0 <= i < |spans| ::
      spans[i].rule == rule
      && !AsWritten(committed, rules, current, PlaceIn(Substitute(committed, rules).value, spans[i]))
  }

  /** The file holds the value as often as it was to be written. */
  ghost predicate Counted(rules: seq<Rule>, current: string, rule: nat)
    requires rule < |rules|
  {
    |Greedy(current, rules[rule].value, 0)| == rules[rule].count
  }

  /** An occurrence of a value that is the render's: found as written, or one of as many as were written. */
  ghost predicate TheRenders(committed: string, rules: seq<Rule>, current: string, hit: Hit)
    requires Substitute(committed, rules).Ok?
  {
    && IsHit(current, Values(rules), hit) && hit.start <= hit.end <= |current|
    && (AsWritten(committed, rules, current, PlaceIn(current, hit))
        || (Astray(committed, rules, current, hit.rule) && Counted(rules, current, hit.rule)))
  }

  /** An occurrence that could be the render's, of a value that is astray and not counted. */
  ghost predicate LeftThere(committed: string, rules: seq<Rule>, current: string, hit: Hit)
    requires Substitute(committed, rules).Ok?
  {
    && IsHit(current, Values(rules), hit) && hit.start <= hit.end <= |current|
    && !AsWritten(committed, rules, current, PlaceIn(current, hit))
    && Astray(committed, rules, current, hit.rule) && !Counted(rules, current, hit.rule)
  }

  // ---- counting places -------------------------------------------------------------

  /** Which hits stand at `place`. */
  ghost function IndexesAt(content: string, hits: seq<Hit>, place: Place): set<nat>
    requires Within(content, hits)
  {
    set i: nat | i < |hits| && PlaceIn(content, hits[i]) == place
  }

  lemma {:induction false} CountLast(content: string, hits: seq<Hit>, last: Hit, place: Place)
    requires Within(content, hits) && last.start <= last.end <= |content| && Within(content, hits + [last])
    ensures CountAt(content, hits + [last], place)
            == CountAt(content, hits, place) + if PlaceIn(content, last) == place then 1 else 0
    decreases |hits|
  {
    if hits == [] {
      assert hits + [last] == [last] && [last][1..] == [];
    } else {
      assert (hits + [last])[1..] == hits[1..] + [last];
      assert forall i | 0 <= i < |hits[1..]| :: hits[1..][i] == hits[i + 1];
      CountLast(content, hits[1..], last, place);
    }
  }

  lemma {:induction false} CountIsSize(content: string, hits: seq<Hit>, place: Place)
    requires Within(content, hits)
    ensures CountAt(content, hits, place) == |IndexesAt(content, hits, place)|
    decreases |hits|
  {
    if hits != [] {
      var before, last := hits[..|hits| - 1], hits[|hits| - 1];
      assert hits == before + [last];
      CountLast(content, before, last, place);
      CountIsSize(content, before, place);
      IndexesMore(content, hits, place);
    }
  }

  lemma IndexesMore(content: string, hits: seq<Hit>, place: Place)
    requires Within(content, hits) && hits != []
    ensures var last := |hits| - 1;
            IndexesAt(content, hits, place)
            == IndexesAt(content, hits[..last], place) + if PlaceIn(content, hits[last]) == place then {last} else {}
  {
  }

  /** Located values, counted at a place, are where the value is found there. */
  lemma CountIsFound(rules: seq<Rule>, current: string, hits: seq<Hit>, place: Place)
    requires Within(current, hits) && hits == Located(current, Values(rules))
    ensures CountAt(current, hits, place) == |FoundAt(rules, current, place)|
  {
    OneStart(current, Values(rules), hits);
    StartsAtDiffer(current, hits, place);
    SetSize(StartsAt(current, hits, place));
    forall start: nat
      ensures start in StartsAt(current, hits, place) <==> start in FoundAt(rules, current, place)
    {
      StartFound(rules, current, hits, place, start);
    }
    assert SetOf(StartsAt(current, hits, place)) == FoundAt(rules, current, place);
  }

  lemma OneStart(current: string, values: seq<string>, hits: seq<Hit>)
    requires hits == Located(current, values)
    ensures OneStartEach(hits)
  {
    LocatedIs(current, values);
    forall i, j | 0 <= i < j < |hits| && hits[i].rule == hits[j].rule ensures hits[i].start != hits[j].start {
      assert hits[i] in hits && hits[j] in hits;
      assert Before(hits[i], hits[j]);
    }
  }

  lemma StartFound(rules: seq<Rule>, current: string, hits: seq<Hit>, place: Place, start: nat)
    requires Within(current, hits) && hits == Located(current, Values(rules))
    ensures start in StartsAt(current, hits, place) <==> start in FoundAt(rules, current, place)
  {
    if start in StartsAt(current, hits, place) {
      var i := SomeStart(current, hits, place, start);
      LocatedIs(current, Values(rules));
      assert hits[i] in hits;
      HitFound(rules, current, hits[i], place);
    }
    if start in FoundAt(rules, current, place) {
      var i := FoundIsListed(rules, current, hits, place, start);
      StartsAtMembers(current, hits, place, start);
    }
  }

  lemma FoundIsListed(rules: seq<Rule>, current: string, hits: seq<Hit>, place: Place, start: nat) returns (i: nat)
    requires hits == Located(current, Values(rules)) && start in FoundAt(rules, current, place)
    ensures i < |hits| && hits[i].start == start && hits[i].start <= hits[i].end <= |current|
    ensures PlaceIn(current, hits[i]) == place
  {
    var hit := Hit(start, start + |rules[place.rule].value|, place.rule);
    FoundIsHit(rules, current, place, start, hit);
    i := HitIsListed(current, Values(rules), hits, hit);
  }

  lemma FoundIsHit(rules: seq<Rule>, current: string, place: Place, start: nat, hit: Hit)
    requires start in FoundAt(rules, current, place)
    requires hit == Hit(start, start + |rules[place.rule].value|, place.rule)
    ensures IsHit(current, Values(rules), hit) && hit.end <= |current| && PlaceIn(current, hit) == place
  {
  }

  lemma HitIsListed(current: string, values: seq<string>, hits: seq<Hit>, hit: Hit) returns (i: nat)
    requires hits == Located(current, values) && IsHit(current, values, hit)
    ensures i < |hits| && hits[i] == hit
  {
    LocatedIs(current, values);
    i :| 0 <= i < |hits| && hits[i] == hit;
  }

  lemma HitFound(rules: seq<Rule>, current: string, hit: Hit, place: Place)
    requires IsHit(current, Values(rules), hit) && hit.start <= hit.end <= |current|
    requires PlaceIn(current, hit) == place
    ensures hit.start in FoundAt(rules, current, place)
  {
    assert hit == Hit(hit.start, hit.start + |rules[place.rule].value|, place.rule);
  }

  // ---- what is taken back ----------------------------------------------------------------

  lemma MatchedIs(committed: string, rules: seq<Rule>, current: string, place: Place)
    requires Substitute(committed, rules).Ok? && SidesOf(committed, rules, current).Valid()
    ensures SidesOf(committed, rules, current).Matched(place) <==> AsWritten(committed, rules, current, place)
  {
    CountIsSize(Substitute(committed, rules).value, Spans(committed, rules), place);
    CountIsFound(rules, current, Located(current, Values(rules)), place);
    assert WrittenAt(committed, rules, place)
        == IndexesAt(Substitute(committed, rules).value, Spans(committed, rules), place);
  }

  lemma MissingIs(committed: string, rules: seq<Rule>, current: string, rule: nat)
    requires Substitute(committed, rules).Ok? && SidesOf(committed, rules, current).Valid()
    ensures SidesOf(committed, rules, current).Missing(rule) <==> Astray(committed, rules, current, rule)
  {
    var sides := SidesOf(committed, rules, current);
    forall i | 0 <= i < |sides.spans|
      ensures sides.Matched(PlaceIn(sides.expected, sides.spans[i])) <==>
                AsWritten(committed, rules, current, PlaceIn(sides.expected, sides.spans[i]))
    {
      MatchedIs(committed, rules, current, PlaceIn(sides.expected, sides.spans[i]));
    }
  }

  /** What is taken back is exactly what is the render's. */
  lemma TakenIsRenders(committed: string, rules: seq<Rule>, current: string, i: nat)
    requires Substitute(committed, rules).Ok? && SidesOf(committed, rules, current).Valid()
    requires i < |Located(current, Values(rules))| && Located(current, Values(rules))[i].rule < |rules|
    ensures SidesOf(committed, rules, current).TakenBack(rules, i) <==>
              TheRenders(committed, rules, current, Located(current, Values(rules))[i])
  {
    var hit := Located(current, Values(rules))[i];
    LocatedIs(current, Values(rules));
    assert hit in Located(current, Values(rules));
    MatchedIs(committed, rules, current, PlaceIn(current, hit));
    MissingIs(committed, rules, current, hit.rule);
    CountLocated(current, Values(rules), hit.rule);
  }

  /** An occurrence left by what is taken back is one that could be the render's. */
  lemma NotTakenIsLeft(committed: string, rules: seq<Rule>, current: string, i: nat)
    requires Substitute(committed, rules).Ok? && SidesOf(committed, rules, current).Valid()
    requires i < |Located(current, Values(rules))| && Located(current, Values(rules))[i].rule < |rules|
    ensures var sides, hit := SidesOf(committed, rules, current), Located(current, Values(rules))[i];
            sides.Missing(hit.rule) && CountRule(sides.found, hit.rule) != rules[hit.rule].count
              && !sides.TakenBack(rules, i)
            <==> LeftThere(committed, rules, current, hit)
  {
    var hit := Located(current, Values(rules))[i];
    LocatedIs(current, Values(rules));
    assert hit in Located(current, Values(rules));
    MatchedIs(committed, rules, current, PlaceIn(current, hit));
    MissingIs(committed, rules, current, hit.rule);
    CountLocated(current, Values(rules), hit.rule);
  }

  /** A rule is unplaced exactly when some occurrence of its value is left there. */
  lemma UnplacedIsLeft(committed: string, rules: seq<Rule>, current: string, rule: nat)
    requires Substitute(committed, rules).Ok? && SidesOf(committed, rules, current).Valid()
    requires forall i | 0 <= i < |Located(current, Values(rules))| :: Located(current, Values(rules))[i].rule < |rules|
    ensures SidesOf(committed, rules, current).Unplaced(rules, rule) <==>
              exists hit: Hit :: hit.rule == rule && LeftThere(committed, rules, current, hit)
  {
    var sides, hits := SidesOf(committed, rules, current), Located(current, Values(rules));
    if sides.Unplaced(rules, rule) {
      var i: nat :| i < |hits| && hits[i].rule == rule && !sides.TakenBack(rules, i);
      NotTakenIsLeft(committed, rules, current, i);
    }
    if hit: Hit :| hit.rule == rule && LeftThere(committed, rules, current, hit) {
      var i := HitIsListed(current, Values(rules), hits, hit);
      NotTakenIsLeft(committed, rules, current, i);
    }
  }
}
