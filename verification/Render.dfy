/** A render, as one batch of replacements. */
module Render {
  // Replacing texts in a file, all rules at once, so that no rule sees what another
  // wrote; and replacing the values back.
  //
  // These functions say what a render is. `Renderer` computes it with the cursors
  // and buffers the repository uses.

  import opened Wrappers

  /** A replacement, its template already resolved. */
  datatype Rule = Rule(find: string, value: string, count: nat)

  /** A resource and the rules it asks for. */
  datatype Claim = Claim(resource: string, rules: seq<Rule>)

  function Rules(claims: seq<Claim>): seq<Rule> {
    if claims == [] then [] else claims[0].rules + Rules(claims[1..])
  }

  function Finds(rules: seq<Rule>): seq<string> { seq(|rules|, i requires 0 <= i < |rules| => rules[i].find) }

  function Values(rules: seq<Rule>): seq<string> { seq(|rules|, i requires 0 <= i < |rules| => rules[i].value) }

  // ---- matches ------------------------------------------------------------------

  predicate MatchAt(text: string, needle: string, at: nat) {
    at + |needle| <= |text| && text[at..at + |needle|] == needle
  }

  /** `text[from..].find(needle)`, as a place in `text`. */
  function FirstMatch(text: string, needle: string, from: nat): (at: Option<nat>)
    ensures at.Some? ==> from <= at.value && MatchAt(text, needle, at.value)
                         && forall k: nat | from <= k < at.value :: !MatchAt(text, needle, k)
    ensures at.None? ==> forall k: nat | from <= k :: !MatchAt(text, needle, k)
    decreases |text| - from
  {
    if from + |needle| > |text| then None
    else if MatchAt(text, needle, from) then Some(from)
    else FirstMatch(text, needle, from + 1)
  }

  /** The matches found by searching on past each one; none of the empty needle. */
  function Greedy(text: string, needle: string, from: nat): (found: seq<nat>)
    decreases |text| - from
  {
    if needle == "" then []
    else
      var at := FirstMatch(text, needle, from);
      if at.None? then [] else [at.value] + Greedy(text, needle, at.value + |needle|)
  }

  ghost predicate Apart(found: seq<nat>, length: nat) {
    forall i, j | 0 <= i < j < |found| :: found[i] + length <= found[j]
  }

  ghost predicate AllMatch(text: string, needle: string, found: seq<nat>, from: nat) {
    forall i | 0 <= i < |found| :: found[i] >= from && MatchAt(text, needle, found[i])
  }

  lemma GreedyStep(text: string, needle: string, from: nat, at: nat, rest: seq<nat>)
    requires from <= at && MatchAt(text, needle, at) && AllMatch(text, needle, rest, at + |needle|)
             && Apart(rest, |needle|)
    ensures AllMatch(text, needle, [at] + rest, from) && Apart([at] + rest, |needle|)
  {
  }

  lemma {:induction false} GreedyMatches(text: string, needle: string, from: nat)
    ensures AllMatch(text, needle, Greedy(text, needle, from), from)
    ensures Apart(Greedy(text, needle, from), |needle|)
    decreases |text| - from
  {
    if needle != "" {
      var at := FirstMatch(text, needle, from);
      if at.Some? {
        GreedyMatches(text, needle, at.value + |needle|);
        GreedyStep(text, needle, from, at.value, Greedy(text, needle, at.value + |needle|));
      }
    }
  }

  /** Every match begins inside a greedy one. */
  lemma {:induction false} GreedyCovers(text: string, needle: string, from: nat, at: nat) returns (inside: nat)
    requires needle != "" && from <= at && MatchAt(text, needle, at)
    ensures inside in Greedy(text, needle, from) && inside <= at < inside + |needle|
    decreases |text| - from
  {
    var first := FirstMatch(text, needle, from).value;
    if at < first + |needle| {
      inside := first;
    } else {
      inside := GreedyCovers(text, needle, first + |needle|, at);
    }
  }

  /** No proper prefix of `needle` is also its suffix: it cannot overlap itself. */
  ghost predicate Unbordered(needle: string) {
    forall k | 0 < k < |needle| :: needle[..k] != needle[|needle| - k..]
  }

  /** Two matches that overlap show a prefix of the needle that is also its suffix. */
  lemma OverlapIsBorder(text: string, needle: string, left: nat, right: nat)
    requires MatchAt(text, needle, left) && MatchAt(text, needle, right)
    requires left < right < left + |needle|
    ensures var k := left + |needle| - right; needle[..k] == needle[|needle| - k..]
  {
    var k := left + |needle| - right;
    assert needle[|needle| - k..] == text[right..left + |needle|];
    assert needle[..k] == text[right..right + k];
  }

  /** A needle that cannot overlap itself is found wherever it occurs. */
  lemma UnborderedFindsAll(text: string, needle: string, at: nat)
    requires needle != "" && Unbordered(needle) && MatchAt(text, needle, at)
    ensures at in Greedy(text, needle, 0)
  {
    var inside := GreedyCovers(text, needle, 0, at);
    GreedyMatches(text, needle, 0);
    if inside < at { OverlapIsBorder(text, needle, inside, at); }
  }

  // ---- where the rules match ------------------------------------------------------

  /** Where one rule matched. */
  datatype Hit = Hit(start: nat, end: nat, rule: nat)

  /** By start, then by end; rules that tie keep their order. */
  predicate Before(left: Hit, right: Hit) {
    || left.start < right.start
    || (left.start == right.start && (left.end < right.end || (left.end == right.end && left.rule < right.rule)))
  }

  ghost predicate Sorted(hits: seq<Hit>) {
    forall i, j | 0 <= i < j < |hits| :: Before(hits[i], hits[j])
  }

  predicate IsHit(text: string, needles: seq<string>, hit: Hit) {
    && hit.rule < |needles|
    && hit.start in Greedy(text, needles[hit.rule], 0)
    && hit.end == hit.start + |needles[hit.rule]|
  }

  function Insert(hit: Hit, hits: seq<Hit>): seq<Hit> {
    if hits == [] || Before(hit, hits[0]) then [hit] + hits else [hits[0]] + Insert(hit, hits[1..])
  }

  function InsertAll(starts: seq<nat>, length: nat, rule: nat, hits: seq<Hit>): seq<Hit> {
    if starts == [] then hits
    else InsertAll(starts[1..], length, rule, Insert(Hit(starts[0], starts[0] + length, rule), hits))
  }

  /** Every match of the first `rules` needles, sorted by position. */
  function LocatedUpTo(text: string, needles: seq<string>, rules: nat): seq<Hit>
    requires rules <= |needles|
  {
    if rules == 0 then []
    else InsertAll(Greedy(text, needles[rules - 1], 0), |needles[rules - 1]|, rules - 1,
                   LocatedUpTo(text, needles, rules - 1))
  }

  function Located(text: string, needles: seq<string>): seq<Hit> { LocatedUpTo(text, needles, |needles|) }

  lemma {:induction false} InsertKeepsSorted(hit: Hit, hits: seq<Hit>)
    requires Sorted(hits) && hit !in hits
    ensures Sorted(Insert(hit, hits))
    ensures forall other :: other in Insert(hit, hits) <==> other == hit || other in hits
    ensures |Insert(hit, hits)| == |hits| + 1
  {
    if hits != [] {
      assert hits == [hits[0]] + hits[1..];
      if !Before(hit, hits[0]) {
        InsertKeepsSorted(hit, hits[1..]);
        var rest := Insert(hit, hits[1..]);
        forall i | 0 <= i < |rest| ensures Before(hits[0], rest[i]) {
          assert rest[i] in rest;
        }
      } else {
        forall i | 0 <= i < |hits| ensures Before(hit, hits[i]) {
          if i > 0 { assert Before(hits[0], hits[i]); }
        }
      }
    }
  }

  lemma {:induction false} InsertAllKeepsSorted(starts: seq<nat>, length: nat, rule: nat, hits: seq<Hit>)
    requires Sorted(hits)
    requires forall i, j | 0 <= i < j < |starts| :: starts[i] != starts[j]
    requires forall i | 0 <= i < |starts| :: Hit(starts[i], starts[i] + length, rule) !in hits
    ensures Sorted(InsertAll(starts, length, rule, hits))
    ensures forall hit :: hit in InsertAll(starts, length, rule, hits) <==>
              hit in hits || (hit.rule == rule && hit.start in starts && hit.end == hit.start + length)
    decreases |starts|
  {
    if starts != [] {
      var hit := Hit(starts[0], starts[0] + length, rule);
      InsertKeepsSorted(hit, hits);
      assert starts == [starts[0]] + starts[1..];
      InsertAllKeepsSorted(starts[1..], length, rule, Insert(hit, hits));
    }
  }

  ghost predicate AllOfThem(text: string, needles: seq<string>, rules: nat, hits: seq<Hit>) {
    Sorted(hits) && forall hit :: hit in hits <==> hit.rule < rules && IsHit(text, needles, hit)
  }

  lemma OneMoreNeedle(text: string, needles: seq<string>, rule: nat, hits: seq<Hit>, more: seq<Hit>)
    requires rule < |needles| && AllOfThem(text, needles, rule, hits)
    requires more == InsertAll(Greedy(text, needles[rule], 0), |needles[rule]|, rule, hits)
    ensures AllOfThem(text, needles, rule + 1, more)
  {
    var needle := needles[rule];
    var starts := Greedy(text, needle, 0);
    GreedyMatches(text, needle, 0);
    if needle == "" { assert starts == []; }
    assert Apart(starts, |needle|);
    InsertAllKeepsSorted(starts, |needle|, rule, hits);
  }

  lemma {:induction false} LocatedUpToIs(text: string, needles: seq<string>, rules: nat)
    requires rules <= |needles|
    ensures AllOfThem(text, needles, rules, LocatedUpTo(text, needles, rules))
    decreases rules
  {
    if rules > 0 {
      LocatedUpToIs(text, needles, rules - 1);
      OneMoreNeedle(text, needles, rules - 1, LocatedUpTo(text, needles, rules - 1), LocatedUpTo(text, needles, rules));
    }
  }

  /** `Located` is every match of every needle, in order: nothing else is. */
  lemma LocatedIs(text: string, needles: seq<string>)
    ensures Sorted(Located(text, needles))
    ensures forall hit :: hit in Located(text, needles) <==> IsHit(text, needles, hit)
  {
    LocatedUpToIs(text, needles, |needles|);
  }

  /** Matches come by where they start; from one start the shorter first, and of one span the earlier rule's. */
  lemma LocatedInOrder(text: string, needles: seq<string>, i: nat, j: nat)
    requires i < j < |Located(text, needles)|
    ensures var left, right := Located(text, needles)[i], Located(text, needles)[j];
            || left.start < right.start
            || (left.start == right.start && left.end < right.end)
            || (left.start == right.start && left.end == right.end && left.rule < right.rule)
  {
    LocatedIs(text, needles);
    assert Before(Located(text, needles)[i], Located(text, needles)[j]);
  }

  lemma {:induction false} SortedUnique(left: seq<Hit>, right: seq<Hit>)
    requires Sorted(left) && Sorted(right)
    requires forall hit :: hit in left <==> hit in right
    ensures left == right
    decreases |left|
  {
    if left != [] { assert left[0] in left; }
    if right != [] { assert right[0] in right; }
    if left != [] {
      assert left[0] in right && right[0] in left;
      assert left == [left[0]] + left[1..] && right == [right[0]] + right[1..];
      assert left[0] == right[0];
      forall hit ensures hit in left[1..] <==> hit in right[1..] {
        if hit in left[1..] { assert Before(left[0], hit); assert hit in right; }
        if hit in right[1..] { assert Before(right[0], hit); assert hit in left; }
      }
      SortedUnique(left[1..], right[1..]);
    }
  }

  // ---- rewriting ----------------------------------------------------------------------

  /** `text` in place of what lies between `start` and `end`. */
  datatype Edit = Edit(start: nat, end: nat, text: string)

  function Edits(hits: seq<Hit>, texts: seq<string>): seq<Edit>
    requires forall i | 0 <= i < |hits| :: hits[i].rule < |texts|
  {
    seq(|hits|, i requires 0 <= i < |hits| => Edit(hits[i].start, hits[i].end, texts[hits[i].rule]))
  }

  /** Each edit starts no earlier than the one before it ended. */
  predicate InOrder(edits: seq<Edit>, from: nat, upto: nat) {
    if edits == [] then from <= upto
    else from <= edits[0].start <= edits[0].end && InOrder(edits[1..], edits[0].end, upto)
  }

  function Apply(content: string, edits: seq<Edit>, cursor: nat): string
    requires InOrder(edits, cursor, |content|)
    decreases |edits|
  {
    if edits == [] then content[cursor..]
    else
      InOrderEnds(edits, cursor, |content|);
      content[cursor..edits[0].start] + edits[0].text + Apply(content, edits[1..], edits[0].end)
  }

  lemma {:induction false} InOrderEnds(edits: seq<Edit>, from: nat, upto: nat)
    requires InOrder(edits, from, upto)
    ensures from <= upto && forall i | 0 <= i < |edits| :: from <= edits[i].start <= edits[i].end <= upto
    ensures forall i, j | 0 <= i < j < |edits| :: edits[i].end <= edits[j].start
    decreases |edits|
  {
    if edits != [] {
      InOrderEnds(edits[1..], edits[0].end, upto);
      assert forall i | 0 < i < |edits| :: edits[i] == edits[1..][i - 1];
    }
  }

  lemma {:induction false} InOrderFrom(edits: seq<Edit>, from: nat, upto: nat)
    requires from <= upto
    requires forall i | 0 <= i < |edits| :: from <= edits[i].start <= edits[i].end <= upto
    requires forall i, j | 0 <= i < j < |edits| :: edits[i].end <= edits[j].start
    ensures InOrder(edits, from, upto)
    decreases |edits|
  {
    if edits != [] {
      assert forall i | 0 <= i < |edits| - 1 :: edits[1..][i] == edits[i + 1];
      InOrderFrom(edits[1..], edits[0].end, upto);
    }
  }

  /** How often `rule` matched. */
  function CountRule(hits: seq<Hit>, rule: nat): nat {
    if hits == [] then 0 else (if hits[0].rule == rule then 1 else 0) + CountRule(hits[1..], rule)
  }

  /**
   Every rule applied as one batch: an error unless each matched as often as it
   declares, and no two matches overlap.
   */
  function Substitute(content: string, rules: seq<Rule>): Result<string> {
    var hits := Located(content, Finds(rules));
    LocatedIs(content, Finds(rules));
    assert forall i | 0 <= i < |hits| :: hits[i] in hits;
    if exists k | 0 <= k < |rules| :: CountRule(hits, k) != rules[k].count then Err
    else
      var edits := Edits(hits, Values(rules));
      if InOrder(edits, 0, |content|) then Ok(Apply(content, edits, 0)) else Err
  }

  /** `text.matches(needle).count()`: the empty needle matches everywhere. */
  function MatchCount(text: string, needle: string): nat {
    if needle == "" then |text| + 1 else |Greedy(text, needle, 0)|
  }

  /** Substitution, and then a check: every value must be found again as many times as its rule says. */
  function Composed(committed: string, rules: seq<Rule>): Result<string> {
    var content :- Substitute(committed, rules);
    if exists k | 0 <= k < |rules| :: MatchCount(content, rules[k].value) != rules[k].count then Err else Ok(content)
  }

  /** Hits that start before the one before them ended are passed over. */
  function Kept(hits: seq<Hit>, cursor: nat): seq<Hit> {
    if hits == [] then []
    else if hits[0].start < cursor then Kept(hits[1..], cursor)
    else [hits[0]] + Kept(hits[1..], hits[0].end)
  }

  lemma {:induction false} KeptInOrder(text: string, needles: seq<string>, hits: seq<Hit>, texts: seq<string>,
                                       cursor: nat)
    requires |needles| == |texts| && cursor <= |text|
    requires forall i | 0 <= i < |hits| :: IsHit(text, needles, hits[i])
    ensures forall i | 0 <= i < |Kept(hits, cursor)| :: Kept(hits, cursor)[i].rule < |texts|
    ensures InOrder(Edits(Kept(hits, cursor), texts), cursor, |text|)
    decreases |hits|
  {
    if hits != [] {
      GreedyMatches(text, needles[hits[0].rule], 0);
      assert hits[0].end <= |text|;
      if hits[0].start < cursor {
        KeptInOrder(text, needles, hits[1..], texts, cursor);
      } else {
        KeptInOrder(text, needles, hits[1..], texts, hits[0].end);
        var rest := Kept(hits[1..], hits[0].end);
        assert Edits([hits[0]] + rest, texts)[1..] == Edits(rest, texts);
      }
    }
  }

  /** Some hit at or after `cursor` was kept that a hit starts inside of, or else it starts before `cursor`. */
  ghost predicate PassedOver(kept: seq<Hit>, cursor: nat, hit: Hit) {
    hit.start < cursor || exists other :: other in kept && other.start <= hit.start < other.end
  }

  /**
   Of hits in order, those kept do not overlap, and each passed over starts inside
   one that was kept: no other choice is left.
   */
  lemma {:induction false} KeptIs(hits: seq<Hit>, cursor: nat)
    requires forall i | 0 <= i < |hits| :: hits[i].start < hits[i].end
    requires forall i, j | 0 <= i < j < |hits| :: hits[i].start <= hits[j].start
    ensures forall hit | hit in Kept(hits, cursor) :: hit in hits && hit.start >= cursor
    ensures forall i, j | 0 <= i < j < |Kept(hits, cursor)| :: Kept(hits, cursor)[i].end <= Kept(hits, cursor)[j].start
    ensures forall hit | hit in hits && hit !in Kept(hits, cursor) :: PassedOver(Kept(hits, cursor), cursor, hit)
    decreases |hits|
  {
    if hits != [] {
      var first, rest := hits[0], hits[1..];
      var next := if first.start < cursor then cursor else first.end;
      KeptIs(rest, next);
      var after, kept := Kept(rest, next), Kept(hits, cursor);
      forall hit | hit in hits && hit !in kept ensures PassedOver(kept, cursor, hit) {
        if hit != first { KeptStays(after, kept, next, cursor, first, hit); }
      }
      forall i | 0 <= i < |after| ensures after[i].start >= next { assert after[i] in after; }
    }
  }

  lemma KeptStays(after: seq<Hit>, kept: seq<Hit>, next: nat, cursor: nat, first: Hit, hit: Hit)
    requires PassedOver(after, next, hit) && first.start <= hit.start
    requires if first.start < cursor then next == cursor && kept == after
             else next == first.end && kept == [first] + after
    ensures PassedOver(kept, cursor, hit)
  {
    if hit.start < next {
      if first.start >= cursor { assert first in kept; }
    } else {
      var other :| other in after && other.start <= hit.start < other.end;
      assert other in kept;
    }
  }

  ghost predicate AllHits(text: string, needles: seq<string>, hits: seq<Hit>) {
    forall i | 0 <= i < |hits| :: IsHit(text, needles, hits[i])
  }

  /** These hits replaced, leftmost first, overlapping ones passed over. */
  ghost function SwapHits(content: string, from: seq<string>, to: seq<string>, hits: seq<Hit>): string
    requires |from| == |to| && AllHits(content, from, hits)
  {
    KeptInOrder(content, from, hits, to, 0);
    Apply(content, Edits(Kept(hits, 0), to), 0)
  }

  lemma LocatedAreHits(content: string, from: seq<string>)
    ensures AllHits(content, from, Located(content, from))
  {
    LocatedIs(content, from);
    var located := Located(content, from);
    forall i | 0 <= i < |located| ensures IsHit(content, from, located[i]) { assert located[i] in located; }
  }

  ghost function SwapEvery(content: string, from: seq<string>, to: seq<string>): string
    requires |from| == |to|
  {
    LocatedAreHits(content, from);
    SwapHits(content, from, to, Located(content, from))
  }

  /** Undo a render: every value becomes what it replaced. */
  ghost function Reverse(rendered: string, rules: seq<Rule>): string {
    SwapEvery(rendered, Values(rules), Finds(rules))
  }

  // ---- counting matches ------------------------------------------------------------------

  lemma {:induction false} CountInsert(hit: Hit, hits: seq<Hit>, rule: nat)
    ensures CountRule(Insert(hit, hits), rule) == CountRule(hits, rule) + if hit.rule == rule then 1 else 0
  {
    if hits != [] && !Before(hit, hits[0]) {
      CountInsert(hit, hits[1..], rule);
      assert Insert(hit, hits)[1..] == Insert(hit, hits[1..]);
    } else {
      assert Insert(hit, hits)[1..] == hits;
    }
  }

  lemma {:induction false} CountInsertAll(starts: seq<nat>, length: nat, rule: nat, hits: seq<Hit>, counted: nat)
    ensures CountRule(InsertAll(starts, length, rule, hits), counted)
            == CountRule(hits, counted) + if counted == rule then |starts| else 0
    decreases |starts|
  {
    if starts != [] {
      var hit := Hit(starts[0], starts[0] + length, rule);
      CountInsert(hit, hits, counted);
      CountInsertAll(starts[1..], length, rule, Insert(hit, hits), counted);
    }
  }

  lemma {:induction false} CountLocatedUpTo(text: string, needles: seq<string>, rules: nat, rule: nat)
    requires rules <= |needles|
    ensures CountRule(LocatedUpTo(text, needles, rules), rule) == if rule < rules then |Greedy(text, needles[rule], 0)|
                                                                  else 0
    decreases rules
  {
    if rules > 0 {
      CountLocatedUpTo(text, needles, rules - 1, rule);
      CountInsertAll(Greedy(text, needles[rules - 1], 0), |needles[rules - 1]|, rules - 1,
                     LocatedUpTo(text, needles, rules - 1), rule);
    }
  }

  /** A rule is counted as often as its needle is found. */
  lemma CountLocated(text: string, needles: seq<string>, rule: nat)
    requires rule < |needles|
    ensures CountRule(Located(text, needles), rule) == |Greedy(text, needles[rule], 0)|
  {
    CountLocatedUpTo(text, needles, |needles|, rule);
  }

  // ---- when substitution succeeds -----------------------------------------------------------

  /** No match of one rule overlaps a match of another. */
  ghost predicate Clear(content: string, rules: seq<Rule>) {
    forall i, j, p, q | 0 <= i < |rules| && 0 <= j < |rules| && i != j
                        && p in Greedy(content, rules[i].find, 0) && q in Greedy(content, rules[j].find, 0) ::
      p + |rules[i].find| <= q || q + |rules[j].find| <= p
  }

  ghost predicate Disjoint(hits: seq<Hit>) {
    forall i, j | 0 <= i < j < |hits| :: hits[i].end <= hits[j].start
  }

  lemma HitSpan(text: string, needles: seq<string>, hit: Hit)
    requires IsHit(text, needles, hit)
    ensures hit.start < hit.end <= |text| && text[hit.start..hit.end] == needles[hit.rule]
  {
    GreedyMatches(text, needles[hit.rule], 0);
    assert needles[hit.rule] != "";
  }

  lemma InOrderIsDisjoint(content: string, rules: seq<Rule>, hits: seq<Hit>)
    requires hits == Located(content, Finds(rules))
    ensures forall i | 0 <= i < |hits| :: hits[i].rule < |rules|
    ensures InOrder(Edits(hits, Values(rules)), 0, |content|) <==> Disjoint(hits)
  {
    LocatedIs(content, Finds(rules));
    assert forall i | 0 <= i < |hits| :: hits[i] in hits;
    var edits := Edits(hits, Values(rules));
    if InOrder(edits, 0, |content|) {
      InOrderEnds(edits, 0, |content|);
      forall i, j | 0 <= i < j < |hits| ensures hits[i].end <= hits[j].start {
        assert edits[i].end <= edits[j].start;
      }
    }
    if Disjoint(hits) {
      forall i | 0 <= i < |hits| ensures hits[i].start < hits[i].end <= |content| {
        HitSpan(content, Finds(rules), hits[i]);
      }
      InOrderFrom(edits, 0, |content|);
    }
  }

  lemma DisjointIsClear(content: string, rules: seq<Rule>)
    ensures Disjoint(Located(content, Finds(rules))) <==> Clear(content, rules)
  {
    var needles := Finds(rules);
    var hits := Located(content, needles);
    LocatedIs(content, needles);
    if Disjoint(hits) {
      forall i, j, p, q | 0 <= i < |rules| && 0 <= j < |rules| && i != j
                          && p in Greedy(content, rules[i].find, 0) && q in Greedy(content, rules[j].find, 0)
        ensures p + |rules[i].find| <= q || q + |rules[j].find| <= p
      {
        var left, right := Hit(p, p + |rules[i].find|, i), Hit(q, q + |rules[j].find|, j);
        assert left in hits && right in hits;
      }
    }
    if Clear(content, rules) {
      forall a, b | 0 <= a < b < |hits| ensures hits[a].end <= hits[b].start {
        var left, right := hits[a], hits[b];
        assert left in hits && right in hits && Before(left, right);
        HitSpan(content, needles, left);
        HitSpan(content, needles, right);
        if left.rule == right.rule {
          SameRuleApart(content, needles[left.rule], left.start, right.start);
        }
      }
    }
  }

  lemma SameRuleApart(text: string, needle: string, left: nat, right: nat)
    requires left in Greedy(text, needle, 0) && right in Greedy(text, needle, 0) && left < right
    ensures left + |needle| <= right
  {
    GreedyMatches(text, needle, 0);
    var found := Greedy(text, needle, 0);
    var i :| 0 <= i < |found| && found[i] == left;
    var j :| 0 <= j < |found| && found[j] == right;
    assert Apart(found, |needle|);
  }

  /** Substitution succeeds exactly when each rule matches as declared and none overlap. */
  lemma SubstituteSucceeds(content: string, rules: seq<Rule>)
    ensures Substitute(content, rules).Ok? <==>
              && (forall k | 0 <= k < |rules| :: |Greedy(content, rules[k].find, 0)| == rules[k].count)
              && Clear(content, rules)
  {
    var hits := Located(content, Finds(rules));
    InOrderIsDisjoint(content, rules, hits);
    DisjointIsClear(content, rules);
    forall k | 0 <= k < |rules| ensures CountRule(hits, k) == |Greedy(content, rules[k].find, 0)| {
      CountLocated(content, Finds(rules), k);
    }
  }
}
