/**
 `reverse_rendered` in full: the map of places written, the map of places found,
 what was chosen and what was missing, and the file written back around it.
 */
module Reverser {
  import opened Wrappers
  import opened Render
  import opened RenderInverse
  import opened RenderLines
  import opened Occurrences
  import opened Renderer

  // ---- the specification ------------------------------------------------------------------

  /** The hits that `mask` marks. */
  function Picked(hits: seq<Hit>, mask: seq<bool>): (picked: seq<Hit>)
    requires |mask| == |hits|
    ensures forall hit :: hit in picked <==> exists i :: 0 <= i < |hits| && mask[i] && hits[i] == hit
  {
    if hits == [] then []
    else
      var last := |hits| - 1;
      var rest := Picked(hits[..last], mask[..last]);
      assert hits == hits[..last] + [hits[last]];
      if mask[last] then rest + [hits[last]] else rest
  }

  /** Which of the values found are taken back. */
  ghost function TakenMask(sides: Sides, rules: seq<Rule>): seq<bool>
    requires sides.Valid() && forall i | 0 <= i < |sides.found| :: sides.found[i].rule < |rules|
  {
    seq(|sides.found|, i requires 0 <= i < |sides.found| => sides.TakenBack(rules, i))
  }

  ghost predicate SidesFit(sides: Sides, rules: seq<Rule>) {
    && sides.Valid() && AllHits(sides.current, Values(rules), sides.found)
    && (forall i | 0 <= i < |sides.found| :: sides.found[i].rule < |rules|)
    && (forall i | 0 <= i < |sides.spans| :: sides.spans[i].rule < |rules|)
  }

  lemma PickedAreHits(content: string, values: seq<string>, hits: seq<Hit>, mask: seq<bool>)
    requires |mask| == |hits| && AllHits(content, values, hits)
    ensures AllHits(content, values, Picked(hits, mask))
  {
    var picked := Picked(hits, mask);
    forall i | 0 <= i < |picked| ensures IsHit(content, values, picked[i]) { assert picked[i] in picked; }
  }

  /** The file with each value taken back replaced by what the render found there. */
  ghost function TakenOut(sides: Sides, rules: seq<Rule>): string
    requires SidesFit(sides, rules)
  {
    PickedAreHits(sides.current, Values(rules), sides.found, TakenMask(sides, rules));
    SwapHits(sides.current, Values(rules), Finds(rules), Picked(sides.found, TakenMask(sides, rules)))
  }

  lemma SidesOfFit(committed: string, rules: seq<Rule>, current: string)
    requires Substitute(committed, rules).Ok?
    ensures SidesFit(SidesOf(committed, rules, current), rules)
  {
    var sides, values := SidesOf(committed, rules, current), Values(rules);
    LocatedAreHits(current, values);
    forall i | 0 <= i < |sides.found| ensures sides.found[i].start <= sides.found[i].end <= |current| {
      HitSpan(current, values, sides.found[i]);
    }
  }

  // ---- counting places --------------------------------------------------------------------

  function Places(content: string, hits: seq<Hit>): seq<Place>
    requires forall i | 0 <= i < |hits| :: hits[i].start <= hits[i].end <= |content|
  {
    seq(|hits|, i requires 0 <= i < |hits| => PlaceIn(content, hits[i]))
  }

  function Count<T(==)>(items: seq<T>, item: T): nat {
    if items == [] then 0 else (if items[0] == item then 1 else 0) + Count(items[1..], item)
  }

  lemma {:induction false} CountPlaces(content: string, hits: seq<Hit>, place: Place)
    requires Within(content, hits)
    ensures CountAt(content, hits, place) == Count(Places(content, hits), place)
    decreases |hits|
  {
    if hits != [] {
      assert forall k | 0 <= k < |hits[1..]| :: hits[1..][k] == hits[k + 1];
      CountPlaces(content, hits[1..], place);
      assert Places(content, hits)[1..] == Places(content, hits[1..]);
    }
  }

  lemma {:induction false} CountSnoc<T>(items: seq<T>, last: T, item: T)
    ensures Count(items + [last], item) == Count(items, item) + if last == item then 1 else 0
  {
    if items != [] {
      CountSnoc(items[1..], last, item);
      assert (items + [last])[1..] == items[1..] + [last];
    }
  }

  lemma {:induction false} NoneCounted<T>(items: seq<T>, item: T)
    ensures Count(items, item) > 0 <==> item in items
  {
    if items != [] {
      NoneCounted(items[1..], item);
      assert items == [items[0]] + items[1..];
    }
  }

  /** How often each item occurs. */
  ghost predicate Tallied<T(!new)>(items: seq<T>, tally: map<T, nat>) {
    && (forall item | item in tally :: tally[item] == Count(items, item))
    && (forall item :: item in items <==> item in tally)
  }

  method Tally<T(==, !new)>(items: seq<T>) returns (tally: map<T, nat>)
    ensures Tallied(items, tally)
  {
    tally := map[];
    var i := 0;
    while i < |items|
      invariant 0 <= i <= |items|
      invariant Tallied(items[..i], tally)
    {
      ghost var before := tally;
      tally := tally[items[i] := if items[i] in tally then tally[items[i]] + 1 else 1];
      assert items[..i + 1] == items[..i] + [items[i]];
      TallyMore(items[..i], items[i], before, tally);
      i := i + 1;
    }
    assert items[..i] == items;
  }

  lemma TallyMore<T(!new)>(items: seq<T>, last: T, before: map<T, nat>, after: map<T, nat>)
    requires Tallied(items, before)
    requires after == before[last := if last in before then before[last] + 1 else 1]
    ensures Tallied(items + [last], after)
  {
    forall item | item in after ensures after[item] == Count(items + [last], item) {
      CountSnoc(items, last, item);
      NoneCounted(items, item);
    }
  }

  /** Where each item occurs. */
  ghost predicate Indexed<T(!new)>(items: seq<T>, at: map<T, seq<nat>>) {
    && (forall item | item in at :: IndexesOf(items, item, at[item]))
    && (forall item :: item in items <==> item in at)
  }

  ghost predicate IndexesOf<T>(items: seq<T>, item: T, indexes: seq<nat>) {
    && |indexes| == Count(items, item)
    && (forall k: nat :: k in indexes <==> k < |items| && items[k] == item)
  }

  method Index<T(==, !new)>(items: seq<T>) returns (at: map<T, seq<nat>>)
    ensures Indexed(items, at)
  {
    at := map[];
    var i := 0;
    while i < |items|
      invariant 0 <= i <= |items|
      invariant Indexed(items[..i], at)
    {
      ghost var before := at;
      at := at[items[i] := (if items[i] in at then at[items[i]] else []) + [i]];
      assert items[..i + 1] == items[..i] + [items[i]];
      IndexMore(items[..i], items[i], before, at);
      i := i + 1;
    }
    assert items[..i] == items;
  }

  lemma IndexMore<T(!new)>(items: seq<T>, last: T, before: map<T, seq<nat>>, after: map<T, seq<nat>>)
    requires Indexed(items, before)
    requires after == before[last := (if last in before then before[last] else []) + [|items|]]
    ensures Indexed(items + [last], after)
  {
    forall item | item in after ensures IndexesOf(items + [last], item, after[item]) {
      CountSnoc(items, last, item);
      NoneCounted(items, item);
    }
  }

  // ---- choosing ---------------------------------------------------------------------------

  /** As many values stand at `place` now as were written there. */
  ghost predicate Agrees(written: seq<Place>, found: seq<Place>, place: Place) {
    Count(written, place) > 0 && Count(found, place) == Count(written, place)
  }

  /** What has been chosen once the places in `seen` have been compared. */
  ghost predicate ChosenFor(written: seq<Place>, found: seq<Place>, seen: set<Place>, chosen: seq<bool>) {
    && |chosen| == |found|
    && forall i | 0 <= i < |found| :: chosen[i] <==> found[i] in seen && Agrees(written, found, found[i])
  }

  ghost predicate MissingFor(written: seq<Place>, found: seq<Place>, seen: set<Place>, missing: seq<nat>) {
    forall rule | 0 <= rule < |missing| ::
      missing[rule] > 0 <==> exists place :: place in seen && place.rule == rule && !Agrees(written, found, place)
  }

  method Mark(chosen: seq<bool>, indexes: seq<nat>) returns (marked: seq<bool>)
    requires forall k | 0 <= k < |indexes| :: indexes[k] < |chosen|
    ensures |marked| == |chosen|
    ensures forall i: nat | i < |chosen| :: marked[i] <==> chosen[i] || i in indexes
  {
    marked := chosen;
    var k := 0;
    while k < |indexes|
      invariant 0 <= k <= |indexes| && |marked| == |chosen|
      invariant forall i: nat | i < |chosen| :: marked[i] <==> chosen[i] || i in indexes[..k]
    {
      marked := marked[indexes[k] := true];
      assert indexes[..k + 1] == indexes[..k] + [indexes[k]];
      k := k + 1;
    }
    assert indexes[..k] == indexes;
  }

  lemma Agreeing(written: seq<Place>, found: seq<Place>, tally: map<Place, nat>, at: map<Place, seq<nat>>, place: Place)
    requires Tallied(written, tally) && Indexed(found, at) && place in tally
    ensures Agrees(written, found, place) <==> place in at && |at[place]| == tally[place]
  {
    NoneCounted(written, place);
    NoneCounted(found, place);
  }

  method Choose(written: seq<Place>, found: seq<Place>, rules: nat) returns (chosen: seq<bool>, missing: seq<nat>)
    requires forall i | 0 <= i < |written| :: written[i].rule < rules
    ensures |missing| == rules
    ensures ChosenFor(written, found, (set place | place in written), chosen)
    ensures MissingFor(written, found, (set place | place in written), missing)
  {
    var tally := Tally(written);
    var at := Index(found);
    chosen := seq(|found|, i => false);
    missing := seq(rules, i => 0);
    var left, seen: set<Place> := tally.Keys, {};
    while left != {}
      invariant seen + left == tally.Keys && seen !! left
      invariant |missing| == rules
      invariant ChosenFor(written, found, seen, chosen)
      invariant MissingFor(written, found, seen, missing)
      decreases left
    {
      var place :| place in left;
      Agreeing(written, found, tally, at, place);
      assert place in written;
      if place in at && |at[place]| == tally[place] {
        ghost var before := chosen;
        assert IndexesOf(found, place, at[place]);
        forall k | 0 <= k < |at[place]| ensures at[place][k] < |chosen| { assert at[place][k] in at[place]; }
        chosen := Mark(chosen, at[place]);
        ChosenMore(written, found, seen, place, before, chosen, at[place]);
      } else {
        NoneCounted(written, place);
        ghost var before := missing;
        missing := missing[place.rule := missing[place.rule] + tally[place]];
        MissingMore(written, found, seen, place, before, missing);
      }
      seen, left := seen + {place}, left - {place};
    }
    assert seen == set place | place in written;
  }

  lemma ChosenMore(written: seq<Place>, found: seq<Place>, seen: set<Place>, place: Place,
                   before: seq<bool>, after: seq<bool>, indexes: seq<nat>)
    requires ChosenFor(written, found, seen, before) && Agrees(written, found, place)
             && IndexesOf(found, place, indexes)
    requires |after| == |before| && forall i: nat | i < |before| :: after[i] <==> before[i] || i in indexes
    ensures ChosenFor(written, found, seen + {place}, after)
  {
  }

  lemma MissingMore(written: seq<Place>, found: seq<Place>, seen: set<Place>, place: Place, before: seq<nat>,
                    after: seq<nat>)
    requires MissingFor(written, found, seen, before) && !Agrees(written, found, place)
    requires place.rule < |before| == |after| && after[place.rule] > 0
    requires forall rule | 0 <= rule < |before| && rule != place.rule :: after[rule] == before[rule]
    ensures MissingFor(written, found, seen + {place}, after)
  {
    forall rule | 0 <= rule < |after|
      ensures after[rule] > 0 <==> exists other ::
                other in seen + {place} && other.rule == rule && !Agrees(written, found, other)
    {
      if rule == place.rule { assert place in seen + {place}; }
      if other :| other in seen && other.rule == rule && !Agrees(written, found, other) {
        assert other in seen + {place};
      }
    }
  }

  lemma {:induction false} CountRuleSnoc(hits: seq<Hit>, last: Hit, rule: nat)
    ensures CountRule(hits + [last], rule) == CountRule(hits, rule) + if last.rule == rule then 1 else 0
  {
    if hits != [] {
      CountRuleSnoc(hits[1..], last, rule);
      assert (hits + [last])[1..] == hits[1..] + [last];
    }
  }

  method HitsOf(found: seq<Hit>, rule: nat) returns (hits: seq<nat>)
    ensures |hits| == CountRule(found, rule)
    ensures forall i: nat :: i in hits <==> i < |found| && found[i].rule == rule
  {
    hits := [];
    var index := 0;
    while index < |found|
      invariant 0 <= index <= |found|
      invariant |hits| == CountRule(found[..index], rule)
      invariant forall i: nat :: i in hits <==> i < index && found[i].rule == rule
    {
      CountRuleSnoc(found[..index], found[index], rule);
      assert found[..index + 1] == found[..index] + [found[index]];
      if found[index].rule == rule { hits := hits + [index]; }
      index := index + 1;
    }
    assert found[..index] == found;
  }

  /** By number: some of this rule's values are not where they were, but there are as many as declared. */
  ghost predicate Settled(found: seq<Hit>, rules: seq<Rule>, missing: seq<nat>, rule: nat)
    requires |missing| == |rules|
  {
    rule < |rules| && missing[rule] > 0 && CountRule(found, rule) == rules[rule].count
  }

  /** Some value of this rule is left where it is. */
  ghost predicate Left(found: seq<Hit>, rules: seq<Rule>, missing: seq<nat>, placed: seq<bool>, rule: nat)
    requires |missing| == |rules| && |placed| == |found|
  {
    && rule < |rules| && missing[rule] > 0 && CountRule(found, rule) != rules[rule].count
    && exists i :: 0 <= i < |found| && found[i].rule == rule && !placed[i]
  }

  ghost predicate SettledUpTo(found: seq<Hit>, rules: seq<Rule>, missing: seq<nat>, placed: seq<bool>, rule: nat,
                              chosen: seq<bool>, unplaced: seq<nat>)
    requires |missing| == |rules| && |placed| == |found|
  {
    && |chosen| == |found|
    && (forall i | 0 <= i < |found| ::
          chosen[i] <==> placed[i] || (found[i].rule < rule && Settled(found, rules, missing, found[i].rule)))
    && (forall k: nat :: k in unplaced <==> k < rule && Left(found, rules, missing, placed, k))
    && (forall i, j | 0 <= i < j < |unplaced| :: unplaced[i] < unplaced[j])
  }

  /** Values missing from where they were written, placed by their number or left alone. */
  method Settle(found: seq<Hit>, rules: seq<Rule>, placed: seq<bool>, missing: seq<nat>)
    returns (chosen: seq<bool>, unplaced: seq<nat>)
    requires |missing| == |rules| && |placed| == |found|
    ensures SettledUpTo(found, rules, missing, placed, |rules|, chosen, unplaced)
  {
    chosen, unplaced := placed, [];
    var rule := 0;
    while rule < |rules|
      invariant 0 <= rule <= |rules|
      invariant SettledUpTo(found, rules, missing, placed, rule, chosen, unplaced)
    {
      var hits := HitsOf(found, rule);
      if missing[rule] != 0 {
        forall k | 0 <= k < |hits| ensures hits[k] < |chosen| { assert hits[k] in hits; }
        if |hits| == rules[rule].count {
          chosen := Mark(chosen, hits);
        } else {
          var left := AnyLeft(hits, chosen);
          if left {
            forall k | 0 <= k < |unplaced| ensures unplaced[k] < rule { assert unplaced[k] in unplaced; }
            unplaced := unplaced + [rule];
          }
        }
      }
      rule := rule + 1;
    }
  }

  method AnyLeft(hits: seq<nat>, chosen: seq<bool>) returns (left: bool)
    requires forall k | 0 <= k < |hits| :: hits[k] < |chosen|
    ensures left <==> exists i :: i in hits && i < |chosen| && !chosen[i]
  {
    var k := 0;
    while k < |hits|
      invariant 0 <= k <= |hits|
      invariant forall i | i in hits[..k] :: i < |chosen| && chosen[i]
    {
      if !chosen[hits[k]] { return true; }
      assert hits[..k + 1] == hits[..k] + [hits[k]];
      k := k + 1;
    }
    assert hits[..k] == hits;
    left := false;
  }

  // ---- writing the file back ---------------------------------------------------------------

  lemma PickedPrefix(hits: seq<Hit>, mask: seq<bool>, i: nat)
    requires |mask| == |hits| && i < |hits|
    ensures Picked(hits[..i + 1], mask[..i + 1])
            == if mask[i] then Picked(hits[..i], mask[..i]) + [hits[i]] else Picked(hits[..i], mask[..i])
  {
    assert hits[..i + 1][..i] == hits[..i] && mask[..i + 1][..i] == mask[..i];
  }

  ghost predicate IsPrefix(some: seq<Hit>, all: seq<Hit>) {
    |some| <= |all| && some == all[..|some|]
  }

  lemma {:induction false} PickedFrom(hits: seq<Hit>, mask: seq<bool>, i: nat)
    requires |mask| == |hits| && i <= |hits|
    ensures IsPrefix(Picked(hits[..i], mask[..i]), Picked(hits, mask))
    decreases |hits| - i
  {
    if i < |hits| {
      PickedFrom(hits, mask, i + 1);
      PickedPrefix(hits, mask, i);
    } else {
      assert hits[..i] == hits && mask[..i] == mask;
    }
  }

  /** A chosen value is the next one picked. */
  lemma NextPicked(found: seq<Hit>, chosen: seq<bool>, index: nat)
    requires |chosen| == |found| && index < |found| && chosen[index]
    ensures var i := |Picked(found[..index], chosen[..index])|;
            && |Picked(found[..index + 1], chosen[..index + 1])| == i + 1
            && i < |Picked(found, chosen)| && Picked(found, chosen)[i] == found[index]
  {
    var i := |Picked(found[..index], chosen[..index])|;
    PickedPrefix(found, chosen, index);
    PickedFrom(found, chosen, index + 1);
    assert Picked(found[..index + 1], chosen[..index + 1])[i] == found[index];
  }

  /** `content` is the file up to `cursor` with the chosen values before the `index`-th taken back. */
  ghost predicate BackTo(current: string, values: seq<string>, finds: seq<string>, found: seq<Hit>, chosen: seq<bool>,
                         index: nat, cursor: nat, content: string)
  {
    && |chosen| == |found| && |values| == |finds| && AllHits(current, values, Picked(found, chosen)) && index <= |found|
    && SwappedTo(current, values, finds, Picked(found, chosen), |Picked(found[..index], chosen[..index])|, cursor,
                   content)
  }

  lemma NothingBack(current: string, values: seq<string>, finds: seq<string>, found: seq<Hit>, chosen: seq<bool>)
    requires |chosen| == |found| && |values| == |finds| && AllHits(current, values, Picked(found, chosen))
    ensures BackTo(current, values, finds, found, chosen, 0, 0, "")
  {
    NothingSwapped(current, values, finds, Picked(found, chosen));
    assert |Picked(found[..0], chosen[..0])| == 0;
  }

  lemma BackPast(current: string, values: seq<string>, finds: seq<string>, found: seq<Hit>, chosen: seq<bool>,
                 index: nat, cursor: nat, content: string)
    requires BackTo(current, values, finds, found, chosen, index, cursor, content)
    requires index < |found| && (!chosen[index] || found[index].start < cursor)
    ensures BackTo(current, values, finds, found, chosen, index + 1, cursor, content)
  {
    var picked, i := Picked(found, chosen), |Picked(found[..index], chosen[..index])|;
    if chosen[index] {
      NextPicked(found, chosen, index);
      SwappedPast(current, values, finds, picked, i, cursor, content);
    } else {
      PickedPrefix(found, chosen, index);
    }
  }

  lemma BackNext(current: string, values: seq<string>, finds: seq<string>, found: seq<Hit>, chosen: seq<bool>,
                 index: nat, hit: Hit, cursor: nat, content: string, more: string)
    requires BackTo(current, values, finds, found, chosen, index, cursor, content)
    requires index < |found| && chosen[index] && hit == found[index]
    requires cursor <= hit.start <= hit.end <= |current| && hit.rule < |finds|
    requires more == content + current[cursor..hit.start] + finds[hit.rule]
    ensures BackTo(current, values, finds, found, chosen, index + 1, hit.end, more)
  {
    var picked, i := Picked(found, chosen), |Picked(found[..index], chosen[..index])|;
    NextPicked(found, chosen, index);
    SwappedNext(current, values, finds, picked, i, cursor, content);
  }

  lemma AllBack(current: string, values: seq<string>, finds: seq<string>, found: seq<Hit>, chosen: seq<bool>,
                cursor: nat, content: string)
    requires BackTo(current, values, finds, found, chosen, |found|, cursor, content)
    ensures cursor <= |current|
            && content + current[cursor..] == SwapHits(current, values, finds, Picked(found, chosen))
  {
    assert found[..|found|] == found && chosen[..|found|] == chosen;
    AllSwapped(current, values, finds, Picked(found, chosen), cursor, content);
  }

  lemma HitFits(text: string, needles: seq<string>, hit: Hit)
    requires IsHit(text, needles, hit)
    ensures hit.start <= hit.end <= |text| && hit.rule < |needles|
  {
    HitSpan(text, needles, hit);
  }

  /** The chosen values replaced by what the render found there. */
  method WriteBack(current: string, rules: seq<Rule>, found: seq<Hit>, chosen: seq<bool>) returns (content: string)
    requires |chosen| == |found| && AllHits(current, Values(rules), found)
    ensures AllHits(current, Values(rules), Picked(found, chosen))
    ensures content == SwapHits(current, Values(rules), Finds(rules), Picked(found, chosen))
  {
    ghost var values, finds := Values(rules), Finds(rules);
    PickedAreHits(current, values, found, chosen);
    NothingBack(current, values, finds, found, chosen);
    content := "";
    var cursor: nat, index: nat := 0, 0;
    while index < |found|
      invariant 0 <= index <= |found| && cursor <= |current|
      invariant BackTo(current, values, finds, found, chosen, index, cursor, content)
    {
      var hit := found[index];
      if !chosen[index] || hit.start < cursor {
        BackPast(current, values, finds, found, chosen, index, cursor, content);
      } else {
        HitFits(current, values, hit);
        ghost var before := content;
        content := content + current[cursor..hit.start] + rules[hit.rule].find;
        BackNext(current, values, finds, found, chosen, index, hit, cursor, before, content);
        cursor := hit.end;
      }
      index := index + 1;
    }
    AllBack(current, values, finds, found, chosen, cursor, content);
    content := content + current[cursor..];
  }

  // ---- the whole of it ---------------------------------------------------------------------

  /** What the two stages found out, in the terms of the specification. */
  ghost predicate Judged(sides: Sides, rules: seq<Rule>, placed: seq<bool>, missing: seq<nat>)
    requires SidesFit(sides, rules)
  {
    && |placed| == |sides.found| && |missing| == |rules|
    && (forall i | 0 <= i < |sides.found| :: placed[i] <==> sides.Matched(PlaceIn(sides.current, sides.found[i])))
    && (forall rule: nat | rule < |rules| :: missing[rule] > 0 <==> sides.Missing(rule))
  }

  lemma AgreesIs(sides: Sides, place: Place)
    requires sides.Valid()
    ensures Agrees(Places(sides.expected, sides.spans), Places(sides.current, sides.found), place) <==>
              sides.Matched(place)
  {
    CountPlaces(sides.expected, sides.spans, place);
    CountPlaces(sides.current, sides.found, place);
  }

  lemma PlacedIs(sides: Sides, placed: seq<bool>, i: nat)
    requires sides.Valid() && i < |sides.found|
    requires var written, at := Places(sides.expected, sides.spans), Places(sides.current, sides.found);
             ChosenFor(written, at, (set place | place in written), placed)
    ensures placed[i] <==> sides.Matched(PlaceIn(sides.current, sides.found[i]))
  {
    var written, place := Places(sides.expected, sides.spans), Places(sides.current, sides.found)[i];
    AgreesIs(sides, place);
    NoneCounted(written, place);
  }

  lemma MissingShows(sides: Sides, place: Place)
    requires sides.Valid() && place in Places(sides.expected, sides.spans) && !sides.Matched(place)
    ensures sides.Missing(place.rule)
  {
    var written := Places(sides.expected, sides.spans);
    var i :| 0 <= i < |written| && written[i] == place;
    assert PlaceIn(sides.expected, sides.spans[i]) == place;
  }

  lemma MissingHas(sides: Sides, rule: nat) returns (place: Place)
    requires sides.Valid() && sides.Missing(rule)
    ensures place in Places(sides.expected, sides.spans) && place.rule == rule && !sides.Matched(place)
  {
    var i :| 0 <= i < |sides.spans| && sides.spans[i].rule == rule
        && !sides.Matched(PlaceIn(sides.expected, sides.spans[i]));
    place := PlaceIn(sides.expected, sides.spans[i]);
    assert Places(sides.expected, sides.spans)[i] == place;
  }

  lemma MissingIs(sides: Sides, written: seq<Place>, at: seq<Place>, missing: seq<nat>, rule: nat)
    requires sides.Valid() && rule < |missing|
    requires written == Places(sides.expected, sides.spans) && at == Places(sides.current, sides.found)
    requires MissingFor(written, at, (set place | place in written), missing)
    ensures missing[rule] > 0 <==> sides.Missing(rule)
  {
    if missing[rule] > 0 {
      var place :| place in (set place | place in written) && place.rule == rule && !Agrees(written, at, place);
      AgreesIs(sides, place);
      MissingShows(sides, place);
    }
    if sides.Missing(rule) {
      var place := MissingHas(sides, rule);
      AgreesIs(sides, place);
      assert place in (set place | place in written);
    }
  }

  lemma BothJudged(sides: Sides, rules: seq<Rule>, placed: seq<bool>, missing: seq<nat>)
    requires SidesFit(sides, rules) && |missing| == |rules|
    requires var written, at := Places(sides.expected, sides.spans), Places(sides.current, sides.found);
             && ChosenFor(written, at, (set place | place in written), placed)
             && MissingFor(written, at, (set place | place in written), missing)
    ensures Judged(sides, rules, placed, missing)
  {
    forall i | 0 <= i < |sides.found| ensures placed[i] <==> sides.Matched(PlaceIn(sides.current, sides.found[i])) {
      PlacedIs(sides, placed, i);
    }
    forall rule: nat | rule < |rules| ensures missing[rule] > 0 <==> sides.Missing(rule) {
      MissingIs(sides, Places(sides.expected, sides.spans), Places(sides.current, sides.found), missing, rule);
    }
  }

  lemma ChosenAreTaken(sides: Sides, rules: seq<Rule>, placed: seq<bool>, missing: seq<nat>, chosen: seq<bool>,
                       unplaced: seq<nat>)
    requires SidesFit(sides, rules) && Judged(sides, rules, placed, missing)
    requires SettledUpTo(sides.found, rules, missing, placed, |rules|, chosen, unplaced)
    ensures chosen == TakenMask(sides, rules)
    ensures forall rule: nat :: rule in unplaced <==> sides.Unplaced(rules, rule)
  {
    forall i | 0 <= i < |sides.found| ensures chosen[i] <==> sides.TakenBack(rules, i) {
      assert placed[i] <==> sides.Matched(PlaceIn(sides.current, sides.found[i]));
      assert missing[sides.found[i].rule] > 0 <==> sides.Missing(sides.found[i].rule);
    }
    forall rule: nat ensures rule in unplaced <==> sides.Unplaced(rules, rule) {
      LeftIsUnplaced(sides, rules, placed, missing, rule);
    }
  }

  lemma LeftIsUnplaced(sides: Sides, rules: seq<Rule>, placed: seq<bool>, missing: seq<nat>, rule: nat)
    requires SidesFit(sides, rules) && Judged(sides, rules, placed, missing)
    ensures Left(sides.found, rules, missing, placed, rule) <==> sides.Unplaced(rules, rule)
  {
    if rule < |rules| && missing[rule] > 0 && CountRule(sides.found, rule) != rules[rule].count {
      forall i | 0 <= i < |sides.found| && sides.found[i].rule == rule
        ensures !placed[i] <==> !sides.TakenBack(rules, i)
      {
      }
    }
  }

  /** What undoing the render did to the file, and the rules it could not place. */
  datatype Reversed = Reversed(content: string, unplaced: seq<nat>)

  /** The file without the render: `Reverse` where it cannot be repeated, `TakenOut` where it can. */
  method ReverseRendered(current: string, committed: string, rules: seq<Rule>)
    returns (done: Reversed, ghost taken: seq<Hit>)
    ensures Substitute(committed, rules).Err? ==> done == Reversed(Reverse(current, rules), [])
    ensures Substitute(committed, rules).Ok? ==>
              var sides := SidesOf(committed, rules, current);
              && SidesFit(sides, rules) && done.content == TakenOut(sides, rules)
              && AreRendered(committed, rules, current, taken)
              && done.content == SwapHits(current, Values(rules), Finds(rules), taken)
              && (forall rule: nat :: rule in done.unplaced <==>
                    exists hit: Hit :: hit.rule == rule && LeftThere(committed, rules, current, hit))
              && (forall i, j | 0 <= i < j < |done.unplaced| :: done.unplaced[i] < done.unplaced[j])
  {
    var substituted := SubstituteSpans(committed, rules);
    if substituted.None? {
      var content := Swap(current, Values(rules), Finds(rules));
      return Reversed(content, []), [];
    }
    var (expected, spans) := substituted.value;
    var found := Locate(current, Values(rules));
    ghost var sides := SidesOf(committed, rules, current);
    SidesOfFit(committed, rules, current);
    var written, at := Places(expected, spans), Places(current, found);
    var placed, missing := Choose(written, at, |rules|);
    var chosen, unplaced := Settle(found, rules, placed, missing);
    BothJudged(sides, rules, placed, missing);
    ChosenAreTaken(sides, rules, placed, missing, chosen, unplaced);
    var content := WriteBack(current, rules, found, chosen);
    done, taken := Reversed(content, unplaced), Picked(found, chosen);
    TakenAreRendered(committed, rules, current);
    forall rule: nat { UnplacedIsLeft(committed, rules, current, rule); }
  }

  /** Every occurrence that is the render's, in order, and no other. */
  ghost predicate AreRendered(committed: string, rules: seq<Rule>, current: string, taken: seq<Hit>)
    requires Substitute(committed, rules).Ok?
  {
    && AllHits(current, Values(rules), taken) && Sorted(taken)
    && forall hit :: hit in taken <==> TheRenders(committed, rules, current, hit)
  }

  lemma {:induction false} PickedSorted(hits: seq<Hit>, mask: seq<bool>)
    requires |mask| == |hits| && Sorted(hits)
    ensures Sorted(Picked(hits, mask))
    decreases |hits|
  {
    if hits != [] {
      var last := |hits| - 1;
      PickedSorted(hits[..last], mask[..last]);
      forall hit | hit in Picked(hits[..last], mask[..last]) ensures Before(hit, hits[last]) {
        var k :| 0 <= k < last && mask[..last][k] && hits[..last][k] == hit;
        assert hits[k] == hit;
      }
      var rest := Picked(hits[..last], mask[..last]);
      forall i | 0 <= i < |rest| ensures Before(rest[i], hits[last]) { assert rest[i] in rest; }
    }
  }

  /** What is taken out of the file is exactly what is the render's in it. */
  lemma TakenAreRendered(committed: string, rules: seq<Rule>, current: string)
    requires Substitute(committed, rules).Ok? && SidesFit(SidesOf(committed, rules, current), rules)
    ensures var sides := SidesOf(committed, rules, current);
            AreRendered(committed, rules, current, Picked(sides.found, TakenMask(sides, rules)))
  {
    var sides := SidesOf(committed, rules, current);
    var mask := TakenMask(sides, rules);
    PickedAreHits(current, Values(rules), sides.found, mask);
    LocatedIs(current, Values(rules));
    PickedSorted(sides.found, mask);
    forall i: nat | i < |sides.found| ensures mask[i] <==> TheRenders(committed, rules, current, sides.found[i]) {
      TakenIsRenders(committed, rules, current, i);
    }
    RenderedPicked(committed, rules, current, sides.found, mask);
  }

  lemma RenderedPicked(committed: string, rules: seq<Rule>, current: string, found: seq<Hit>, mask: seq<bool>)
    requires Substitute(committed, rules).Ok? && |mask| == |found| && found == Located(current, Values(rules))
    requires forall i | 0 <= i < |found| :: mask[i] <==> TheRenders(committed, rules, current, found[i])
    ensures forall hit :: hit in Picked(found, mask) <==> TheRenders(committed, rules, current, hit)
  {
    forall hit ensures hit in Picked(found, mask) <==> TheRenders(committed, rules, current, hit) {
      if TheRenders(committed, rules, current, hit) {
        LocatedIs(current, Values(rules));
        var i :| 0 <= i < |found| && found[i] == hit;
      }
    }
  }

  /**
   A file whose rendered lines were all edited, and which has no value as often as
   declared, is left as it is, whatever it holds; its values are unplaced.
   */
  lemma EditedStays(committed: string, rules: seq<Rule>, current: string)
    requires Substitute(committed, rules).Ok? && forall k: nat | k < |rules| :: !Counted(rules, current, k)
    requires forall hit: Hit | IsHit(current, Values(rules), hit) && hit.start <= hit.end <= |current| ::
               !RenderedLine(Substitute(committed, rules).value, Spans(committed, rules), PlaceIn(current, hit).line)
    ensures var sides := SidesOf(committed, rules, current);
            SidesFit(sides, rules) && TakenOut(sides, rules) == current
    ensures forall hit: Hit | IsHit(current, Values(rules), hit) && Astray(committed, rules, current, hit.rule)
                              && hit.start <= hit.end <= |current| ::
              LeftThere(committed, rules, current, hit)
  {
    var sides := SidesOf(committed, rules, current);
    SidesOfFit(committed, rules, current);
    forall hit: Hit | IsHit(current, Values(rules), hit) && hit.start <= hit.end <= |current|
      ensures !AsWritten(committed, rules, current, PlaceIn(current, hit))
    {
      NowhereWritten(committed, rules, current, PlaceIn(current, hit));
    }
    forall i: nat | i < |sides.found| ensures !sides.TakenBack(rules, i) {
      TakenIsRenders(committed, rules, current, i);
      assert IsHit(current, Values(rules), sides.found[i]);
    }
    NothingTaken(sides, rules);
  }

  lemma NowhereWritten(committed: string, rules: seq<Rule>, current: string, place: Place)
    requires Substitute(committed, rules).Ok?
    requires !RenderedLine(Substitute(committed, rules).value, Spans(committed, rules), place.line)
    ensures !AsWritten(committed, rules, current, place)
  {
    assert WrittenAt(committed, rules, place) == {};
  }

  lemma NothingTaken(sides: Sides, rules: seq<Rule>)
    requires SidesFit(sides, rules) && forall i | 0 <= i < |sides.found| :: !sides.TakenBack(rules, i)
    ensures TakenOut(sides, rules) == sides.current
  {
    var picked := Picked(sides.found, TakenMask(sides, rules));
    NonePicked(sides.found, TakenMask(sides, rules));
    SwapNothing(sides.current, Values(rules), Finds(rules), picked);
  }

  lemma {:induction false} NonePicked(hits: seq<Hit>, mask: seq<bool>)
    requires |mask| == |hits| && forall i | 0 <= i < |mask| :: !mask[i]
    ensures Picked(hits, mask) == []
    decreases |hits|
  {
    if hits != [] { NonePicked(hits[..|hits| - 1], mask[..|hits| - 1]); }
  }

  lemma SwapNothing(content: string, from: seq<string>, to: seq<string>, hits: seq<Hit>)
    requires |from| == |to| && hits == []
    ensures SwapHits(content, from, to, hits) == content
  {
    assert content[0..] == content;
  }

  // ---- what that does to the file ----------------------------------------------------------

  /** A value on a line of the rendered text is one the render wrote. */
  lemma StandsInExpected(sides: Sides, rules: seq<Rule>, at: nat, rule: nat, column: nat)
    requires Comparable(sides, rules, Values(rules)) && rule < |rules|
    requires at <= |sides.expected| && IsLineStart(sides.expected, at)
    requires MatchAt(LineAt(sides.expected, at), rules[rule].value, column)
    ensures Hit(at + column, at + column + |rules[rule].value|, rule) in sides.spans
  {
    var value := rules[rule].value;
    LineHolds(sides.expected, at, value, column, rule);
    assert IsValueAt(sides.expected, Values(rules), Hit(at + column, at + column + |value|, rule));
  }

  /** No two values overlap on a rendered line. */
  lemma ColumnsApart(sides: Sides, rules: seq<Rule>, line: string, rule: nat, column: nat, other: nat, further: nat)
    requires Comparable(sides, rules, Values(rules)) && Disjoint(sides.spans) && Invertible(rules)
    requires RenderedLine(sides.expected, sides.spans, line) && rule < |rules| && other < |rules|
    requires MatchAt(line, rules[rule].value, column) && MatchAt(line, rules[other].value, further)
    requires column <= further && (rule != other || column != further)
    ensures column + |rules[rule].value| <= further
  {
    var at := LineInExpected(sides, rules, line);
    StandsInExpected(sides, rules, at, rule, column);
    StandsInExpected(sides, rules, at, other, further);
    TwoSpans(sides.spans, Hit(at + column, at + column + |rules[rule].value|, rule),
             Hit(at + further, at + further + |rules[other].value|, other));
    assert rules[other].value != "";
  }

  lemma SameStart(content: string, left: Hit, right: Hit, value: string)
    requires MatchAt(content, value, left.start) && left.end == left.start + |value| && NewlineFree(value)
    requires left.start <= right.start < left.end
    ensures LineStart(content, right.start) == LineStart(content, left.start)
  {
    var start := LineStart(content, left.start);
    forall k | start <= k < right.start ensures content[k] != '\n' {
      if k >= left.start { assert content[k] == value[k - left.start]; }
    }
    SameLineStart(content, start, right.start);
  }

  /** Where a value stands on its line. */
  ghost predicate Stands(hit: Hit, place: Place, start: nat, value: string) {
    hit.start == start + place.column && MatchAt(place.line, value, place.column)
  }

  /** Overlapping values stand on one line. */
  lemma SameLine(content: string, left: Hit, right: Hit, value: string, other: string) returns (start: nat)
    requires MatchAt(content, value, left.start) && left.end == left.start + |value| && NewlineFree(value)
    requires MatchAt(content, other, right.start) && right.end == right.start + |other| && NewlineFree(other)
    requires left.start <= right.start < left.end
    ensures PlaceIn(content, left).line == PlaceIn(content, right).line
    ensures Stands(left, PlaceIn(content, left), start, value) && Stands(right, PlaceIn(content, right), start, other)
  {
    MatchOnLine(content, left, value);
    MatchOnLine(content, right, other);
    SameStart(content, left, right, value);
    start := LineStart(content, left.start);
  }

  lemma LineInExpected(sides: Sides, rules: seq<Rule>, line: string) returns (at: nat)
    requires Comparable(sides, rules, Values(rules)) && RenderedLine(sides.expected, sides.spans, line)
    ensures at <= |sides.expected| && IsLineStart(sides.expected, at) && LineAt(sides.expected, at) == line
  {
    RenderedLineStarts(sides, rules, Values(rules), line);
    at :| at in StartsOfLine(sides.expected, line);
  }

  /** On rendered lines no two values overlap. */
  lemma RenderedApart(sides: Sides, rules: seq<Rule>, left: Hit, right: Hit)
    requires Comparable(sides, rules, Values(rules)) && Disjoint(sides.spans) && Invertible(rules)
    requires IsValueAt(sides.current, Values(rules), left) && IsValueAt(sides.current, Values(rules), right)
    requires left.start <= right.start && (left.rule != right.rule || left.start != right.start)
    requires left.start <= left.end <= |sides.current|
    requires RenderedLine(sides.expected, sides.spans, PlaceIn(sides.current, left).line)
    ensures left.end <= right.start
  {
    if right.start < left.end {
      var value, other := rules[left.rule].value, rules[right.rule].value;
      var start := SameLine(sides.current, left, right, value, other);
      var place, further := PlaceIn(sides.current, left), PlaceIn(sides.current, right);
      ColumnsApart(sides, rules, place.line, left.rule, place.column, right.rule, further.column);
    }
  }

  lemma TwoSpans(spans: seq<Hit>, left: Hit, right: Hit)
    requires Disjoint(spans) && left in spans && right in spans && left != right
    ensures left.end <= right.start || right.end <= left.start
  {
    var i :| 0 <= i < |spans| && spans[i] == left;
    var j :| 0 <= j < |spans| && spans[j] == right;
  }

  /** Every value in the file that stands on a rendered line, in order. */
  ghost predicate OnRenderedLines(sides: Sides, picked: seq<Hit>)
    requires sides.Valid()
  {
    && Disjoint(picked)
    && forall hit: Hit | hit.start <= hit.end <= |sides.current| ::
         hit in picked <==>
           hit in sides.found && RenderedLine(sides.expected, sides.spans, PlaceIn(sides.current, hit).line)
  }

  lemma {:induction false} PickedInOrder(hits: seq<Hit>, mask: seq<bool>)
    requires |mask| == |hits|
    requires forall i, j | 0 <= i < j < |hits| && mask[i] && mask[j] :: hits[i].end <= hits[j].start
    ensures Disjoint(Picked(hits, mask))
    decreases |hits|
  {
    if hits != [] {
      var last := |hits| - 1;
      PickedInOrder(hits[..last], mask[..last]);
      var rest := Picked(hits[..last], mask[..last]);
      if mask[last] {
        forall i | 0 <= i < |rest| ensures rest[i].end <= hits[last].start {
          assert rest[i] in rest;
          var k :| 0 <= k < last && mask[..last][k] && hits[..last][k] == rest[i];
          assert mask[k] && hits[k] == rest[i];
        }
      }
    }
  }

  /** The values on rendered lines are put back, in order, and nothing else is changed. */
  ghost predicate PutBack(sides: Sides, rules: seq<Rule>, picked: seq<Hit>)
    requires SidesFit(sides, rules)
  {
    && OnRenderedLines(sides, picked)
    && (forall i | 0 <= i < |picked| :: picked[i].rule < |rules|)
    && InOrder(Edits(picked, Finds(rules)), 0, |sides.current|)
    && TakenOut(sides, rules) == Apply(sides.current, Edits(picked, Finds(rules)), 0)
  }

  /**
   On a file whose rendered lines were kept, undoing the render puts back what
   it found at each of its spans, and changes nothing else.
   */
  lemma RestoredAtSpans(committed: string, rules: seq<Rule>, expected: string, current: string)
    requires Composed(committed, rules) == Ok(expected) && Invertible(rules)
    requires forall k | 0 <= k < |rules| :: NewlineFree(rules[k].value)
    requires RenderedLinesKept(expected, Spans(committed, rules), current)
    ensures var sides := SidesOf(committed, rules, current);
            SidesFit(sides, rules) && PutBack(sides, rules, Picked(sides.found, TakenMask(sides, rules)))
  {
    var sides := SidesOf(committed, rules, current);
    SidesOfFit(committed, rules, current);
    TakesWhatIsRendered(committed, rules, expected, current);
    CanCompare(committed, rules, expected, current);
    SpansApart(committed, rules, expected);
    LocatedIs(current, Values(rules));
    RestoredPicked(sides, rules, TakenMask(sides, rules));
  }

  /** The values taken back are those on rendered lines. */
  ghost predicate TakesRendered(sides: Sides, mask: seq<bool>)
    requires sides.Valid()
  {
    && |mask| == |sides.found|
    && forall i | 0 <= i < |mask| ::
         mask[i] <==> RenderedLine(sides.expected, sides.spans, PlaceIn(sides.current, sides.found[i]).line)
  }

  lemma TakesWhatIsRendered(committed: string, rules: seq<Rule>, expected: string, current: string)
    requires Composed(committed, rules) == Ok(expected) && Invertible(rules)
    requires forall k | 0 <= k < |rules| :: NewlineFree(rules[k].value)
    requires RenderedLinesKept(expected, Spans(committed, rules), current)
    requires SidesFit(SidesOf(committed, rules, current), rules)
    ensures var sides := SidesOf(committed, rules, current); TakesRendered(sides, TakenMask(sides, rules))
  {
    OnlyRenderedLines(committed, rules, expected, current);
    MaskTakes(SidesOf(committed, rules, current), rules, expected);
  }

  lemma MaskTakes(sides: Sides, rules: seq<Rule>, expected: string)
    requires SidesFit(sides, rules) && expected == sides.expected
    requires forall i | 0 <= i < |sides.found| ::
               sides.TakenBack(rules, i) <==>
                 RenderedLine(expected, sides.spans, PlaceIn(sides.current, sides.found[i]).line)
    ensures TakesRendered(sides, TakenMask(sides, rules))
  {
  }

  /** Where exactly the values on rendered lines are taken back, they are restored in order. */
  lemma RestoredPicked(sides: Sides, rules: seq<Rule>, mask: seq<bool>)
    requires SidesFit(sides, rules) && mask == TakenMask(sides, rules) && TakesRendered(sides, mask)
    requires Comparable(sides, rules, Values(rules)) && Disjoint(sides.spans) && Invertible(rules)
             && Sorted(sides.found)
    ensures PutBack(sides, rules, Picked(sides.found, mask))
  {
    var picked := Picked(sides.found, mask);
    TakenApart(sides, rules, mask);
    PickedRendered(sides, rules, mask, picked);
    PickedAreHits(sides.current, Values(rules), sides.found, mask);
    NothingKeptOut(sides.current, Values(rules), Finds(rules), picked);
  }

  lemma PickedRendered(sides: Sides, rules: seq<Rule>, mask: seq<bool>, picked: seq<Hit>)
    requires SidesFit(sides, rules) && TakesRendered(sides, mask) && picked == Picked(sides.found, mask)
             && Disjoint(picked)
    ensures OnRenderedLines(sides, picked) && forall i | 0 <= i < |picked| :: picked[i].rule < |rules|
  {
    forall i | 0 <= i < |picked| ensures picked[i].rule < |rules| { assert picked[i] in picked; }
  }

  lemma NothingKeptOut(content: string, from: seq<string>, to: seq<string>, hits: seq<Hit>)
    requires |from| == |to| && AllHits(content, from, hits) && Disjoint(hits)
    ensures InOrder(Edits(hits, to), 0, |content|)
            && SwapHits(content, from, to, hits) == Apply(content, Edits(hits, to), 0)
  {
    KeptInOrder(content, from, hits, to, 0);
    NothingPassedOver(hits, 0);
  }

  lemma CanCompare(committed: string, rules: seq<Rule>, expected: string, current: string)
    requires Composed(committed, rules) == Ok(expected) && Invertible(rules)
    requires forall k | 0 <= k < |rules| :: NewlineFree(rules[k].value)
    requires RenderedLinesKept(expected, Spans(committed, rules), current)
    ensures Comparable(SidesOf(committed, rules, current), rules, Values(rules))
  {
    SpansAreLocated(committed, rules, expected);
    LocatedFindsAll(expected, rules);
    LocatedFindsAll(current, rules);
  }

  lemma TakenApart(sides: Sides, rules: seq<Rule>, mask: seq<bool>)
    requires Comparable(sides, rules, Values(rules)) && Disjoint(sides.spans) && Invertible(rules)
    requires Sorted(sides.found) && TakesRendered(sides, mask)
    ensures Disjoint(Picked(sides.found, mask))
  {
    forall i, j | 0 <= i < j < |sides.found| && mask[i] && mask[j] ensures sides.found[i].end <= sides.found[j].start {
      assert Before(sides.found[i], sides.found[j]);
      assert IsValueAt(sides.current, Values(rules), sides.found[i])
             && IsValueAt(sides.current, Values(rules), sides.found[j]);
      RenderedApart(sides, rules, sides.found[i], sides.found[j]);
    }
    PickedInOrder(sides.found, mask);
  }

  lemma SpansApart(committed: string, rules: seq<Rule>, expected: string)
    requires Composed(committed, rules) == Ok(expected) && Invertible(rules)
    ensures Disjoint(Spans(committed, rules))
  {
    var hits, edits, undo := RenderedIs(committed, rules, expected);
    WrittenAfter(committed, rules, expected, hits, edits, undo);
  }

  lemma {:induction false} AllPicked(hits: seq<Hit>, mask: seq<bool>)
    requires |mask| == |hits| && forall i | 0 <= i < |mask| :: mask[i]
    ensures Picked(hits, mask) == hits
    decreases |hits|
  {
    if hits != [] { AllPicked(hits[..|hits| - 1], mask[..|hits| - 1]); }
  }

  // ---- where every value is there as often as declared --------------------------------------

  /** The places of one rule's values. */
  function RulePlaces(content: string, hits: seq<Hit>, rule: nat): multiset<Place>
    requires forall i | 0 <= i < |hits| :: hits[i].start <= hits[i].end <= |content|
  {
    if hits == [] then multiset{}
    else
      assert forall i | 0 <= i < |hits[1..]| :: hits[1..][i] == hits[i + 1];
      var rest := RulePlaces(content, hits[1..], rule);
      if hits[0].rule == rule then multiset{PlaceIn(content, hits[0])} + rest else rest
  }

  lemma {:induction false} RulePlacesAre(content: string, hits: seq<Hit>, rule: nat, place: Place)
    requires Within(content, hits)
    ensures |RulePlaces(content, hits, rule)| == CountRule(hits, rule)
    ensures RulePlaces(content, hits, rule)[place] == if place.rule == rule then CountAt(content, hits, place) else 0
    decreases |hits|
  {
    if hits != [] {
      assert forall i | 0 <= i < |hits[1..]| :: hits[1..][i] == hits[i + 1];
      RulePlacesAre(content, hits[1..], rule, place);
    }
  }

  lemma SameMany<T>(some: multiset<T>, all: multiset<T>)
    requires some <= all && |some| == |all|
    ensures some == all
  {
    assert all == some + (all - some);
  }

  /** A rule's values, none missing and as many as were written, stand at the places they were written. */
  lemma NoneElsewhere(sides: Sides, i: nat)
    requires sides.Valid() && i < |sides.found| && !sides.Missing(sides.found[i].rule)
    requires CountRule(sides.found, sides.found[i].rule) == CountRule(sides.spans, sides.found[i].rule)
    ensures sides.Matched(PlaceIn(sides.current, sides.found[i]))
  {
    var rule, place := sides.found[i].rule, PlaceIn(sides.current, sides.found[i]);
    var written, now := RulePlaces(sides.expected, sides.spans, rule), RulePlaces(sides.current, sides.found, rule);
    forall at: Place ensures written[at] <= now[at] { WrittenThere(sides, rule, at); }
    RulePlacesAre(sides.expected, sides.spans, rule, place);
    RulePlacesAre(sides.current, sides.found, rule, place);
    SameMany(written, now);
    CountedOnce(sides.current, sides.found, i);
  }

  lemma WrittenThere(sides: Sides, rule: nat, at: Place)
    requires sides.Valid() && !sides.Missing(rule)
    ensures RulePlaces(sides.expected, sides.spans, rule)[at] <= RulePlaces(sides.current, sides.found, rule)[at]
  {
    RulePlacesAre(sides.expected, sides.spans, rule, at);
    RulePlacesAre(sides.current, sides.found, rule, at);
    if at.rule == rule && CountAt(sides.expected, sides.spans, at) > 0 {
      var j := SomeCounted(sides.expected, sides.spans, at);
      assert sides.Matched(PlaceIn(sides.expected, sides.spans[j]));
    }
  }

  lemma SpansCounted(committed: string, rules: seq<Rule>, rule: nat)
    requires Substitute(committed, rules).Ok? && rule < |rules|
    ensures CountRule(Spans(committed, rules), rule) == rules[rule].count
  {
    var hits, edits, undo := RenderedIs(committed, rules, Substitute(committed, rules).value);
    CountWritten(hits, undo, rule);
  }

  /**
   In a file that holds each value as often as declared, wherever its lines are
   now, every one of them is taken back and none is left unplaced.
   */
  lemma CountedAreTaken(committed: string, rules: seq<Rule>, current: string)
    requires Substitute(committed, rules).Ok?
    requires forall k | 0 <= k < |rules| :: |Greedy(current, rules[k].value, 0)| == rules[k].count
    ensures var sides := SidesOf(committed, rules, current);
            && SidesFit(sides, rules) && TakenOut(sides, rules) == Reverse(current, rules)
            && forall rule :: !sides.Unplaced(rules, rule)
  {
    var sides := SidesOf(committed, rules, current);
    SidesOfFit(committed, rules, current);
    forall k: nat | k < |rules|
      ensures CountRule(sides.found, k) == rules[k].count == CountRule(sides.spans, k)
    {
      CountLocated(current, Values(rules), k);
      SpansCounted(committed, rules, k);
    }
    forall i: nat | i < |sides.found| ensures sides.TakenBack(rules, i) {
      if !sides.Missing(sides.found[i].rule) { NoneElsewhere(sides, i); }
    }
    AllPicked(sides.found, TakenMask(sides, rules));
  }

  /** A finished file holds each value as often as declared. */
  lemma FinishedHolds(committed: string, rules: seq<Rule>, output: string)
    requires Composed(committed, rules) == Ok(output) && Invertible(rules)
    ensures forall k | 0 <= k < |rules| :: |Greedy(output, rules[k].value, 0)| == rules[k].count
  {
  }

  /**
   Taking one claim of several out of a finished file, as unbinding a resource
   does: though the lines it compares with were rendered with that claim alone,
   the file is left as the claims that remain make it, and nothing is unplaced.
   */
  lemma OneClaimTakenOut(committed: string, claims: seq<Claim>, output: string, at: nat)
    requires at < |claims|
    requires Composed(committed, Rules(claims)) == Ok(output) && Invertible(Rules(claims))
    ensures var mine, rest := claims[at].rules, Rules(claims[..at] + claims[at + 1..]);
            && Substitute(committed, mine).Ok?
            && var sides := SidesOf(committed, mine, output);
               && SidesFit(sides, mine) && (forall rule :: !sides.Unplaced(mine, rule))
               && Substitute(committed, rest) == Ok(TakenOut(sides, mine))
  {
    var before, mine, after := Rules(claims[..at]), claims[at].rules, Rules(claims[at + 1..]);
    RulesAround(claims, at);
    OneAlone(committed, before, mine, after, output);
    CountedAreTaken(committed, mine, output);
    ReverseOneClaim(committed, claims, output, at);
  }

  /** One claim of a finished render can be substituted alone, and its values stand in the file as often as declared. */
  lemma OneAlone(committed: string, before: seq<Rule>, mine: seq<Rule>, after: seq<Rule>, output: string)
    requires Composed(committed, before + mine + after) == Ok(output) && Invertible(before + mine + after)
    ensures Substitute(committed, mine).Ok?
    ensures forall k | 0 <= k < |mine| :: |Greedy(output, mine[k].value, 0)| == mine[k].count
  {
    var rules := before + mine + after;
    FinishedHolds(committed, rules, output);
    assert forall k | 0 <= k < |mine| :: mine[k] == rules[|before| + k];
    AroundMiddle(|before|, |mine|, |rules|);
    var picks, others := Middle(|before|, |mine|), Around(|before|, |mine|, |rules|);
    assert Select(rules, picks) == mine;
    ReverseSome(committed, rules, output, others, picks);
  }

  /** A file nobody edited comes back as it was committed, whatever its values hold. */
  lemma UneditedComesBack(committed: string, rules: seq<Rule>, expected: string)
    requires Composed(committed, rules) == Ok(expected) && Invertible(rules)
    ensures var sides := SidesOf(committed, rules, expected);
            SidesFit(sides, rules) && TakenOut(sides, rules) == committed && forall rule :: !sides.Unplaced(rules, rule)
  {
    FinishedHolds(committed, rules, expected);
    CountedAreTaken(committed, rules, expected);
    ReverseAll(committed, rules, expected);
  }
}
