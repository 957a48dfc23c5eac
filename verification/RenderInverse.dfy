/** Renders are exact both ways. */
module RenderInverse {
  // What a render promises: the order of claims and rules does not matter, and
  // taking values back out, all of them or one resource's, is exact.

  import opened Wrappers
  import opened Render
  import opened Sequences
  import opened Sets

  // ---- choosing some of the rules ----------------------------------------------------

  ghost predicate Chosen(picks: seq<nat>, count: nat) {
    && (forall i | 0 <= i < |picks| :: picks[i] < count)
    && (forall i, j | 0 <= i < j < |picks| :: picks[i] != picks[j])
  }

  function Select<T>(items: seq<T>, picks: seq<nat>): seq<T>
    requires forall i | 0 <= i < |picks| :: picks[i] < |items|
  {
    seq(|picks|, i requires 0 <= i < |picks| => items[picks[i]])
  }

  /** Where `rule` is among `picks`. */
  function PlaceOf(picks: seq<nat>, rule: nat): (place: nat)
    requires rule in picks
    ensures place < |picks| && picks[place] == rule
  {
    if picks[0] == rule then 0 else 1 + PlaceOf(picks[1..], rule)
  }

  /** The hits of the chosen rules, under their new numbers. */
  function Renumber(hits: seq<Hit>, picks: seq<nat>): (chosen: seq<Hit>)
    ensures forall i | 0 <= i < |chosen| :: chosen[i].rule < |picks|
  {
    if hits == [] then []
    else if hits[0].rule in picks then [hits[0].(rule := PlaceOf(picks, hits[0].rule))] + Renumber(hits[1..], picks)
    else Renumber(hits[1..], picks)
  }

  ghost predicate StrictlyAfter(hits: seq<Hit>) {
    forall i, j | 0 <= i < j < |hits| :: hits[i].start < hits[j].start
  }

  lemma {:induction false} RenumberMembers(hits: seq<Hit>, picks: seq<nat>, hit: Hit)
    requires forall i, j | 0 <= i < j < |picks| :: picks[i] != picks[j]
    ensures hit in Renumber(hits, picks) <==> hit.rule < |picks| && hit.(rule := picks[hit.rule]) in hits
    decreases |hits|
  {
    if hits != [] {
      assert hits == [hits[0]] + hits[1..];
      RenumberMembers(hits[1..], picks, hit);
      if hits[0].rule in picks {
        var place := PlaceOf(picks, hits[0].rule);
        if hit.rule < |picks| && hit.(rule := picks[hit.rule]) == hits[0] {
          assert picks[hit.rule] == picks[place];
        }
      }
    }
  }

  lemma {:induction false} RenumberSorted(hits: seq<Hit>, picks: seq<nat>)
    requires StrictlyAfter(hits)
    ensures StrictlyAfter(Renumber(hits, picks))
    ensures hits != [] ==> forall i | 0 <= i < |Renumber(hits, picks)| ::
              Renumber(hits, picks)[i].start >= hits[0].start
    decreases |hits|
  {
    if hits != [] {
      assert forall i | 0 <= i < |hits[1..]| :: hits[1..][i] == hits[i + 1];
      RenumberSorted(hits[1..], picks);
    }
  }

  /** Locating some of the needles gives their hits among all the hits. */
  lemma SelectLocated(text: string, needles: seq<string>, picks: seq<nat>)
    requires Chosen(picks, |needles|) && StrictlyAfter(Located(text, needles))
    ensures Located(text, Select(needles, picks)) == Renumber(Located(text, needles), picks)
  {
    var all, some := Located(text, needles), Located(text, Select(needles, picks));
    LocatedIs(text, needles);
    LocatedIs(text, Select(needles, picks));
    RenumberSorted(all, picks);
    forall hit ensures hit in some <==> hit in Renumber(all, picks) {
      RenumberMembers(all, picks, hit);
      if hit.rule < |picks| {
        assert IsHit(text, Select(needles, picks), hit) <==> IsHit(text, needles, hit.(rule := picks[hit.rule]));
      }
    }
    SortedUnique(some, Renumber(all, picks));
  }

  // ---- undoing some of the edits --------------------------------------------------------

  /** The edits that take each of `edits` back, where they landed in the output. */
  function Undo(content: string, edits: seq<Edit>, cursor: nat, at: nat): (undo: seq<Edit>)
    requires InOrder(edits, cursor, |content|)
    ensures |undo| == |edits|
    decreases |edits|
  {
    if edits == [] then []
    else
      InOrderEnds(edits, cursor, |content|);
      var start := at + (edits[0].start - cursor);
      var end := start + |edits[0].text|;
      [Edit(start, end, content[edits[0].start..edits[0].end])] + Undo(content, edits[1..], edits[0].end, end)
  }

  /** The edits `mask` marks. */
  function Marked(edits: seq<Edit>, mask: seq<bool>, mark: bool): seq<Edit>
    requires |mask| == |edits|
    decreases |edits|
  {
    if edits == [] then []
    else if mask[0] == mark then [edits[0]] + Marked(edits[1..], mask[1..], mark)
    else Marked(edits[1..], mask[1..], mark)
  }

  lemma {:induction false} MarkedInOrder(edits: seq<Edit>, mask: seq<bool>, mark: bool, from: nat, upto: nat)
    requires |mask| == |edits| && InOrder(edits, from, upto)
    ensures InOrder(Marked(edits, mask, mark), from, upto)
    decreases |edits|
  {
    if edits != [] {
      MarkedInOrder(edits[1..], mask[1..], mark, edits[0].end, upto);
      var rest := Marked(edits[1..], mask[1..], mark);
      if mask[0] == mark {
        assert ([edits[0]] + rest)[1..] == rest;
      } else {
        EarlierFrom(rest, from, edits[0].end, upto);
      }
    }
  }

  lemma EarlierFrom(edits: seq<Edit>, early: nat, late: nat, upto: nat)
    requires early <= late && InOrder(edits, late, upto)
    ensures InOrder(edits, early, upto)
  {
  }

  lemma Slices(text: string, a: nat, b: nat, c: nat)
    requires a <= b <= c <= |text|
    ensures text[a..c] == text[a..b] + text[b..c]
  {
  }

  lemma ApplyParts(content: string, edits: seq<Edit>, cursor: nat)
    requires InOrder(edits, cursor, |content|) && edits != []
    ensures cursor <= edits[0].start <= edits[0].end <= |content|
    ensures Apply(content, edits, cursor)
              == content[cursor..edits[0].start] + (edits[0].text + Apply(content, edits[1..], edits[0].end))
  {
    InOrderEnds(edits, cursor, |content|);
    Associate(content[cursor..edits[0].start], edits[0].text, Apply(content, edits[1..], edits[0].end));
  }

  /** Starting the cursor earlier only copies what lies between. */
  lemma ApplyEarlier(content: string, edits: seq<Edit>, early: nat, late: nat)
    requires early <= late && InOrder(edits, late, |content|)
    ensures InOrder(edits, early, |content|) && late <= |content|
    ensures Apply(content, edits, early) == content[early..late] + Apply(content, edits, late)
  {
    InOrderEnds(edits, late, |content|);
    EarlierFrom(edits, early, late, |content|);
    if edits == [] {
      Slices(content, early, late, |content|);
      assert content[early..|content|] == content[early..] && content[late..|content|] == content[late..];
    } else {
      var start := edits[0].start;
      ApplyParts(content, edits, late);
      ApplyParts(content, edits, early);
      Slices(content, early, late, start);
      Associate(content[early..late], content[late..start], edits[0].text + Apply(content, edits[1..], edits[0].end));
    }
  }

  lemma {:induction false} UndoInOrder(content: string, edits: seq<Edit>, cursor: nat, before: string)
    requires InOrder(edits, cursor, |content|)
    ensures InOrder(Undo(content, edits, cursor, |before|), |before|, |before + Apply(content, edits, cursor)|)
    decreases |edits|
  {
    if edits != [] {
      InOrderEnds(edits, cursor, |content|);
      var edit := edits[0];
      var written := before + content[cursor..edit.start] + edit.text;
      UndoInOrder(content, edits[1..], edit.end, written);
      assert before + Apply(content, edits, cursor) == written + Apply(content, edits[1..], edit.end);
      assert Undo(content, edits, cursor, |before|)[1..] == Undo(content, edits[1..], edit.end, |written|);
    }
  }

  lemma ApplyCons(content: string, edit: Edit, rest: seq<Edit>, cursor: nat)
    requires cursor <= edit.start <= edit.end && InOrder(rest, edit.end, |content|)
    ensures InOrder([edit] + rest, cursor, |content|) && edit.end <= |content|
    ensures Apply(content, [edit] + rest, cursor)
              == content[cursor..edit.start] + (edit.text + Apply(content, rest, edit.end))
  {
    assert ([edit] + rest)[1..] == rest;
    InOrderEnds(rest, edit.end, |content|);
    ApplyParts(content, [edit] + rest, cursor);
  }

  /** Applying `undo` to `output` from `at` gives what applying `kept` to `content` from `cursor` does. */
  ghost predicate Undoes(output: string, undo: seq<Edit>, at: nat, content: string, kept: seq<Edit>, cursor: nat) {
    && InOrder(undo, at, |output|) && InOrder(kept, cursor, |content|)
    && Apply(output, undo, at) == Apply(content, kept, cursor)
  }

  /** Undoing an edit gives back what stood between the cursor and its end. */
  lemma UndoTaken(content: string, output: string, edit: Edit, taken: Edit, undo: seq<Edit>, kept: seq<Edit>,
                  cursor: nat, at: nat)
    requires cursor <= edit.start <= edit.end <= |content| && at <= taken.start <= taken.end <= |output|
    requires taken.text == content[edit.start..edit.end] && output[at..taken.start] == content[cursor..edit.start]
    requires Undoes(output, undo, taken.end, content, kept, edit.end)
    ensures Undoes(output, [taken] + undo, at, content, kept, cursor)
  {
    ApplyCons(output, taken, undo, at);
    ApplyEarlier(content, kept, cursor, edit.end);
    Slices(content, cursor, edit.start, edit.end);
    Associate(content[cursor..edit.start], taken.text, Apply(content, kept, edit.end));
  }

  /** An edit left alone stands in the output as it was written. */
  lemma UndoLeft(content: string, output: string, edit: Edit, taken: Edit, undo: seq<Edit>, kept: seq<Edit>,
                 cursor: nat, at: nat)
    requires cursor <= edit.start <= edit.end <= |content| && at <= taken.start <= taken.end <= |output|
    requires output[at..taken.start] == content[cursor..edit.start] && output[taken.start..taken.end] == edit.text
    requires Undoes(output, undo, taken.end, content, kept, edit.end)
    ensures Undoes(output, undo, at, content, [edit] + kept, cursor)
  {
    ApplyCons(content, edit, kept, cursor);
    ApplyEarlier(output, undo, at, taken.end);
    Slices(output, at, taken.start, taken.end);
    Associate(output[at..taken.start], edit.text, Apply(output, undo, taken.end));
  }

  /** What the first edit left in the output, and what follows it. */
  lemma OutputParts(content: string, edits: seq<Edit>, cursor: nat, before: string)
    requires InOrder(edits, cursor, |content|) && edits != []
    ensures cursor <= edits[0].start <= edits[0].end <= |content|
    ensures var copied := content[cursor..edits[0].start];
            var output, written := before + Apply(content, edits, cursor), before + copied + edits[0].text;
            && output == written + Apply(content, edits[1..], edits[0].end)
            && |before| + |copied| <= |written| <= |output|
            && output[|before|..|before| + |copied|] == copied
            && output[|before| + |copied|..|written|] == edits[0].text
  {
    ApplyParts(content, edits, cursor);
    var copied := content[cursor..edits[0].start];
    var tail := Apply(content, edits[1..], edits[0].end);
    Associate(before, copied, edits[0].text + tail);
    Associate(before + copied, edits[0].text, tail);
  }

  /** What undoing the first edit is, and what follows it. */
  lemma UndoParts(content: string, edits: seq<Edit>, mask: seq<bool>, cursor: nat, at: nat)
    requires InOrder(edits, cursor, |content|) && edits != [] && |mask| == |edits|
    requires edits[0].end <= |content|
    ensures var start := at + (edits[0].start - cursor);
            var taken := Edit(start, start + |edits[0].text|, content[edits[0].start..edits[0].end]);
            var later := Undo(content, edits[1..], edits[0].end, taken.end);
            && Marked(Undo(content, edits, cursor, at), mask, true)
               == (if mask[0] then [taken] else []) + Marked(later, mask[1..], true)
            && Marked(edits, mask, false)
               == (if mask[0] then [] else [edits[0]]) + Marked(edits[1..], mask[1..], false)
  {
    var start := at + (edits[0].start - cursor);
    var taken := Edit(start, start + |edits[0].text|, content[edits[0].start..edits[0].end]);
    var later := Undo(content, edits[1..], edits[0].end, taken.end);
    assert Undo(content, edits, cursor, at) == [taken] + later;
    assert ([taken] + later)[1..] == later;
  }

  /** Undoing the marked edits leaves what the others alone would have written. */
  lemma {:induction false} UndoMarked(content: string, edits: seq<Edit>, mask: seq<bool>, cursor: nat, before: string)
    requires |mask| == |edits| && InOrder(edits, cursor, |content|)
    ensures Undoes(before + Apply(content, edits, cursor), Marked(Undo(content, edits, cursor, |before|), mask, true),
                   |before|,
                   content, Marked(edits, mask, false), cursor)
    decreases |edits|
  {
    if edits == [] {
      NothingUndone(content, cursor, before);
    } else {
      var output := before + Apply(content, edits, cursor);
      OutputParts(content, edits, cursor, before);
      var edit, rest := edits[0], edits[1..];
      var copied := content[cursor..edit.start];
      var written := before + copied + edit.text;
      UndoMarked(content, rest, mask[1..], edit.end, written);
      UndoParts(content, edits, mask, cursor, |before|);
      var taken := Edit(|before| + |copied|, |written|, content[edit.start..edit.end]);
      var undo := Marked(Undo(content, rest, edit.end, |written|), mask[1..], true);
      var kept := Marked(rest, mask[1..], false);
      if mask[0] {
        UndoTaken(content, output, edit, taken, undo, kept, cursor, |before|);
        assert [] + kept == kept;
      } else {
        UndoLeft(content, output, edit, taken, undo, kept, cursor, |before|);
        assert [] + undo == undo;
      }
    }
  }

  lemma NothingUndone(content: string, cursor: nat, before: string)
    requires cursor <= |content|
    ensures Undoes(before + content[cursor..], [], |before|, content, [], cursor)
  {
  }

  /** `edit`'s text stands in the output, and `undone` gives back what it replaced. */
  ghost predicate Stands(content: string, edit: Edit, output: string, undone: Edit) {
    && undone.start <= undone.end <= |output| && output[undone.start..undone.end] == edit.text
    && edit.start <= edit.end <= |content| && undone.text == content[edit.start..edit.end]
  }

  lemma UndoFirst(content: string, edits: seq<Edit>, cursor: nat, before: string)
    requires InOrder(edits, cursor, |content|) && edits != []
    ensures Stands(content, edits[0], before + Apply(content, edits, cursor), Undo(content, edits, cursor, |before|)[0])
  {
    OutputParts(content, edits, cursor, before);
    InOrderEnds(edits, cursor, |content|);
  }

  lemma UndoLater(content: string, edits: seq<Edit>, cursor: nat, at: nat, i: nat)
    requires InOrder(edits, cursor, |content|) && 0 < i < |edits|
    ensures Undo(content, edits, cursor, at)[i]
            == Undo(content, edits[1..], edits[0].end, at + (edits[0].start - cursor) + |edits[0].text|)[i - 1]
  {
  }

  /** The `i`-th value stands in the output where `Undo` says it landed. */
  ghost predicate StandsAt(content: string, edits: seq<Edit>, cursor: nat, before: string, i: nat)
    requires InOrder(edits, cursor, |content|) && i < |edits|
  {
    Stands(content, edits[i], before + Apply(content, edits, cursor), Undo(content, edits, cursor, |before|)[i])
  }

  lemma StandsLater(content: string, edits: seq<Edit>, cursor: nat, before: string, written: string, i: nat)
    requires InOrder(edits, cursor, |content|) && 0 < i < |edits|
    requires before + Apply(content, edits, cursor) == written + Apply(content, edits[1..], edits[0].end)
    requires |written| == |before| + (edits[0].start - cursor) + |edits[0].text|
    requires StandsAt(content, edits[1..], edits[0].end, written, i - 1)
    ensures StandsAt(content, edits, cursor, before, i)
  {
    UndoLater(content, edits, cursor, |before|, i);
    assert edits[1..][i - 1] == edits[i];
  }

  lemma {:induction false} UndoSpans(content: string, edits: seq<Edit>, cursor: nat, before: string, i: nat)
    requires InOrder(edits, cursor, |content|) && i < |edits|
    ensures StandsAt(content, edits, cursor, before, i)
    decreases |edits|
  {
    if i == 0 {
      UndoFirst(content, edits, cursor, before);
    } else {
      var written := WrittenFirst(content, edits, cursor, before);
      UndoSpans(content, edits[1..], edits[0].end, written, i - 1);
      StandsLater(content, edits, cursor, before, written, i);
    }
  }

  /** The output up to and including the first edit's text. */
  lemma WrittenFirst(content: string, edits: seq<Edit>, cursor: nat, before: string) returns (written: string)
    requires InOrder(edits, cursor, |content|) && edits != []
    ensures before + Apply(content, edits, cursor) == written + Apply(content, edits[1..], edits[0].end)
    ensures |written| == |before| + (edits[0].start - cursor) + |edits[0].text|
  {
    OutputParts(content, edits, cursor, before);
    written := before + content[cursor..edits[0].start] + edits[0].text;
  }

  // ---- the values written are all there are ------------------------------------------------

  /** Every value is non-empty and cannot overlap itself. */
  ghost predicate Invertible(rules: seq<Rule>) {
    forall k | 0 <= k < |rules| :: rules[k].value != "" && Unbordered(rules[k].value)
  }

  /** Where each hit's value landed in the output. */
  function Written(hits: seq<Hit>, undo: seq<Edit>): seq<Hit>
    requires |hits| == |undo|
  {
    seq(|hits|, i requires 0 <= i < |hits| => Hit(undo[i].start, undo[i].end, hits[i].rule))
  }

  /** The starts of one rule's hits. */
  function StartsOf(hits: seq<Hit>, rule: nat): (starts: seq<nat>)
    ensures |starts| == CountRule(hits, rule)
    ensures forall start :: start in starts <==> exists i ::
              0 <= i < |hits| && hits[i].rule == rule && hits[i].start == start
  {
    if hits == [] then []
    else
      assert hits == [hits[0]] + hits[1..];
      assert forall i | 0 < i < |hits| :: hits[i] == hits[1..][i - 1];
      if hits[0].rule == rule then [hits[0].start] + StartsOf(hits[1..], rule) else StartsOf(hits[1..], rule)
  }

  ghost predicate NoRepeats(items: seq<nat>) {
    forall i, j | 0 <= i < j < |items| :: items[i] != items[j]
  }

  lemma {:induction false} StartsDiffer(hits: seq<Hit>, rule: nat)
    requires StrictlyAfter(hits)
    ensures NoRepeats(StartsOf(hits, rule))
    decreases |hits|
  {
    if hits != [] {
      assert forall i | 0 <= i < |hits[1..]| :: hits[1..][i] == hits[i + 1];
      StartsDiffer(hits[1..], rule);
      if hits[0].rule == rule {
        var rest := StartsOf(hits[1..], rule);
        forall i | 0 <= i < |rest| ensures rest[i] != hits[0].start {
          assert rest[i] in rest;
        }
      }
    }
  }

  function SetOf(items: seq<nat>): set<nat> { set item | item in items }

  lemma {:induction false} SetSize(items: seq<nat>)
    requires NoRepeats(items)
    ensures |SetOf(items)| == |items|
    decreases |items|
  {
    if items != [] {
      var rest := items[1..];
      assert forall i | 0 <= i < |rest| :: rest[i] == items[i + 1];
      SetSize(rest);
      assert items == [items[0]] + rest;
      assert SetOf(items) == SetOf(rest) + {items[0]};
      assert items[0] !in SetOf(rest);
    }
  }

  /** As many distinct places, all among these, are all of these. */
  lemma SameSize(some: seq<nat>, all: seq<nat>, place: nat)
    requires NoRepeats(some) && NoRepeats(all) && |some| == |all|
    requires forall item | item in some :: item in all
    requires place in all
    ensures place in some
  {
    SetSize(some);
    SetSize(all);
    var left, right := SetOf(some), SetOf(all);
    assert left <= right;
    if place !in some {
      assert left <= right - {place};
      SubsetSize(left, right - {place});
    }
  }

  lemma {:induction false} CountWritten(hits: seq<Hit>, undo: seq<Edit>, rule: nat)
    requires |hits| == |undo|
    ensures CountRule(Written(hits, undo), rule) == CountRule(hits, rule)
    decreases |hits|
  {
    if hits != [] {
      CountWritten(hits[1..], undo[1..], rule);
      assert Written(hits, undo)[1..] == Written(hits[1..], undo[1..]);
    }
  }

  /** A finished render: its hits in the committed content, and where their values went. */
  ghost predicate Rendered(committed: string, rules: seq<Rule>, output: string, hits: seq<Hit>, edits: seq<Edit>,
                           undo: seq<Edit>)
  {
    && hits == Located(committed, Finds(rules))
    && (forall i | 0 <= i < |hits| :: IsHit(committed, Finds(rules), hits[i]))
    && edits == Edits(hits, Values(rules))
    && InOrder(edits, 0, |committed|)
    && output == Apply(committed, edits, 0)
    && undo == Undo(committed, edits, 0, 0)
  }

  lemma RenderedIs(committed: string, rules: seq<Rule>, output: string)
    returns (hits: seq<Hit>, edits: seq<Edit>, undo: seq<Edit>)
    requires Substitute(committed, rules) == Ok(output)
    ensures Rendered(committed, rules, output, hits, edits, undo)
    ensures forall k | 0 <= k < |rules| :: CountRule(hits, k) == rules[k].count
  {
    hits := Located(committed, Finds(rules));
    LocatedIs(committed, Finds(rules));
    assert forall i | 0 <= i < |hits| :: hits[i] in hits;
    edits := Edits(hits, Values(rules));
    undo := Undo(committed, edits, 0, 0);
  }

  /** Each value stands where it was written, and gives back what was found there. */
  lemma WrittenSpan(committed: string, rules: seq<Rule>, output: string, hits: seq<Hit>, edits: seq<Edit>,
                    undo: seq<Edit>, i: nat)
    requires Rendered(committed, rules, output, hits, edits, undo) && i < |hits|
    ensures i < |undo| && hits[i].rule < |rules|
    ensures MatchAt(output, rules[hits[i].rule].value, undo[i].start)
    ensures undo[i].end == undo[i].start + |rules[hits[i].rule].value|
    ensures undo[i].text == rules[hits[i].rule].find
  {
    UndoSpans(committed, edits, 0, "", i);
    assert "" + Apply(committed, edits, 0) == output;
    HitSpan(committed, Finds(rules), hits[i]);
  }

  lemma HitsAfter(committed: string, rules: seq<Rule>, output: string, hits: seq<Hit>, edits: seq<Edit>,
                  undo: seq<Edit>)
    requires Rendered(committed, rules, output, hits, edits, undo)
    ensures StrictlyAfter(hits)
  {
    InOrderEnds(edits, 0, |committed|);
    forall i, j | 0 <= i < j < |hits| ensures hits[i].start < hits[j].start {
      HitSpan(committed, Finds(rules), hits[i]);
      assert edits[i].end <= edits[j].start;
    }
  }

  lemma WrittenAfter(committed: string, rules: seq<Rule>, output: string, hits: seq<Hit>, edits: seq<Edit>,
                     undo: seq<Edit>)
    requires Rendered(committed, rules, output, hits, edits, undo) && Invertible(rules)
    ensures StrictlyAfter(Written(hits, undo)) && Disjoint(Written(hits, undo)) && StrictlyAfter(hits)
  {
    HitsAfter(committed, rules, output, hits, edits, undo);
    UndoInOrder(committed, edits, 0, "");
    assert "" + Apply(committed, edits, 0) == output;
    InOrderEnds(undo, 0, |output|);
    forall i | 0 <= i < |hits| ensures undo[i].start < undo[i].end {
      WrittenSpan(committed, rules, output, hits, edits, undo, i);
    }
  }

  /** In a finished render, each value occurs exactly where it was written. */
  lemma WrittenAreLocated(committed: string, rules: seq<Rule>, output: string, hits: seq<Hit>, edits: seq<Edit>,
                          undo: seq<Edit>)
    requires Rendered(committed, rules, output, hits, edits, undo) && Invertible(rules)
    requires forall k | 0 <= k < |rules| :: CountRule(hits, k) == rules[k].count == |Greedy(output, rules[k].value, 0)|
    ensures Located(output, Values(rules)) == Written(hits, undo)
  {
    var written, values := Written(hits, undo), Values(rules);
    WrittenAfter(committed, rules, output, hits, edits, undo);
    LocatedIs(output, values);
    forall hit | hit in written ensures IsHit(output, values, hit) {
      var i :| 0 <= i < |written| && written[i] == hit;
      WrittenSpan(committed, rules, output, hits, edits, undo, i);
      UnborderedFindsAll(output, values[hit.rule], hit.start);
    }
    forall hit | IsHit(output, values, hit) ensures hit in written {
      OnlyWritten(committed, rules, output, hits, edits, undo, hit);
    }
    SortedUnique(Located(output, values), written);
  }

  lemma OnlyWritten(committed: string, rules: seq<Rule>, output: string, hits: seq<Hit>, edits: seq<Edit>,
                    undo: seq<Edit>, hit: Hit)
    requires Rendered(committed, rules, output, hits, edits, undo) && Invertible(rules)
    requires forall k | 0 <= k < |rules| :: CountRule(hits, k) == rules[k].count == |Greedy(output, rules[k].value, 0)|
    requires IsHit(output, Values(rules), hit)
    ensures hit in Written(hits, undo)
  {
    var written, value := Written(hits, undo), rules[hit.rule].value;
    WrittenAfter(committed, rules, output, hits, edits, undo);
    var starts, found := StartsOf(written, hit.rule), Greedy(output, value, 0);
    StartsDiffer(written, hit.rule);
    CountWritten(hits, undo, hit.rule);
    GreedyMatches(output, value, 0);
    assert NoRepeats(found) by { assert Apart(found, |value|); }
    forall start | start in starts ensures start in found {
      var i :| 0 <= i < |written| && written[i].rule == hit.rule && written[i].start == start;
      WrittenSpan(committed, rules, output, hits, edits, undo, i);
      UnborderedFindsAll(output, value, start);
    }
    SameSize(starts, found, hit.start);
    var i :| 0 <= i < |written| && written[i].rule == hit.rule && written[i].start == hit.start;
    WrittenSpan(committed, rules, output, hits, edits, undo, i);
    assert written[i] == hit;
  }

  // ---- reversing --------------------------------------------------------------------------

  /** The edits of the chosen rules are the marked ones of all. */
  lemma {:induction false} ChosenEdits(hits: seq<Hit>, texts: seq<string>, picks: seq<nat>, edits: seq<Edit>,
                                       mask: seq<bool>, mark: bool)
    requires |edits| == |hits| == |mask|
    requires forall i | 0 <= i < |picks| :: picks[i] < |texts|
    requires forall i | 0 <= i < |hits| :: hits[i].rule < |texts| && (mask[i] == mark <==> hits[i].rule in picks)
    requires forall i | 0 <= i < |hits| :: edits[i] == Edit(hits[i].start, hits[i].end, texts[hits[i].rule])
    ensures Edits(Renumber(hits, picks), Select(texts, picks)) == Marked(edits, mask, mark)
    decreases |hits|
  {
    if hits != [] {
      ChosenEdits(hits[1..], texts, picks, edits[1..], mask[1..], mark);
      var rest := Renumber(hits[1..], picks);
      if hits[0].rule in picks {
        var first := hits[0].(rule := PlaceOf(picks, hits[0].rule));
        assert Edits([first] + rest, Select(texts, picks)) == [edits[0]] + Edits(rest, Select(texts, picks));
      }
    }
  }

  lemma {:induction false} NothingPassedOver(hits: seq<Hit>, cursor: nat)
    requires Disjoint(hits) && forall i | 0 <= i < |hits| :: cursor <= hits[i].start
    ensures Kept(hits, cursor) == hits
    decreases |hits|
  {
    if hits != [] {
      assert forall i | 0 <= i < |hits[1..]| :: hits[1..][i] == hits[i + 1];
      NothingPassedOver(hits[1..], hits[0].end);
    }
  }

  lemma {:induction false} RenumberDisjoint(hits: seq<Hit>, picks: seq<nat>)
    requires Disjoint(hits)
    ensures Disjoint(Renumber(hits, picks))
    ensures hits != [] ==> forall i | 0 <= i < |Renumber(hits[1..], picks)| ::
              hits[0].end <= Renumber(hits[1..], picks)[i].start
    decreases |hits|
  {
    if hits != [] {
      var rest := hits[1..];
      assert forall i | 0 <= i < |rest| :: rest[i] == hits[i + 1];
      RenumberDisjoint(rest, picks);
      RenumberComes(rest, picks, hits[0].end);
    }
  }

  lemma {:induction false} RenumberComes(hits: seq<Hit>, picks: seq<nat>, from: nat)
    requires forall i | 0 <= i < |hits| :: from <= hits[i].start
    ensures forall i | 0 <= i < |Renumber(hits, picks)| :: from <= Renumber(hits, picks)[i].start
    decreases |hits|
  {
    if hits != [] {
      assert forall i | 0 <= i < |hits[1..]| :: hits[1..][i] == hits[i + 1];
      RenumberComes(hits[1..], picks, from);
    }
  }

  /** `picks` and `others` share out the rules between them. */
  ghost predicate SharedOut(picks: seq<nat>, others: seq<nat>, count: nat) {
    && Chosen(picks, count) && Chosen(others, count)
    && forall k | 0 <= k < count :: k in picks <==> k !in others
  }

  function MaskOf(hits: seq<Hit>, picks: seq<nat>): seq<bool> {
    seq(|hits|, i requires 0 <= i < |hits| => hits[i].rule in picks)
  }

  /** Reversing the chosen rules undoes exactly their edits. */
  lemma ReverseIsUndo(committed: string, rules: seq<Rule>, output: string, picks: seq<nat>,
                      hits: seq<Hit>, edits: seq<Edit>, undo: seq<Edit>)
    requires Rendered(committed, rules, output, hits, edits, undo) && Invertible(rules)
    requires Located(output, Values(rules)) == Written(hits, undo)
    requires Chosen(picks, |rules|)
    ensures InOrder(Marked(undo, MaskOf(hits, picks), true), 0, |output|)
    ensures Reverse(output, Select(rules, picks)) == Apply(output, Marked(undo, MaskOf(hits, picks), true), 0)
  {
    var some, written := Select(rules, picks), Written(hits, undo);
    assert Values(some) == Select(Values(rules), picks) && Finds(some) == Select(Finds(rules), picks);
    WrittenAfter(committed, rules, output, hits, edits, undo);
    SelectLocated(output, Values(rules), picks);
    RenumberDisjoint(written, picks);
    NothingPassedOver(Renumber(written, picks), 0);
    forall i | 0 <= i < |hits|
      ensures written[i].rule < |rules|
              && undo[i] == Edit(written[i].start, written[i].end, Finds(rules)[written[i].rule])
    {
      WrittenSpan(committed, rules, output, hits, edits, undo, i);
    }
    ChosenEdits(written, Finds(rules), picks, undo, MaskOf(hits, picks), true);
    LocatedIs(output, Values(some));
    var located := Located(output, Values(some));
    assert forall i | 0 <= i < |located| :: located[i] in located;
    KeptInOrder(output, Values(some), located, Finds(some), 0);
  }

  /** Rendering the other rules makes exactly their edits. */
  lemma SubstituteOthers(committed: string, rules: seq<Rule>, output: string, others: seq<nat>,
                         hits: seq<Hit>, edits: seq<Edit>, undo: seq<Edit>, mask: seq<bool>)
    requires Rendered(committed, rules, output, hits, edits, undo) && Invertible(rules)
    requires forall k | 0 <= k < |rules| :: CountRule(hits, k) == rules[k].count
    requires Chosen(others, |rules|) && |mask| == |hits|
    requires forall i | 0 <= i < |hits| :: !mask[i] <==> hits[i].rule in others
    requires InOrder(Marked(edits, mask, false), 0, |committed|)
    ensures Substitute(committed, Select(rules, others)) == Ok(Apply(committed, Marked(edits, mask, false), 0))
  {
    var some := Select(rules, others);
    assert Values(some) == Select(Values(rules), others) && Finds(some) == Select(Finds(rules), others);
    WrittenAfter(committed, rules, output, hits, edits, undo);
    SelectLocated(committed, Finds(rules), others);
    ChosenEdits(hits, Values(rules), others, edits, mask, false);
    forall j | 0 <= j < |some| ensures CountRule(Located(committed, Finds(some)), j) == some[j].count {
      CountLocated(committed, Finds(some), j);
      CountLocated(committed, Finds(rules), others[j]);
    }
  }

  /** `output` has every rule's value, as many times as declared. */
  ghost predicate ValuesWritten(output: string, rules: seq<Rule>) {
    forall k | 0 <= k < |rules| :: MatchCount(output, rules[k].value) == rules[k].count
  }

  /**
   Taking some of a render's rules back out gives exactly what substituting the
   rest gives. A render of the rest is that text too, if and only if each value
   left occurs in it as often as declared; otherwise it is refused.
   */
  lemma ReverseSome(committed: string, rules: seq<Rule>, output: string, picks: seq<nat>, others: seq<nat>)
    requires Composed(committed, rules) == Ok(output) && Invertible(rules)
    requires SharedOut(picks, others, |rules|)
    ensures var rest, back := Select(rules, others), Reverse(output, Select(rules, picks));
            && Substitute(committed, rest) == Ok(back)
            && Composed(committed, rest) == if ValuesWritten(back, rest) then Ok(back) else Err
  {
    var hits, edits, undo := RenderedIs(committed, rules, output);
    WrittenAreLocated(committed, rules, output, hits, edits, undo);
    var mask := MaskOf(hits, picks);
    UndoMarked(committed, edits, mask, 0, "");
    assert "" + output == output;
    ReverseIsUndo(committed, rules, output, picks, hits, edits, undo);
    SubstituteOthers(committed, rules, output, others, hits, edits, undo, mask);
  }

  /** Reversing every rule of a render gives the committed content back. */
  lemma ReverseAll(committed: string, rules: seq<Rule>, output: string)
    requires Composed(committed, rules) == Ok(output) && Invertible(rules)
    ensures Reverse(output, rules) == committed
  {
    var picks := seq(|rules|, i => i);
    forall k: nat | k < |rules| ensures picks[k] == k && k in picks {
      assert picks[k] in picks;
    }
    assert Select(rules, picks) == rules;
    ReverseSome(committed, rules, output, picks, []);
    assert Select(rules, []) == [];
    assert Located(committed, Finds([])) == [];
    assert Substitute(committed, []) == Ok(committed[0..]);
  }

  // ---- claims -----------------------------------------------------------------------------

  lemma {:induction false} RulesConcat(left: seq<Claim>, right: seq<Claim>)
    ensures Rules(left + right) == Rules(left) + Rules(right)
  {
    if left == [] {
      assert left + right == right;
    } else {
      RulesConcat(left[1..], right);
      assert (left + right)[1..] == left[1..] + right;
      var first, rest, more := left[0].rules, Rules(left[1..]), Rules(right);
      assert first + (rest + more) == (first + rest) + more;
    }
  }

  /** The places of `count` members after the first `skipped`. */
  function Middle(skipped: nat, count: nat): seq<nat> { seq(count, i requires 0 <= i < count => skipped + i) }

  /** The places of all `total` members but those. */
  function Around(skipped: nat, count: nat, total: nat): seq<nat>
    requires skipped + count <= total
  {
    seq(total - count, i requires 0 <= i < total - count => if i < skipped then i else i + count)
  }

  lemma AroundMiddle(skipped: nat, count: nat, total: nat)
    requires skipped + count <= total
    ensures SharedOut(Middle(skipped, count), Around(skipped, count, total), total)
  {
    var picks, others := Middle(skipped, count), Around(skipped, count, total);
    forall k: nat | k < total ensures k in picks <==> k !in others {
      if k < skipped {
        assert others[k] == k;
      } else if k < skipped + count {
        assert picks[k - skipped] == k;
      } else {
        assert others[k - count] == k;
      }
    }
  }

  /** Reversing rules in the middle: what substituting those before and after gives. */
  lemma ReverseMiddle(committed: string, before: seq<Rule>, mine: seq<Rule>, after: seq<Rule>, output: string)
    requires Composed(committed, before + mine + after) == Ok(output) && Invertible(before + mine + after)
    ensures var rest, back := before + after, Reverse(output, mine);
            && Substitute(committed, rest) == Ok(back)
            && Composed(committed, rest) == if ValuesWritten(back, rest) then Ok(back) else Err
  {
    var rules := before + mine + after;
    AroundMiddle(|before|, |mine|, |rules|);
    var picks, others := Middle(|before|, |mine|), Around(|before|, |mine|, |rules|);
    assert Select(rules, picks) == mine;
    assert Select(rules, others) == before + after;
    ReverseSome(committed, rules, output, picks, others);
  }

  /**
   Reversing one resource's claim gives exactly what substituting the claims that
   remain gives. They render to it if and only if each of their values occurs in
   it as often as declared; otherwise the file left behind renders for nobody.
   */
  lemma ReverseOneClaim(committed: string, claims: seq<Claim>, output: string, at: nat)
    requires at < |claims|
    requires Composed(committed, Rules(claims)) == Ok(output) && Invertible(Rules(claims))
    ensures var rest, back := Rules(claims[..at] + claims[at + 1..]), Reverse(output, claims[at].rules);
            && Substitute(committed, rest) == Ok(back)
            && Composed(committed, rest) == if ValuesWritten(back, rest) then Ok(back) else Err
  {
    var before, mine, after := Rules(claims[..at]), claims[at].rules, Rules(claims[at + 1..]);
    RulesAround(claims, at);
    ReverseMiddle(committed, before, mine, after, output);
  }

  lemma RulesAround(claims: seq<Claim>, at: nat)
    requires at < |claims|
    ensures Rules(claims) == Rules(claims[..at]) + claims[at].rules + Rules(claims[at + 1..])
    ensures Rules(claims[..at] + claims[at + 1..]) == Rules(claims[..at]) + Rules(claims[at + 1..])
  {
    var before, after := claims[..at], claims[at + 1..];
    assert claims == before + claims[at..];
    RulesConcat(before, claims[at..]);
    assert claims[at..][1..] == after;
    assert Rules(claims[at..]) == claims[at].rules + Rules(after);
    assert Rules(before) + (claims[at].rules + Rules(after)) == Rules(before) + claims[at].rules + Rules(after);
    RulesConcat(before, after);
  }

  // ---- order does not matter -----------------------------------------------------------------

  lemma OneFewer(items: seq<Rule>, at: nat)
    requires at < |items|
    ensures multiset(items[..at] + items[at + 1..]) == multiset(items) - multiset{items[at]}
  {
    assert items == items[..at] + [items[at]] + items[at + 1..];
    assert multiset(items) == multiset(items[..at]) + multiset([items[at]]) + multiset(items[at + 1..]);
  }

  lemma SameLength(left: seq<Rule>, right: seq<Rule>)
    requires multiset(left) == multiset(right)
    ensures |left| == |right|
  {
    assert |left| == |multiset(left)| && |right| == |multiset(right)|;
  }

  lemma SomePlace(items: seq<Rule>, item: Rule) returns (at: nat)
    requires item in multiset(items)
    ensures at < |items| && items[at] == item
  {
    at :| 0 <= at < |items| && items[at] == item;
  }

  /** Without a member of each that they share, lists still have the same members. */
  lemma SameRest(left: seq<Rule>, right: seq<Rule>, at: nat)
    requires multiset(left) == multiset(right) && right != [] && at < |left| && left[at] == right[0]
    ensures multiset(left[..at] + left[at + 1..]) == multiset(right[1..])
  {
    OneFewer(left, at);
    FirstTaken(right);
  }

  lemma HasFirst(left: seq<Rule>, right: seq<Rule>) returns (at: nat)
    requires multiset(left) == multiset(right) && right != []
    ensures at < |left| && left[at] == right[0]
  {
    assert right[0] in multiset(right);
    at := SomePlace(left, right[0]);
  }

  /** Lists with the same members, each as often, are rearrangements of one another. */
  lemma {:induction false} Rearranged(left: seq<Rule>, right: seq<Rule>) returns (places: seq<nat>)
    requires multiset(left) == multiset(right)
    ensures Chosen(places, |left|) && |places| == |left| && Select(left, places) == right
    decreases |right|
  {
    SameLength(left, right);
    if right == [] {
      places := [];
    } else {
      var at := HasFirst(left, right);
      SameRest(left, right, at);
      var inner := Rearranged(left[..at] + left[at + 1..], right[1..]);
      places := [at] + Shifted(inner, at);
      PlacesAround(left, right, at, inner);
    }
  }

  /** Places in a list with one member taken out at `at`, as places in the whole list. */
  function Shifted(places: seq<nat>, at: nat): seq<nat> {
    seq(|places|, i requires 0 <= i < |places| => if places[i] < at then places[i] else places[i] + 1)
  }

  lemma PlacesAround(left: seq<Rule>, right: seq<Rule>, at: nat, inner: seq<nat>)
    requires at < |left| == |right| && left[at] == right[0]
    requires Chosen(inner, |left| - 1) && |inner| == |left| - 1
    requires Select(left[..at] + left[at + 1..], inner) == right[1..]
    ensures var places := [at] + Shifted(inner, at);
            Chosen(places, |left|) && |places| == |left| && Select(left, places) == right
  {
    var places, rest := [at] + Shifted(inner, at), left[..at] + left[at + 1..];
    forall i | 0 < i < |right| ensures left[places[i]] == right[i] {
      assert right[i] == right[1..][i - 1] == rest[inner[i - 1]];
    }
  }

  lemma EveryPlaceTaken(places: seq<nat>, count: nat, place: nat)
    requires Chosen(places, count) && |places| == count && place < count
    ensures place in places
  {
    var all := seq(count, i => i);
    forall k: nat | k < count ensures all[k] == k && k in all { assert all[k] in all; }
    SameSize(places, all, place);
  }

  lemma {:induction false} AllMarked(edits: seq<Edit>, mask: seq<bool>)
    requires |mask| == |edits| && forall i | 0 <= i < |mask| :: mask[i]
    ensures Marked(edits, mask, true) == edits
    decreases |edits|
  {
    if edits != [] { AllMarked(edits[1..], mask[1..]); }
  }

  lemma RearrangedSubstitutes(content: string, left: seq<Rule>, right: seq<Rule>)
    requires multiset(left) == multiset(right) && Substitute(content, left).Ok?
    ensures Substitute(content, right) == Substitute(content, left)
  {
    var places := Rearranged(left, right);
    var hits, edits, undo := RenderedIs(content, left, Substitute(content, left).value);
    InOrderIsDisjoint(content, left, hits);
    forall i, j | 0 <= i < j < |hits| ensures hits[i].start < hits[j].start {
      HitSpan(content, Finds(left), hits[i]);
    }
    assert Finds(right) == Select(Finds(left), places) && Values(right) == Select(Values(left), places);
    SelectLocated(content, Finds(left), places);
    var mask := seq(|hits|, i => true);
    forall i | 0 <= i < |hits| ensures hits[i].rule in places { EveryPlaceTaken(places, |left|, hits[i].rule); }
    ChosenEdits(hits, Values(left), places, edits, mask, true);
    AllMarked(edits, mask);
    forall k | 0 <= k < |right| ensures CountRule(Located(content, Finds(right)), k) == right[k].count {
      CountLocated(content, Finds(right), k);
      CountLocated(content, Finds(left), places[k]);
    }
  }

  /**
   The rendered text, and whether rendering succeeds, do not depend on the order
   of the claims or of the rules inside them.
   */
  lemma OrderDoesNotMatter(content: string, left: seq<Claim>, right: seq<Claim>)
    requires multiset(Rules(left)) == multiset(Rules(right))
    ensures Substitute(content, Rules(left)) == Substitute(content, Rules(right))
    ensures Composed(content, Rules(left)) == Composed(content, Rules(right))
  {
    var l, r := Rules(left), Rules(right);
    if Substitute(content, l).Ok? { RearrangedSubstitutes(content, l, r); }
    if Substitute(content, r).Ok? { RearrangedSubstitutes(content, r, l); }
    if Substitute(content, l).Ok? { SameValuesWritten(Substitute(content, l).value, l, r); }
  }

  lemma SameValuesWritten(output: string, left: seq<Rule>, right: seq<Rule>)
    requires multiset(left) == multiset(right)
    ensures ValuesWritten(output, left) <==> ValuesWritten(output, right)
  {
    forall k | 0 <= k < |left| ensures left[k] in right { assert left[k] in multiset(left); }
    forall k | 0 <= k < |right| ensures right[k] in left { assert right[k] in multiset(right); }
  }
}
