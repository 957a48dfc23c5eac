/**
 The loops of a render: cursors, output buffers, where each value was written,
 and the one pass that replaces every match and passes over overlapping ones.
 */
module Renderer {
  import opened Wrappers
  import opened Render
  import opened RenderInverse
  import opened Sequences
  import opened RenderLines

  /** What is found once the matches from `from` on have been added. */
  ghost function FoundFrom(text: string, needle: string, from: nat, rule: nat, hits: seq<Hit>): seq<Hit> {
    InsertAll(Greedy(text, needle, from), |needle|, rule, hits)
  }

  lemma FoundNext(text: string, needle: string, from: nat, rule: nat, hits: seq<Hit>, next: nat, more: seq<Hit>)
    requires needle != "" && FirstMatch(text, needle, from) == Some(next)
    requires more == Insert(Hit(next, next + |needle|, rule), hits)
    ensures FoundFrom(text, needle, from, rule, hits) == FoundFrom(text, needle, next + |needle|, rule, more)
  {
    var rest := Greedy(text, needle, next + |needle|);
    GreedyStep(text, needle, from, next);
    InsertAllStep(next, rest, |needle|, rule, hits);
  }

  lemma GreedyStep(text: string, needle: string, from: nat, next: nat)
    requires needle != "" && FirstMatch(text, needle, from) == Some(next)
    ensures Greedy(text, needle, from) == [next] + Greedy(text, needle, next + |needle|)
  {
  }

  lemma InsertAllStep(start: nat, rest: seq<nat>, length: nat, rule: nat, hits: seq<Hit>)
    ensures InsertAll([start] + rest, length, rule, hits)
            == InsertAll(rest, length, rule, Insert(Hit(start, start + length, rule), hits))
  {
    assert ([start] + rest)[1..] == rest;
  }

  lemma FoundLast(text: string, needle: string, from: nat, rule: nat, hits: seq<Hit>)
    requires needle == "" || FirstMatch(text, needle, from) == None
    ensures FoundFrom(text, needle, from, rule, hits) == hits
  {
    assert Greedy(text, needle, from) == [];
  }

  /** One rule's matches, added to those found already. */
  method LocateOne(content: string, find: string, rule: nat, before: seq<Hit>) returns (found: seq<Hit>)
    ensures found == FoundFrom(content, find, 0, rule, before)
  {
    found := before;
    // The search would stay where it is.
    if find == "" { FoundLast(content, find, 0, rule, found); return; }
    var from: nat := 0;
    var next := FirstMatch(content, find, from);
    while next.Some?
      invariant next == FirstMatch(content, find, from)
      invariant FoundFrom(content, find, from, rule, found) == FoundFrom(content, find, 0, rule, before)
      decreases |content| - from
    {
      var more := Insert(Hit(next.value, next.value + |find|, rule), found);
      FoundNext(content, find, from, rule, found, next.value, more);
      found := more;
      from := next.value + |find|;
      next := FirstMatch(content, find, from);
    }
    FoundLast(content, find, from, rule, found);
  }

  method Locate(content: string, finds: seq<string>) returns (found: seq<Hit>)
    ensures found == Located(content, finds)
  {
    found := [];
    var rule := 0;
    while rule < |finds|
      invariant 0 <= rule <= |finds|
      invariant found == LocatedUpTo(content, finds, rule)
    {
      found := LocateOne(content, finds[rule], rule, found);
      rule := rule + 1;
    }
  }

  lemma InOrderNext(edits: seq<Edit>, i: nat, cursor: nat, upto: nat)
    requires i < |edits|
    ensures InOrder(edits[i..], cursor, upto) <==>
              cursor <= edits[i].start <= edits[i].end && InOrder(edits[i + 1..], edits[i].end, upto)
  {
    assert edits[i..][1..] == edits[i + 1..];
  }

  lemma ApplyNext(content: string, edits: seq<Edit>, i: nat, cursor: nat)
    requires i < |edits| && InOrder(edits[i..], cursor, |content|)
    ensures cursor <= edits[i].start <= edits[i].end <= |content| && InOrder(edits[i + 1..], edits[i].end, |content|)
    ensures Apply(content, edits[i..], cursor)
            == content[cursor..edits[i].start] + (edits[i].text + Apply(content, edits[i + 1..], edits[i].end))
  {
    ApplyParts(content, edits[i..], cursor);
    assert edits[i..][1..] == edits[i + 1..];
  }

  lemma UndoNext(content: string, edits: seq<Edit>, i: nat, cursor: nat, at: nat)
    requires i < |edits| && InOrder(edits[i..], cursor, |content|)
    ensures cursor <= edits[i].start <= edits[i].end <= |content| && InOrder(edits[i + 1..], edits[i].end, |content|)
    ensures var start := at + (edits[i].start - cursor);
            Undo(content, edits[i..], cursor, at)
            == [Edit(start, start + |edits[i].text|, content[edits[i].start..edits[i].end])]
               + Undo(content, edits[i + 1..], edits[i].end, start + |edits[i].text|)
  {
    InOrderEnds(edits[i..], cursor, |content|);
    assert edits[i..][1..] == edits[i + 1..];
  }

  /** `output` is what has been written up to `cursor`, before the `i`-th edit. */
  ghost predicate WrittenTo(content: string, edits: seq<Edit>, i: nat, cursor: nat, output: string)
    requires InOrder(edits, 0, |content|)
  {
    && i <= |edits| && InOrder(edits[i..], cursor, |content|)
    && output + Apply(content, edits[i..], cursor) == Apply(content, edits, 0)
  }

  /** `undone` is what has been recorded up to `cursor`, before the `i`-th edit. */
  ghost predicate RecordedTo(content: string, edits: seq<Edit>, i: nat, cursor: nat, at: nat, undone: seq<Edit>)
    requires InOrder(edits, 0, |content|)
  {
    && i <= |edits| && InOrder(edits[i..], cursor, |content|)
    && undone + Undo(content, edits[i..], cursor, at) == Undo(content, edits, 0, 0)
  }

  lemma NothingWritten(content: string, edits: seq<Edit>)
    requires InOrder(edits, 0, |content|)
    ensures WrittenTo(content, edits, 0, 0, "") && RecordedTo(content, edits, 0, 0, 0, [])
  {
    assert edits[0..] == edits;
  }

  lemma WrittenNext(content: string, edits: seq<Edit>, i: nat, cursor: nat, output: string)
    requires InOrder(edits, 0, |content|) && WrittenTo(content, edits, i, cursor, output) && i < |edits|
    ensures cursor <= edits[i].start <= edits[i].end <= |content|
    ensures WrittenTo(content, edits, i + 1, edits[i].end, output + content[cursor..edits[i].start] + edits[i].text)
  {
    ApplyNext(content, edits, i, cursor);
    var edit := edits[i];
    var copied, rest := content[cursor..edit.start], Apply(content, edits[i + 1..], edit.end);
    Associate(output, copied, edit.text + rest);
    Associate(output + copied, edit.text, rest);
  }

  lemma RecordedNext(content: string, edits: seq<Edit>, i: nat, cursor: nat, at: nat, undone: seq<Edit>)
    requires InOrder(edits, 0, |content|) && RecordedTo(content, edits, i, cursor, at, undone) && i < |edits|
    ensures cursor <= edits[i].start <= edits[i].end <= |content|
    ensures var start, edit := at + (edits[i].start - cursor), edits[i];
            RecordedTo(content, edits, i + 1, edit.end, start + |edit.text|,
                       undone + [Edit(start, start + |edit.text|, content[edit.start..edit.end])])
  {
    UndoNext(content, edits, i, cursor, at);
    var edit := edits[i];
    var start := at + (edit.start - cursor);
    var one := [Edit(start, start + |edit.text|, content[edit.start..edit.end])];
    AssociateEdits(undone, one, Undo(content, edits[i + 1..], edit.end, start + |edit.text|));
  }

  lemma AssociateEdits(a: seq<Edit>, b: seq<Edit>, c: seq<Edit>)
    ensures a + b + c == a + (b + c)
  {
  }

  lemma AllWritten(content: string, edits: seq<Edit>, cursor: nat, output: string, undone: seq<Edit>)
    requires InOrder(edits, 0, |content|)
    requires WrittenTo(content, edits, |edits|, cursor, output)
    requires RecordedTo(content, edits, |edits|, cursor, |output|, undone)
    ensures cursor <= |content| && output + content[cursor..] == Apply(content, edits, 0)
            && undone == Undo(content, edits, 0, 0)
  {
    assert edits[|edits|..] == [];
    assert undone + [] == undone;
  }

  lemma WrittenSnoc(hits: seq<Hit>, i: nat, undone: seq<Edit>, undo: Edit)
    requires i < |hits| && |undone| == i
    ensures Written(hits[..i + 1], undone + [undo])
              == Written(hits[..i], undone) + [Hit(undo.start, undo.end, hits[i].rule)]
  {
  }

  /** Each rule's matches counted against what it declares. */
  method CountsMatch(located: seq<Hit>, rules: seq<Rule>) returns (matched: bool)
    ensures matched <==> forall k | 0 <= k < |rules| :: CountRule(located, k) == rules[k].count
  {
    var index := 0;
    while index < |rules|
      invariant 0 <= index <= |rules|
      invariant forall k | 0 <= k < index :: CountRule(located, k) == rules[k].count
    {
      if CountRule(located, index) != rules[index].count { return false; }
      index := index + 1;
    }
    matched := true;
  }

  /** Edits made from matches inside the content. */
  ghost predicate EditsOf(content: string, rules: seq<Rule>, hits: seq<Hit>, edits: seq<Edit>) {
    && (forall i | 0 <= i < |hits| :: hits[i].rule < |rules| && hits[i].start <= hits[i].end <= |content|)
    && edits == Edits(hits, Values(rules))
  }

  ghost predicate Sofar(content: string, edits: seq<Edit>, i: nat, cursor: nat, output: string, undone: seq<Edit>) {
    InOrder(edits, 0, |content|) ==>
      WrittenTo(content, edits, i, cursor, output) && RecordedTo(content, edits, i, cursor, |output|, undone)
  }

  lemma SofarNext(content: string, edits: seq<Edit>, i: nat, cursor: nat, output: string, undone: seq<Edit>, start: nat,
                  written: string)
    requires Sofar(content, edits, i, cursor, output, undone) && i < |edits|
    requires cursor <= edits[i].start <= edits[i].end <= |content|
    requires start == |output| + (edits[i].start - cursor)
    requires written == output + content[cursor..edits[i].start] + edits[i].text
    ensures Sofar(content, edits, i + 1, edits[i].end, written,
                  undone + [Edit(start, |written|, content[edits[i].start..edits[i].end])])
  {
    if InOrder(edits, 0, |content|) {
      WrittenNext(content, edits, i, cursor, output);
      assert |written| == start + |edits[i].text|;
      RecordedNext(content, edits, i, cursor, |output|, undone);
    }
  }

  /** What one pass over the matches keeps, whether or not two of them overlap. */
  ghost predicate Passed(content: string, hits: seq<Hit>, edits: seq<Edit>, i: nat, cursor: nat, output: string,
                         spans: seq<Hit>, undone: seq<Edit>)
    requires |hits| == |edits|
  {
    && i <= |hits| && cursor <= |content|
    && (InOrder(edits[i..], cursor, |content|) <==> InOrder(edits, 0, |content|))
    && Sofar(content, edits, i, cursor, output, undone)
    && |undone| == i && spans == Written(hits[..i], undone)
  }

  lemma PassStarts(content: string, hits: seq<Hit>, edits: seq<Edit>)
    requires |hits| == |edits|
    ensures Passed(content, hits, edits, 0, 0, "", [], [])
  {
    assert edits[0..] == edits;
    if InOrder(edits, 0, |content|) { NothingWritten(content, edits); }
  }

  lemma PassNext(content: string, rules: seq<Rule>, hits: seq<Hit>, edits: seq<Edit>, i: nat, cursor: nat,
                 output: string, spans: seq<Hit>, undone: seq<Edit>, start: nat, written: string)
    requires EditsOf(content, rules, hits, edits) && Passed(content, hits, edits, i, cursor, output, spans, undone)
    requires i < |hits| && cursor <= hits[i].start
    requires start == |output| + (hits[i].start - cursor)
    requires written == output + content[cursor..hits[i].start] + rules[hits[i].rule].value
    ensures Passed(content, hits, edits, i + 1, hits[i].end, written, spans + [Hit(start, |written|, hits[i].rule)],
                   undone + [Edit(start, |written|, content[hits[i].start..hits[i].end])])
  {
    InOrderNext(edits, i, cursor, |content|);
    WrittenSnoc(hits, i, undone, Edit(start, |written|, content[hits[i].start..hits[i].end]));
    SofarNext(content, edits, i, cursor, output, undone, start, written);
  }

  lemma PassEnds(content: string, hits: seq<Hit>, edits: seq<Edit>, cursor: nat, output: string, spans: seq<Hit>,
                 undone: seq<Edit>)
    requires |hits| == |edits| && Passed(content, hits, edits, |hits|, cursor, output, spans, undone)
    ensures InOrder(edits, 0, |content|) && output + content[cursor..] == Apply(content, edits, 0)
    ensures spans == Written(hits, Undo(content, edits, 0, 0))
  {
    assert edits[|hits|..] == [];
    assert hits[..|hits|] == hits;
    AllWritten(content, edits, cursor, output, undone);
  }

  /** The located matches replaced in one pass, or an error where two overlap. */
  method WriteSpans(committed: string, rules: seq<Rule>, located: seq<Hit>) returns (done: Option<(string, seq<Hit>)>)
    requires forall i | 0 <= i < |located| ::
               located[i].rule < |rules| && located[i].start <= located[i].end <= |committed|
    ensures var edits := Edits(located, Values(rules));
            if InOrder(edits, 0, |committed|)
            then done == Some((Apply(committed, edits, 0), Written(located, Undo(committed, edits, 0, 0))))
            else done == None
  {
    ghost var edits := Edits(located, Values(rules));
    var output, spans := "", [];
    var cursor: nat, i: nat := 0, 0;
    ghost var undone: seq<Edit> := [];
    PassStarts(committed, located, edits);
    while i < |located|
      invariant 0 <= i <= |located| && cursor <= |committed|
      invariant Passed(committed, located, edits, i, cursor, output, spans, undone)
    {
      var hit := located[i];
      if hit.start < cursor {
        InOrderNext(edits, i, cursor, |committed|);
        return None;
      }
      ghost var before := output;
      output := output + committed[cursor..hit.start];
      var start := |output|;
      output := output + rules[hit.rule].value;
      PassNext(committed, rules, located, edits, i, cursor, before, spans, undone, start, output);
      spans := spans + [Hit(start, |output|, hit.rule)];
      undone := undone + [Edit(start, |output|, committed[hit.start..hit.end])];
      cursor := hit.end;
      i := i + 1;
    }
    PassEnds(committed, located, edits, cursor, output, spans, undone);
    output := output + committed[cursor..];
    done := Some((output, spans));
  }

  /** The output and, for each value in it, its span. */
  method SubstituteSpans(committed: string, rules: seq<Rule>) returns (done: Option<(string, seq<Hit>)>)
    ensures done.Some? <==> Substitute(committed, rules).Ok?
    ensures done.Some? ==> done.value == (Substitute(committed, rules).value, Spans(committed, rules))
  {
    var finds := Finds(rules);
    var located := Locate(committed, finds);
    LocatedIs(committed, finds);
    forall i | 0 <= i < |located|
      ensures located[i].rule < |rules| && located[i].start <= located[i].end <= |committed|
    {
      assert located[i] in located;
      HitSpan(committed, finds, located[i]);
    }
    var matched := CountsMatch(located, rules);
    if !matched { return None; }
    done := WriteSpans(committed, rules, located);
  }

  method Compose(committed: string, rules: seq<Rule>) returns (done: Result<string>)
    ensures done == Composed(committed, rules)
  {
    var substituted := SubstituteSpans(committed, rules);
    if substituted.None? { return Err; }
    var content, index := substituted.value.0, 0;
    while index < |rules|
      invariant 0 <= index <= |rules|
      invariant forall k | 0 <= k < index :: MatchCount(content, rules[k].value) == rules[k].count
    {
      if MatchCount(content, rules[index].value) != rules[index].count { return Err; }
      index := index + 1;
    }
    done := Ok(content);
  }

  lemma KeptNext(hits: seq<Hit>, i: nat, cursor: nat)
    requires i < |hits|
    ensures Kept(hits[i..], cursor) ==
            if hits[i].start < cursor then Kept(hits[i + 1..], cursor) else [hits[i]] + Kept(hits[i + 1..], hits[i].end)
  {
    assert hits[i..][1..] == hits[i + 1..];
  }

  /** `output` is what has been written up to `cursor`, before the `i`-th match. */
  ghost predicate SwappedTo(content: string, from: seq<string>, to: seq<string>, hits: seq<Hit>, i: nat, cursor: nat,
                            output: string)
    requires |from| == |to| && AllHits(content, from, hits)
  {
    && i <= |hits| && cursor <= |content| && KeptFits(hits[i..], cursor, to, |content|)
    && output + Apply(content, Edits(Kept(hits[i..], cursor), to), cursor) == SwapHits(content, from, to, hits)
  }

  ghost predicate KeptFits(hits: seq<Hit>, cursor: nat, to: seq<string>, upto: nat) {
    && (forall k | 0 <= k < |Kept(hits, cursor)| :: Kept(hits, cursor)[k].rule < |to|)
    && InOrder(Edits(Kept(hits, cursor), to), cursor, upto)
  }

  lemma NothingSwapped(content: string, from: seq<string>, to: seq<string>, hits: seq<Hit>)
    requires |from| == |to| && AllHits(content, from, hits)
    ensures SwappedTo(content, from, to, hits, 0, 0, "")
  {
    assert hits[0..] == hits;
    KeptInOrder(content, from, hits, to, 0);
  }

  lemma SwappedPast(content: string, from: seq<string>, to: seq<string>, hits: seq<Hit>, i: nat, cursor: nat,
                    output: string)
    requires |from| == |to| && AllHits(content, from, hits) && SwappedTo(content, from, to, hits, i, cursor, output)
    requires i < |hits| && hits[i].start < cursor
    ensures SwappedTo(content, from, to, hits, i + 1, cursor, output)
  {
    KeptNext(hits, i, cursor);
  }

  lemma SwappedNext(content: string, from: seq<string>, to: seq<string>, hits: seq<Hit>, i: nat, cursor: nat,
                    output: string)
    requires |from| == |to| && AllHits(content, from, hits) && SwappedTo(content, from, to, hits, i, cursor, output)
    requires i < |hits| && hits[i].start >= cursor
    ensures var hit := hits[i];
            && hit.start <= hit.end <= |content| && hit.rule < |to|
            && SwappedTo(content, from, to, hits, i + 1, hit.end, output + content[cursor..hit.start] + to[hit.rule])
  {
    var hit := hits[i];
    HitSpan(content, from, hit);
    KeptNext(hits, i, cursor);
    KeptInOrder(content, from, hits[i + 1..], to, hit.end);
    var rest, edit := Edits(Kept(hits[i + 1..], hit.end), to), Edit(hit.start, hit.end, to[hit.rule]);
    EditsCons(hit, Kept(hits[i + 1..], hit.end), to);
    ApplyCons(content, edit, rest, cursor);
    Associate(output, content[cursor..hit.start], edit.text + Apply(content, rest, hit.end));
    Associate(output + content[cursor..hit.start], edit.text, Apply(content, rest, hit.end));
  }

  lemma EditsCons(hit: Hit, hits: seq<Hit>, to: seq<string>)
    requires hit.rule < |to| && forall k | 0 <= k < |hits| :: hits[k].rule < |to|
    ensures Edits([hit] + hits, to) == [Edit(hit.start, hit.end, to[hit.rule])] + Edits(hits, to)
  {
  }

  lemma AllSwapped(content: string, from: seq<string>, to: seq<string>, hits: seq<Hit>, cursor: nat, output: string)
    requires |from| == |to| && AllHits(content, from, hits)
             && SwappedTo(content, from, to, hits, |hits|, cursor, output)
    ensures cursor <= |content| && output + content[cursor..] == SwapHits(content, from, to, hits)
  {
    assert hits[|hits|..] == [];
  }

  /** Every match replaced, leftmost first, overlapping ones passed over. */
  method Swap(content: string, from: seq<string>, to: seq<string>) returns (output: string)
    requires |from| == |to|
    ensures output == SwapEvery(content, from, to)
  {
    var located := Locate(content, from);
    LocatedAreHits(content, from);
    output := "";
    var cursor: nat, i: nat := 0, 0;
    NothingSwapped(content, from, to, located);
    while i < |located|
      invariant 0 <= i <= |located| && cursor <= |content|
      invariant SwappedTo(content, from, to, located, i, cursor, output)
    {
      var hit := located[i];
      if hit.start < cursor {
        SwappedPast(content, from, to, located, i, cursor, output);
      } else {
        SwappedNext(content, from, to, located, i, cursor, output);
        output := output + content[cursor..hit.start] + to[hit.rule];
        cursor := hit.end;
      }
      i := i + 1;
    }
    AllSwapped(content, from, to, located, cursor, output);
    output := output + content[cursor..];
  }
}
