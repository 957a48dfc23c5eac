/** Which renders are accepted and still do not come back. */
module RenderLimits {
  // Counting values in the finished file does not make every render reversible,
  // nor leave every claim one that still renders once another is taken out.

  import opened Wrappers
  import opened Render
  import opened RenderInverse
  import opened Renderer

  // ---- one match ------------------------------------------------------------------

  /** A needle is found once, there. */
  ghost predicate FoundOnce(text: string, needle: string, at: nat) {
    Greedy(text, needle, 0) == [at]
  }

  lemma OneNeedle(text: string, needle: string, at: nat)
    requires FoundOnce(text, needle, at)
    ensures Located(text, [needle]) == [Hit(at, at + |needle|, 0)]
  {
    var hit := Hit(at, at + |needle|, 0);
    assert Insert(hit, []) == [hit];
    InsertAllStep(at, [], |needle|, 0, []);
    assert [at] + [] == [at];
    assert InsertAll([], |needle|, 0, [hit]) == [hit];
    assert LocatedUpTo(text, [needle], 1) == InsertAll([at], |needle|, 0, []);
  }

  /** `text` with its one match of a needle replaced. */
  function Replaced(text: string, length: nat, at: nat, by_: string): string
    requires at + length <= |text|
  {
    text[..at] + by_ + text[at + length..]
  }

  lemma OneApplied(text: string, length: nat, at: nat, by_: string)
    requires at + length <= |text|
    ensures InOrder([Edit(at, at + length, by_)], 0, |text|)
    ensures Apply(text, [Edit(at, at + length, by_)], 0) == Replaced(text, length, at, by_)
  {
    var edits := [Edit(at, at + length, by_)];
    NothingLeft(text, at + length);
    ApplyCons(text, Edit(at, at + length, by_), [], 0);
    assert edits == [Edit(at, at + length, by_)] + [];
    assert text[0..at] == text[..at];
  }

  lemma NothingLeft(text: string, cursor: nat)
    requires cursor <= |text|
    ensures InOrder([], cursor, |text|) && Apply(text, [], cursor) == text[cursor..]
  {
  }

  lemma OneRule(rule: Rule)
    ensures Finds([rule]) == [rule.find] && Values([rule]) == [rule.value]
  {
  }

  lemma OneEdit(start: nat, end: nat, value: string)
    ensures Edits([Hit(start, end, 0)], [value]) == [Edit(start, end, value)]
  {
  }

  /** Each rule matched as often as it declares. */
  ghost predicate CountsMatch(hits: seq<Hit>, rules: seq<Rule>) {
    forall k | 0 <= k < |rules| :: CountRule(hits, k) == rules[k].count
  }

  /** Where every rule matched as declared and the edits are in order, substituting applies them. */
  lemma SubstituteIs(content: string, rules: seq<Rule>, hits: seq<Hit>, edits: seq<Edit>, output: string)
    requires hits == Located(content, Finds(rules)) && forall i | 0 <= i < |hits| :: hits[i].rule < |rules|
    requires CountsMatch(hits, rules)
    requires edits == Edits(hits, Values(rules)) && InOrder(edits, 0, |content|) && output == Apply(content, edits, 0)
    ensures Substitute(content, rules) == Ok(output)
  {
  }

  lemma SwapIs(content: string, from: seq<string>, to: seq<string>, hits: seq<Hit>, edits: seq<Edit>, output: string)
    requires |from| == |to| && hits == Located(content, from) && Kept(hits, 0) == hits
    requires forall i | 0 <= i < |hits| :: hits[i].rule < |to|
    requires edits == Edits(hits, to) && InOrder(edits, 0, |content|) && output == Apply(content, edits, 0)
    ensures SwapEvery(content, from, to) == output
  {
  }

  lemma OneCounted(hit: Hit, rule: Rule)
    requires hit.rule == 0 && rule.count == 1
    ensures CountsMatch([hit], [rule])
  {
    assert [hit][1..] == [];
  }

  lemma OneLocated(text: string, rule: Rule, at: nat, hits: seq<Hit>)
    requires FoundOnce(text, rule.find, at) && hits == [Hit(at, at + |rule.find|, 0)]
    ensures Located(text, Finds([rule])) == hits
  {
    OneNeedle(text, rule.find, at);
    OneRule(rule);
  }

  /** Substituting a rule that matches once replaces that match. */
  lemma OneSubstituted(text: string, rule: Rule, at: nat, output: string)
    requires rule.count == 1 && FoundOnce(text, rule.find, at) && at + |rule.find| <= |text|
    requires output == Replaced(text, |rule.find|, at, rule.value)
    ensures Substitute(text, [rule]) == Ok(output)
  {
    var end := at + |rule.find|;
    var hits, edits := [Hit(at, end, 0)], [Edit(at, end, rule.value)];
    OneLocated(text, rule, at, hits);
    assert edits == Edits(hits, Values([rule])) by {
      OneRule(rule);
      OneEdit(at, end, rule.value);
    }
    assert CountsMatch(hits, [rule]) by { OneCounted(Hit(at, end, 0), rule); }
    OneApplied(text, |rule.find|, at, rule.value);
    SubstituteIs(text, [rule], hits, edits, output);
  }

  lemma OneKept(hit: Hit)
    ensures Kept([hit], 0) == [hit]
  {
    assert [hit][1..] == [] && Kept([], hit.end) == [];
  }

  /** So does swapping it. */
  lemma OneSwapped(text: string, needle: string, value: string, at: nat, output: string)
    requires FoundOnce(text, needle, at) && at + |needle| <= |text|
    requires output == Replaced(text, |needle|, at, value)
    ensures SwapEvery(text, [needle], [value]) == output
  {
    var end := at + |needle|;
    var hits, edits := [Hit(at, end, 0)], [Edit(at, end, value)];
    assert hits == Located(text, [needle]) by { OneNeedle(text, needle, at); }
    assert edits == Edits(hits, [value]) by { OneEdit(at, end, value); }
    assert Kept(hits, 0) == hits by { OneKept(Hit(at, end, 0)); }
    OneApplied(text, |needle|, at, value);
    SwapIs(text, [needle], [value], hits, edits, output);
  }

  /** A character that stands once in a text is found there. */
  lemma OneCharacter(text: string, c: char, at: nat)
    requires at < |text| && text[at] == c && forall k | 0 <= k < |text| && k != at :: text[k] != c
    ensures FoundOnce(text, [c], at)
  {
    assert text[at..at + 1] == [c];
    forall k: nat | MatchAt(text, [c], k) ensures k == at { assert text[k..k + 1][0] == text[k]; }
    OnlyMatch(text, [c], at);
  }

  lemma FirstIs(text: string, needle: string, from: nat, at: nat)
    requires from <= at && MatchAt(text, needle, at)
    requires forall k: nat | from <= k < at :: !MatchAt(text, needle, k)
    ensures FirstMatch(text, needle, from) == Some(at)
  {
  }

  lemma OnlyMatch(text: string, needle: string, at: nat)
    requires needle != "" && MatchAt(text, needle, at)
    requires forall k: nat | MatchAt(text, needle, k) && (k < at || at + |needle| <= k) :: false
    ensures FoundOnce(text, needle, at)
  {
    FirstIs(text, needle, 0, at);
    assert FirstMatch(text, needle, at + |needle|).None?;
  }

  // ---- values that overlap themselves -----------------------------------------------

  /** Every render of one rule writing `value` that is accepted reverses to what was committed. */
  ghost predicate AlwaysComesBack(value: string) {
    forall committed: string, rule: Rule | rule.value == value && Composed(committed, [rule]).Ok? ::
      Reverse(Composed(committed, [rule]).value, [rule]) == committed
  }

  function Copies(c: char, count: nat): string { seq(count, i => c) }

  /** A character that is neither of two. */
  function Neither(a: char, b: char): (c: char)
    ensures c != a && c != b
  {
    if a != 'a' && b != 'a' then 'a' else if a != 'b' && b != 'b' then 'b' else 'c'
  }

  /** A value some proper prefix of which is its suffix, taken apart there: it is one period, and then its own start. */
  lemma Period(value: string, k: nat)
    requires 0 < k < |value| && value[..k] == value[|value| - k..]
    ensures var period := value[..|value| - k];
            MatchAt(period + value, value, 0) && MatchAt(period + value, value, |period|)
  {
    var period := value[..|value| - k];
    assert value == period + value[|value| - k..];
    assert (period + value)[..|value|] == period + value[..k];
  }

  lemma OverlapFound(value: string, k: nat)
    requires 0 < k < |value| && value[..k] == value[|value| - k..]
    ensures FoundOnce(value[..|value| - k] + value, value, 0)
  {
    Period(value, k);
    OnlyMatch(value[..|value| - k] + value, value, 0);
  }

  /** What is committed to be rendered to a value overlapping itself: one period, and then what is found. */
  lemma CommittedFound(period: string, c: char, length: nat)
    requires period != "" && |period| < length && period[|period| - 1] != c
    ensures FoundOnce(period + Copies(c, length), Copies(c, length), |period|)
  {
    var text, find := period + Copies(c, length), Copies(c, length);
    assert text[|period|..|period| + length] == find;
    forall k: nat | k < |period| ensures !MatchAt(text, find, k) {
      assert text[k..k + |find|][|period| - 1 - k] == period[|period| - 1] != find[|period| - 1 - k];
    }
    OnlyMatch(text, find, |period|);
  }

  /** A value that can overlap itself is written by a render that is accepted, and does not come back. */
  lemma OverlapIsLost(value: string, k: nat) returns (committed: string, rule: Rule)
    requires 0 < k < |value| && value[..k] == value[|value| - k..]
    ensures rule.value == value && Composed(committed, [rule]).Ok?
    ensures Reverse(Composed(committed, [rule]).value, [rule]) != committed
  {
    var period := value[..|value| - k];
    var c := Neither(period[0], period[|period| - 1]);
    var find := Copies(c, |value| + 1);
    committed, rule := period + find, Rule(find, value, 1);
    CommittedFound(period, c, |value| + 1);
    var output := period + value;
    assert Replaced(committed, |find|, |period|, value) == output;
    OneSubstituted(committed, rule, |period|, output);
    OverlapFound(value, k);
    assert MatchCount(output, value) == 1;
    assert Composed(committed, [rule]) == Ok(output);
    OneSwapped(output, value, find, 0, Replaced(output, |value|, 0, find));
    OneRule(rule);
    assert Reverse(output, [rule]) == Replaced(output, |value|, 0, find);
    assert Replaced(output, |value|, 0, find)[0] == c && committed[0] == period[0];
  }

  /** Nor does the empty value, which is found nowhere again. */
  lemma EmptyIsLost() returns (committed: string, rule: Rule)
    ensures rule.value == "" && Composed(committed, [rule]).Ok?
    ensures Reverse(Composed(committed, [rule]).value, [rule]) != committed
  {
    committed, rule := "X", Rule("X", "", 1);
    assert "X"[0..1] == "X";
    OnlyMatch("X", "X", 0);
    assert Replaced("X", 1, 0, "") == "";
    OneSubstituted("X", rule, 0, "");
    assert Composed("X", [rule]) == Ok("");
    assert Values([rule]) == [""] && Finds([rule]) == ["X"];
    assert LocatedUpTo("", [""], 1) == InsertAll([], 0, 0, []);
    assert Located("", [""]) == [];
    assert Kept([], 0) == [];
    assert Apply("", [], 0) == "";
  }

  /**
   Renders of a value come back, whatever it replaces and wherever, if and only
   if it is not empty and cannot overlap itself. The check made is not this one:
   it counts the value in the finished file.
   */
  lemma ComesBackExactlyWhen(value: string)
    ensures AlwaysComesBack(value) <==> value != "" && Unbordered(value)
  {
    if value == "" {
      var committed, rule := EmptyIsLost();
    } else if k :| 0 < k < |value| && value[..k] == value[|value| - k..] {
      var committed, rule := OverlapIsLost(value, k);
    } else {
      forall committed: string, rule: Rule | rule.value == value && Composed(committed, [rule]).Ok?
        ensures Reverse(Composed(committed, [rule]).value, [rule]) == committed
      {
        ReverseAll(committed, [rule], Composed(committed, [rule]).value);
      }
    }
  }

  lemma OverlapTexts()
    ensures Replaced("aX", 1, 1, "aa") == "aaa" && Replaced("aaa", 2, 0, "X") == "Xa"
    ensures MatchAt("aaa", "aa", 0)
  {
    assert "aaa"[0..2] == "aa";
  }

  /** A render that is accepted, and comes back as something else. */
  lemma OverlapComesBackWrong()
    ensures var rules := [Rule("X", "aa", 1)];
            Composed("aX", rules) == Ok("aaa") && Reverse("aaa", rules) == "Xa"
  {
    var rule := Rule("X", "aa", 1);
    OverlapTexts();
    OneCharacter("aX", 'X', 1);
    OneSubstituted("aX", rule, 1, "aaa");
    OnlyMatch("aaa", "aa", 0);
    OneWritten("aaa", rule);
    OneRule(rule);
    OneSwapped("aaa", "aa", "X", 0, "Xa");
  }

  lemma OneWritten(output: string, rule: Rule)
    requires rule.value != "" && |Greedy(output, rule.value, 0)| == rule.count
    ensures ValuesWritten(output, [rule])
  {
  }

  // ---- claims that no longer render -----------------------------------------------------

  lemma TwoNeedles(text: string, first: string, second: string, at: nat, further: nat)
    requires FoundOnce(text, first, at) && FoundOnce(text, second, further) && at < further
    ensures Located(text, [first, second]) == [Hit(at, at + |first|, 0), Hit(further, further + |second|, 1)]
  {
    var needles, left, right := [first, second], Hit(at, at + |first|, 0), Hit(further, further + |second|, 1);
    assert Insert(left, []) == [left];
    InsertAllStep(at, [], |first|, 0, []);
    assert [at] + [] == [at] && [further] + [] == [further];
    assert InsertAll([], |first|, 0, [left]) == [left];
    assert LocatedUpTo(text, needles, 1) == [left];
    assert [left][1..] == [];
    assert Insert(right, [left]) == [left] + Insert(right, []) == [left, right];
    InsertAllStep(further, [], |second|, 1, [left]);
    assert InsertAll([], |second|, 1, [left, right]) == [left, right];
  }

  lemma TwoRules(first: Rule, second: Rule)
    ensures Finds([first, second]) == [first.find, second.find]
            && Values([first, second]) == [first.value, second.value]
  {
  }

  lemma TwoLocated(text: string, first: Rule, second: Rule, at: nat, further: nat, hits: seq<Hit>)
    requires FoundOnce(text, first.find, at) && FoundOnce(text, second.find, further) && at < further
    requires hits == [Hit(at, at + |first.find|, 0), Hit(further, further + |second.find|, 1)]
    ensures Located(text, Finds([first, second])) == hits
  {
    TwoNeedles(text, first.find, second.find, at, further);
    TwoRules(first, second);
  }

  lemma TwoEdits(start: nat, end: nat, value: string, from: nat, to: nat, other: string)
    ensures Edits([Hit(start, end, 0), Hit(from, to, 1)], [value, other])
              == [Edit(start, end, value), Edit(from, to, other)]
  {
  }

  lemma TwoCounted(left: Hit, right: Hit, first: Rule, second: Rule)
    requires left.rule == 0 && right.rule == 1 && first.count == second.count == 1
    ensures CountsMatch([left, right], [first, second])
  {
    assert [left, right][1..] == [right] && [right][1..] == [];
    assert CountRule([], 0) == CountRule([], 1) == 0;
    assert CountRule([right], 0) == 0;
    assert CountRule([right], 1) == 1;
    assert CountRule([left, right], 0) == 1 && CountRule([left, right], 1) == 1;
  }

  /** `text` with two stretches of it replaced. */
  function ReplacedTwo(text: string, start: nat, end: nat, value: string, from: nat, to: nat, other: string): string
    requires start <= end <= from <= to <= |text|
  {
    text[..start] + value + text[end..from] + other + text[to..]
  }

  /** Two rules that match once each, one after the other. */
  lemma TwoSubstituted(text: string, first: Rule, second: Rule, at: nat, further: nat, output: string)
    requires first.count == second.count == 1 && |first.find| > 0
    requires at + |first.find| <= further && further + |second.find| <= |text|
    requires FoundOnce(text, first.find, at) && FoundOnce(text, second.find, further)
    requires output
               == ReplacedTwo(text, at, at + |first.find|, first.value, further, further + |second.find|, second.value)
    ensures Substitute(text, [first, second]) == Ok(output)
  {
    var end, last := at + |first.find|, further + |second.find|;
    var hits := [Hit(at, end, 0), Hit(further, last, 1)];
    var edits := [Edit(at, end, first.value), Edit(further, last, second.value)];
    TwoLocated(text, first, second, at, further, hits);
    assert edits == Edits(hits, Values([first, second])) by {
      TwoRules(first, second);
      TwoEdits(at, end, first.value, further, last, second.value);
    }
    assert CountsMatch(hits, [first, second]) by { TwoCounted(hits[0], hits[1], first, second); }
    TwoApplied(text, at, end, first.value, further, last, second.value);
    SubstituteIs(text, [first, second], hits, edits, output);
  }

  lemma TwoApplied(text: string, start: nat, end: nat, value: string, from: nat, to: nat, other: string)
    requires start <= end <= from <= to <= |text|
    ensures InOrder([Edit(start, end, value), Edit(from, to, other)], 0, |text|)
    ensures Apply(text, [Edit(start, end, value), Edit(from, to, other)], 0)
            == ReplacedTwo(text, start, end, value, from, to, other)
  {
    var one, two := Edit(start, end, value), Edit(from, to, other);
    assert [one, two][1..] == [two] && [two][1..] == [];
    assert InOrder([two], end, |text|);
    assert Apply(text, [], to) == text[to..];
    var rest := Apply(text, [two], end);
    assert rest == text[end..from] + other + text[to..];
    assert text[0..start] == text[..start];
    assert Apply(text, [one, two], 0) == text[..start] + value + rest;
    Reassociated(text[..start] + value, text[end..from], other, text[to..]);
  }

  lemma Reassociated(a: string, b: string, c: string, d: string)
    ensures a + (b + c + d) == a + b + c + d
  {
  }

  lemma Texts()
    ensures Replaced("A B", 1, 2, "A") == "A A"
    ensures ReplacedTwo("A B", 0, 1, "p", 2, 3, "A") == "p A"
  {
  }

  /** Both values stand in the finished file once. */
  lemma BothWritten(one: Rule, two: Rule)
    requires one == Rule("A", "p", 1) && two == Rule("B", "A", 1)
    ensures ValuesWritten("p A", [one, two]) && Invertible([one, two])
  {
    OneCharacter("p A", 'p', 0);
    OneCharacter("p A", 'A', 2);
    assert MatchCount("p A", "p") == 1 && MatchCount("p A", "A") == 1;
  }

  lemma TogetherTheyRender(one: Rule, two: Rule)
    requires one == Rule("A", "p", 1) && two == Rule("B", "A", 1)
    ensures Composed("A B", [one, two]) == Ok("p A")
  {
    OneCharacter("A B", 'A', 0);
    OneCharacter("A B", 'B', 2);
    Texts();
    TwoSubstituted("A B", one, two, 0, 2, "p A");
    BothWritten(one, two);
  }

  lemma TwiceFound()
    ensures MatchCount("A A", "A") == 2
  {
    assert "A A"[0..1] == "A" && "A A"[1..2][0] != 'A' && "A A"[2..3] == "A";
    FirstIs("A A", "A", 0, 0);
    FirstIs("A A", "A", 1, 2);
    assert Greedy("A A", "A", 3) == [];
    assert Greedy("A A", "A", 1) == [2] + Greedy("A A", "A", 3);
  }

  lemma ClaimsTaken(one: Claim, two: Claim)
    ensures Rules([one, two][..0] + [one, two][1..]) == two.rules
    ensures Rules([one, two]) == one.rules + two.rules
  {
    assert [one, two][1..] == [two] && [one, two][..0] + [two] == [two] && [two][1..] == [];
    assert two.rules + [] == two.rules;
  }

  /**
   Two claims that render together, and one that no longer does once the other
   is taken out: what the first had replaced is what the second writes.
   */
  lemma RestIsRefused()
    ensures var claims := [Claim("one", [Rule("A", "p", 1)]), Claim("two", [Rule("B", "A", 1)])];
            && Composed("A B", Rules(claims)) == Ok("p A") && Invertible(Rules(claims))
            && Reverse("p A", claims[0].rules) == "A A"
            && Composed("A B", Rules(claims[..0] + claims[1..])).Err?
  {
    var one, two := Rule("A", "p", 1), Rule("B", "A", 1);
    var claims := [Claim("one", [one]), Claim("two", [two])];
    TogetherTheyRender(one, two);
    BothWritten(one, two);
    ClaimsTaken(claims[0], claims[1]);
    assert [one] + [two] == [one, two];
    ReverseOneClaim("A B", claims, "p A", 0);
    OneCharacter("A B", 'B', 2);
    Texts();
    OneSubstituted("A B", two, 2, "A A");
    TwiceFound();
    assert !ValuesWritten("A A", [two]);
  }
}
