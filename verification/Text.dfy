/**
 Byte strings by lines: what splitting on newlines and joining lines back keeps,
 for messages and headers, which are read and written a line at a time.
 */
module Text {
  const NEWLINE := "\n"
  const BLANK := "\n\n"

  /** `text.split('\n')`: one line more than there are newlines. */
  function Lines(text: string): (lines: seq<string>)
    ensures lines != []
    ensures NoNewlines(lines)
  {
    if text == "" then [""]
    else
      var rest := Lines(text[1..]);
      if text[0] == '\n' then [""] + rest else [[text[0]] + rest[0]] + rest[1..]
  }

  /** Lines joined with newlines. */
  function Join(lines: seq<string>): string {
    if lines == [] then ""
    else if |lines| == 1 then lines[0]
    else lines[0] + NEWLINE + Join(lines[1..])
  }

  /** Every line followed by a newline. */
  function Ended(lines: seq<string>): string {
    if lines == [] then "" else lines[0] + NEWLINE + Ended(lines[1..])
  }

  predicate NonBlank(lines: seq<string>) {
    forall i | 0 <= i < |lines| :: lines[i] != ""
  }

  predicate NoNewlines(lines: seq<string>) {
    forall i | 0 <= i < |lines| :: '\n' !in lines[i]
  }

  /** Whether an empty line lies inside `text`: two newlines in a row. */
  predicate BlankAt(text: string, at: nat) {
    at + 1 < |text| && text[at] == '\n' && text[at + 1] == '\n'
  }

  lemma {:induction false} JoinLines(text: string)
    ensures Join(Lines(text)) == text
  {
    if text != "" {
      JoinLines(text[1..]);
      var rest := Lines(text[1..]);
      var lines := Lines(text);
      if text[0] == '\n' {
        assert lines[1..] == rest;
      } else if |rest| > 1 {
        assert lines[1..] == rest[1..];
        assert Join(lines) == [text[0]] + (rest[0] + NEWLINE + Join(rest[1..]));
      }
    }
  }

  lemma {:induction false} LinesOfLine(line: string, rest: string)
    requires '\n' !in line
    ensures Lines(line) == [line]
    ensures Lines(line + NEWLINE + rest) == [line] + Lines(rest)
  {
    var whole := line + NEWLINE + rest;
    if line == "" {
      assert whole[1..] == rest;
    } else {
      LinesOfLine(line[1..], rest);
      assert whole[1..] == line[1..] + NEWLINE + rest;
      assert [line[0]] + line[1..] == line;
    }
  }

  lemma {:induction false} LinesJoined(lines: seq<string>)
    requires lines != [] && NoNewlines(lines)
    ensures Lines(Join(lines)) == lines
  {
    var rest := Join(lines[1..]);
    LinesOfLine(lines[0], rest);
    if |lines| > 1 {
      LinesJoined(lines[1..]);
      assert Join(lines) == lines[0] + NEWLINE + rest;
    } else {
      assert lines == [lines[0]];
    }
  }

  /** Ending every line is joining them with one empty line more. */
  lemma {:induction false} EndedIsJoined(lines: seq<string>, last: string)
    ensures Ended(lines) + last == Join(lines + [last])
  {
    if lines == [] {
      assert lines + [last] == [last];
    } else {
      EndedIsJoined(lines[1..], last);
      assert (lines + [last])[1..] == lines[1..] + [last];
      assert Ended(lines) + last == lines[0] + NEWLINE + (Ended(lines[1..]) + last);
    }
  }

  lemma {:induction false} LinesEnded(lines: seq<string>)
    requires NoNewlines(lines)
    ensures Lines(Ended(lines)) == lines + [""]
  {
    EndedIsJoined(lines, "");
    assert Ended(lines) + "" == Ended(lines);
    LinesJoined(lines + [""]);
  }

  /** Joined non-blank lines hold no empty line, and start with none. */
  lemma {:induction false} NoBlankJoined(lines: seq<string>, at: nat)
    requires NonBlank(lines) && NoNewlines(lines)
    ensures !BlankAt(Join(lines), at)
    ensures lines != [] ==> Join(lines) != "" && Join(lines)[0] == lines[0][0] && Join(lines)[0] != '\n'
    decreases lines
  {
    if lines != [] {
      if |lines| > 1 {
        NoBlankJoined(lines[1..], if at > |lines[0]| then at - |lines[0]| - 1 else 0);
        var rest := Join(lines[1..]);
        assert Join(lines) == lines[0] + NEWLINE + rest;
        if at > |lines[0]| && at < |Join(lines)| {
          assert Join(lines)[at] == rest[at - |lines[0]| - 1];
        }
      }
    }
  }
}
