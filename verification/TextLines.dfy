/** Splitting text into lines the way `str::lines` does, and joining lines back. */
module TextLines {

  /** The line without one trailing carriage return. */
  function StripReturn(line: string): string {
    if line != "" && line[|line| - 1] == '\r' then line[..|line| - 1] else line
  }

  /** Lines end at a line feed; text after the last one is a line, nothing is not. */
  function Lines(text: string): seq<string> {
    LinesFrom("", text)
  }

  function LinesFrom(current: string, text: string): seq<string>
    decreases |text|
  {
    if text == "" then (if current == "" then [] else [current])
    else if text[0] == '\n' then [StripReturn(current)] + LinesFrom("", text[1..])
    else LinesFrom(current + [text[0]], text[1..])
  }

  /** Every line with its line feed. */
  function Join(lines: seq<string>): string {
    if lines == [] then "" else Join(lines[..|lines| - 1]) + lines[|lines| - 1] + "\n"
  }

  /** A line that comes back as it is. */
  predicate IsLine(line: string) {
    '\n' !in line && (line == "" || line[|line| - 1] != '\r')
  }

  predicate AreLines(lines: seq<string>) {
    forall i :: 0 <= i < |lines| ==> IsLine(lines[i])
  }

  lemma {:induction false} OneLine(current: string, line: string, rest: string)
    requires '\n' !in line
    ensures LinesFrom(current, line + "\n" + rest) == [StripReturn(current + line)] + LinesFrom("", rest)
    decreases |line|
  {
    var text := line + "\n" + rest;
    if line == "" {
      assert text[1..] == rest;
      assert current + line == current;
    } else {
      assert text[1..] == line[1..] + "\n" + rest;
      OneLine(current + [line[0]], line[1..], rest);
      assert current + [line[0]] + line[1..] == current + line;
    }
  }

  lemma {:induction false} JoinFirst(lines: seq<string>)
    requires lines != []
    ensures Join(lines) == lines[0] + "\n" + Join(lines[1..])
    decreases |lines|
  {
    if |lines| > 1 {
      JoinFirst(lines[..|lines| - 1]);
      assert lines[..|lines| - 1][1..] == lines[1..][..|lines| - 2];
    }
  }

  /** Splitting inverts joining. */
  lemma {:induction false} LinesOfJoin(lines: seq<string>)
    requires AreLines(lines)
    ensures Lines(Join(lines)) == lines
    decreases |lines|
  {
    if lines != [] {
      JoinFirst(lines);
      OneLine("", lines[0], Join(lines[1..]));
      assert "" + lines[0] == lines[0];
      LinesOfJoin(lines[1..]);
      assert lines == [lines[0]] + lines[1..];
    }
  }

  lemma JoinOneMore(lines: seq<string>, line: string)
    ensures Join(lines + [line]) == Join(lines) + line + "\n"
  {
  }

  lemma Reassociate(a: string, b: string, c: string)
    ensures a + (b + c + "\n") == (a + b) + c + "\n"
  {
  }

  lemma {:induction false} JoinAppend(a: seq<string>, b: seq<string>)
    ensures Join(a + b) == Join(a) + Join(b)
    decreases |b|
  {
    if b == [] {
      assert a + b == a;
    } else {
      var init, last := b[..|b| - 1], b[|b| - 1];
      JoinAppend(a, init);
      JoinOneMore(a + init, last);
      JoinOneMore(init, last);
      assert b == init + [last] && a + b == (a + init) + [last];
      Reassociate(Join(a), Join(init), last);
    }
  }

  // ----- the trailing line feeds -----

  function TrimLineFeeds(text: string): string
    decreases |text|
  {
    if text != "" && text[|text| - 1] == '\n' then TrimLineFeeds(text[..|text| - 1]) else text
  }

  function FinalizeTextSnapshot(snapshot: string): string {
    var content := TrimLineFeeds(snapshot);
    if content == "" then "" else content + "\n"
  }

  /** Finalizing drops the empty line at the end and nothing else. */
  lemma FinalizeJoin(lines: seq<string>, last: string)
    requires '\n' !in last && last != ""
    ensures FinalizeTextSnapshot(Join(lines + [last, ""])) == Join(lines + [last])
  {
    var content := Join(lines) + last;
    assert (lines + [last])[..|lines|] == lines;
    assert Join(lines + [last]) == content + "\n";
    assert (lines + [last, ""])[..|lines| + 1] == lines + [last];
    var text := Join(lines + [last, ""]);
    assert text == content + "\n" + "\n";
    assert text[..|text| - 1] == content + "\n" && (content + "\n")[..|content|] == content;
    assert content[|content| - 1] == last[|last| - 1];
    assert TrimLineFeeds(content) == content;
    assert TrimLineFeeds(content + "\n") == content;
    assert TrimLineFeeds(text) == content;
  }

  // ----- what the two functions do to any text -----

  /** `Lines` by its first line: a line feed ends it, with a carriage return right
      before it, and the end of the text ends it as it is. */
  lemma FirstLine(line: string, rest: string)
    requires '\n' !in line
    ensures Lines(line + "\n" + rest)
      == [if line != "" && line[|line| - 1] == '\r' then line[..|line| - 1] else line] + Lines(rest)
    ensures Lines(line) == if line == "" then [] else [line]
  {
    OneLine("", line, rest);
    assert "" + line == line;
    LastLine("", line);
  }

  lemma {:induction false} LastLine(current: string, line: string)
    requires '\n' !in line
    ensures LinesFrom(current, line) == if current + line == "" then [] else [current + line]
    decreases |line|
  {
    if line == "" {
      assert current + line == current;
    } else {
      LastLine(current + [line[0]], line[1..]);
      assert current + [line[0]] + line[1..] == current + line;
    }
  }

  lemma {:induction false} TrimmedIs(text: string)
    ensures var t := TrimLineFeeds(text);
      t <= text && (t == "" || t[|t| - 1] != '\n') && forall i :: |t| <= i < |text| ==> text[i] == '\n'
    decreases |text|
  {
    if text != "" && text[|text| - 1] == '\n' {
      TrimmedIs(text[..|text| - 1]);
    }
  }

  /** Finalizing leaves one line feed of those at the end, and nothing where there
      is nothing else. */
  lemma FinalizedIs(text: string, content: string)
    requires content <= text && (forall i :: |content| <= i < |text| ==> text[i] == '\n')
    requires content == "" || content[|content| - 1] != '\n'
    ensures FinalizeTextSnapshot(text) == if content == "" then "" else content + "\n"
  {
    TrimmedIs(text);
    var t := TrimLineFeeds(text);
    assert t == text[..|t|] && content == text[..|content|];
    assert |t| == |content|;
  }
}
