/** The public API snapshot: rendering package inventories as text, parsing the
    text back, and the order in which packages are rendered. */
module ApiSnapshot {
  import opened Options
  import opened TextLines

  const CLI := "j2k-cli"
  const OPEN_FENCE := "```text"
  const CLOSE_FENCE := "```"
  const HEADING_START := "## `"

  function Heading(package: string): string {
    HEADING_START + package + "`"
  }

  /** The package a line is the heading of. */
  function HeadingOf(line: string): Option<string> {
    if HEADING_START <= line && |line| > |HEADING_START| && line[|line| - 1] == '`'
    then Some(line[|HEADING_START|..|line| - 1]) else None
  }

  predicate IsFence(line: string) {
    line == OPEN_FENCE || line == CLOSE_FENCE
  }

  /** A line that is neither heading nor fence. */
  predicate IsText(line: string) {
    HeadingOf(line) == None && !IsFence(line)
  }

  lemma HeadingRoundTrip(package: string)
    ensures HeadingOf(Heading(package)) == Some(package) && !IsFence(Heading(package))
  {
  }

  // ----- parsing -----

  datatype SnapshotError =
    | HeadingInFence | NestedFence | FenceBeforeHeading | DuplicateSection(package: string)
    | UnmatchedFence | EndsInFence | NoSections | MissingInventory(package: string) | DuplicateHeading(package: string)

  datatype ParseState = ParseState(package: Option<string>, inApi: bool, sections: map<string, set<string>>)

  predicate Consistent(s: ParseState) {
    s.inApi ==> s.package.Some? && s.package.value in s.sections
  }

  function ParseLine(s: ParseState, line: string): (r: Result<ParseState, SnapshotError>)
    requires Consistent(s)
    ensures r.Ok? ==> Consistent(r.value)
  {
    if HeadingOf(line).Some? then
      if s.inApi then Err(HeadingInFence) else Ok(s.(package := HeadingOf(line)))
    else if line == OPEN_FENCE then
      if s.inApi then Err(NestedFence)
      else if s.package == None then Err(FenceBeforeHeading)
      else if s.package.value in s.sections then Err(DuplicateSection(s.package.value))
      else Ok(ParseState(s.package, true, s.sections[s.package.value := {}]))
    else if line == CLOSE_FENCE then
      if s.inApi then Ok(s.(inApi := false)) else Err(UnmatchedFence)
    else if s.inApi && line != "" then
      Ok(s.(sections := s.sections[s.package.value := s.sections[s.package.value] + {line}]))
    else Ok(s)
  }

  function ParseLines(s: ParseState, lines: seq<string>): (r: Result<ParseState, SnapshotError>)
    requires Consistent(s)
    ensures r.Ok? ==> Consistent(r.value)
    decreases |lines|
  {
    if lines == [] then Ok(s)
    else
      match ParseLine(s, lines[0])
      case Err(e) => Err(e)
      case Ok(t) => ParseLines(t, lines[1..])
  }

  function Conclude(r: Result<ParseState, SnapshotError>): Result<map<string, set<string>>, SnapshotError> {
    if r.Err? then Err(r.error)
    else if r.value.inApi then Err(EndsInFence)
    else if r.value.sections == map[] then Err(NoSections)
    else Ok(r.value.sections)
  }

  const START := ParseState(None, false, map[])

  function Parsed(snapshot: string): Result<map<string, set<string>>, SnapshotError> {
    Conclude(ParseLines(START, Lines(snapshot)))
  }

  // ----- what a parse says about the lines -----

  /** Line `k` is the last fence before line `i`, and an opening one. */
  ghost predicate FenceFrom(lines: seq<string>, k: nat, i: nat)
    requires i <= |lines|
  {
    k < i && lines[k] == OPEN_FENCE && forall j :: k < j < i ==> !IsFence(lines[j])
  }

  ghost predicate InFence(lines: seq<string>, i: nat)
    requires i <= |lines|
  {
    exists k: nat :: FenceFrom(lines, k, i)
  }

  /** Line `k` is the last heading before line `i`, and that of `package`. */
  ghost predicate NameFrom(lines: seq<string>, k: nat, i: nat, package: string)
    requires i <= |lines|
  {
    k < i && HeadingOf(lines[k]) == Some(package) && forall j :: k < j < i ==> HeadingOf(lines[j]) == None
  }

  ghost predicate Named(lines: seq<string>, i: nat, package: string)
    requires i <= |lines|
  {
    exists k: nat :: NameFrom(lines, k, i, package)
  }

  /** A fence opens under the heading of `package`. */
  ghost predicate Opened(lines: seq<string>, i: nat, package: string)
    requires i <= |lines|
  {
    exists k :: 0 <= k < i && lines[k] == OPEN_FENCE && Named(lines, k, package)
  }

  /** The line stands between fences under the heading of `package`. */
  ghost predicate Listed(lines: seq<string>, i: nat, package: string, item: string)
    requires i <= |lines|
  {
    exists k :: 0 <= k < i && lines[k] == item && item != "" && IsText(item) && InFence(lines, k) && Named(lines, k, package)
  }

  /** What is wrong with line `i`. */
  ghost predicate ErrorAt(lines: seq<string>, i: nat, e: SnapshotError)
    requires i < |lines|
  {
    match e
    case HeadingInFence => HeadingOf(lines[i]).Some? && InFence(lines, i)
    case NestedFence => lines[i] == OPEN_FENCE && InFence(lines, i)
    case FenceBeforeHeading =>
      lines[i] == OPEN_FENCE && !InFence(lines, i) && forall k :: 0 <= k < i ==> HeadingOf(lines[k]) == None
    case DuplicateSection(p) => lines[i] == OPEN_FENCE && !InFence(lines, i) && Named(lines, i, p) && Opened(lines, i, p)
    case UnmatchedFence => lines[i] == CLOSE_FENCE && !InFence(lines, i)
    case _ => false
  }

  ghost predicate NoErrors(lines: seq<string>, n: nat)
    requires n <= |lines|
  {
    forall i, e :: 0 <= i < n ==> !ErrorAt(lines, i, e)
  }

  /** `e` is what is wrong with the first line with which something is. */
  ghost predicate FirstError(lines: seq<string>, e: SnapshotError) {
    exists i: nat :: i < |lines| && ErrorAt(lines, i, e) && NoErrors(lines, i)
  }

  /** The result of a parse, by the lines alone. */
  ghost predicate Describes(lines: seq<string>, r: Result<map<string, set<string>>, SnapshotError>) {
    match r
    case Ok(sections) =>
      && NoErrors(lines, |lines|) && !InFence(lines, |lines|) && OPEN_FENCE in lines
      && (forall p :: p in sections <==> Opened(lines, |lines|, p))
      && (forall p, item :: p in sections ==> (item in sections[p] <==> Listed(lines, |lines|, p, item)))
    case Err(EndsInFence) => NoErrors(lines, |lines|) && InFence(lines, |lines|)
    case Err(NoSections) => NoErrors(lines, |lines|) && !InFence(lines, |lines|) && OPEN_FENCE !in lines
    case Err(e) => FirstError(lines, e)
  }

  /** The state in front of line `i`, behind lines without errors. */
  ghost predicate StateAt(lines: seq<string>, i: nat, s: ParseState)
    requires i <= |lines|
  {
    && (s.inApi <==> InFence(lines, i))
    && (forall p :: s.package == Some(p) <==> Named(lines, i, p))
    && (forall p :: p in s.sections <==> Opened(lines, i, p))
    && (forall p, item :: p in s.sections ==> (item in s.sections[p] <==> Listed(lines, i, p, item)))
  }

  lemma FencesApart(line: string)
    ensures !(HeadingOf(line).Some? && IsFence(line)) && OPEN_FENCE != CLOSE_FENCE
    ensures OPEN_FENCE != "" && CLOSE_FENCE != ""
  {
    assert OPEN_FENCE[0] == '`' && CLOSE_FENCE[0] == '`' && HEADING_START[0] == '#';
    assert |OPEN_FENCE| != |CLOSE_FENCE|;
  }

  lemma FenceStep(lines: seq<string>, i: nat)
    requires i < |lines|
    ensures InFence(lines, i + 1) <==> lines[i] == OPEN_FENCE || (!IsFence(lines[i]) && InFence(lines, i))
  {
    FencesApart(lines[i]);
    if !IsFence(lines[i]) && InFence(lines, i) {
      var k: nat :| FenceFrom(lines, k, i);
      assert FenceFrom(lines, k, i + 1);
    }
    if InFence(lines, i + 1) {
      var k: nat :| FenceFrom(lines, k, i + 1);
      assert lines[i] != OPEN_FENCE ==> FenceFrom(lines, k, i);
    }
    assert lines[i] == OPEN_FENCE ==> FenceFrom(lines, i, i + 1);
  }

  lemma NameStep(lines: seq<string>, i: nat, p: string)
    requires i < |lines|
    ensures Named(lines, i + 1, p) <==> if HeadingOf(lines[i]).Some? then HeadingOf(lines[i]) == Some(p) else Named(lines, i, p)
  {
    hide HeadingOf;
    if HeadingOf(lines[i]) == None && Named(lines, i, p) {
      var k: nat :| NameFrom(lines, k, i, p);
      assert NameFrom(lines, k, i + 1, p);
    }
    if Named(lines, i + 1, p) {
      var k: nat :| NameFrom(lines, k, i + 1, p);
      assert HeadingOf(lines[i]) == None ==> NameFrom(lines, k, i, p);
    }
    assert HeadingOf(lines[i]) == Some(p) ==> NameFrom(lines, i, i + 1, p);
  }

  lemma OpenedStep(lines: seq<string>, i: nat, p: string)
    requires i < |lines|
    ensures Opened(lines, i + 1, p) <==> Opened(lines, i, p) || (lines[i] == OPEN_FENCE && Named(lines, i, p))
  {
    hide Named;
  }

  lemma ListedStep(lines: seq<string>, i: nat, p: string, item: string)
    requires i < |lines|
    ensures Listed(lines, i + 1, p, item) <==>
      || Listed(lines, i, p, item)
      || (lines[i] == item && item != "" && IsText(item) && InFence(lines, i) && Named(lines, i, p))
  {
    hide Named, InFence, IsText;
  }

  lemma {:induction false} UnnamedExactly(lines: seq<string>, i: nat)
    requires i <= |lines|
    ensures (forall p :: !Named(lines, i, p)) <==> (forall k :: 0 <= k < i ==> HeadingOf(lines[k]) == None)
  {
    if i > 0 {
      UnnamedExactly(lines, i - 1);
      hide Named;
      forall p ensures Named(lines, i, p) <==> if HeadingOf(lines[i - 1]).Some? then HeadingOf(lines[i - 1]) == Some(p) else Named(lines, i - 1, p) {
        NameStep(lines, i - 1, p);
      }
      if HeadingOf(lines[i - 1]).Some? {
        assert Named(lines, i, HeadingOf(lines[i - 1]).value);
      }
    }
  }

  /** A line that is refused has that error, and no other. */
  lemma LineRefused(lines: seq<string>, i: nat, s: ParseState, e: SnapshotError)
    requires i < |lines| && Consistent(s) && StateAt(lines, i, s)
    ensures ErrorAt(lines, i, e) <==> ParseLine(s, lines[i]) == Err(e)
  {
    hide Named, InFence, Opened, Listed, HeadingOf;
    FencesApart(lines[i]);
    UnnamedExactly(lines, i);
    assert s.package == None <==> forall p :: !Named(lines, i, p) by {
      if s.package.Some? {
        assert Named(lines, i, s.package.value);
      }
    }
  }

  /** A line that is accepted leads to the next state. */
  lemma LineAccepted(lines: seq<string>, i: nat, s: ParseState)
    requires i < |lines| && Consistent(s) && StateAt(lines, i, s) && NoErrors(lines, i) && ParseLine(s, lines[i]).Ok?
    ensures StateAt(lines, i + 1, ParseLine(s, lines[i]).value)
  {
    hide Named, InFence, Opened, Listed, HeadingOf;
    var line, t := lines[i], ParseLine(s, lines[i]).value;
    FencesApart(line);
    FenceStep(lines, i);
    forall p ensures t.package == Some(p) <==> Named(lines, i + 1, p) {
      NameStep(lines, i, p);
    }
    forall p ensures p in t.sections <==> Opened(lines, i + 1, p) {
      OpenedStep(lines, i, p);
    }
    forall p, item | p in t.sections ensures item in t.sections[p] <==> Listed(lines, i + 1, p, item) {
      ListedStep(lines, i, p, item);
      ListedIsOpened(lines, i, p, item);
    }
  }

  lemma HeadingOutsideFence(lines: seq<string>, h: nat, i: nat)
    requires h < i <= |lines| && NoErrors(lines, i) && HeadingOf(lines[h]).Some?
    ensures !InFence(lines, h)
  {
    hide InFence, HeadingOf;
    assert !ErrorAt(lines, h, HeadingInFence);
  }

  /** The heading of a line in a fence stands in front of the fence. */
  lemma NameAtFence(lines: seq<string>, m: nat, h: nat, k: nat, p: string)
    requires k <= |lines| && NoErrors(lines, k) && FenceFrom(lines, m, k) && NameFrom(lines, h, k, p)
    ensures NameFrom(lines, h, m, p)
  {
    HeadingOutsideFence(lines, h, k);
    FencesApart(lines[m]);
    assert m < h ==> FenceFrom(lines, m, h);
  }

  /** Without errors, lines are listed only under a heading whose fence has
      opened. */
  lemma ListedIsOpened(lines: seq<string>, i: nat, p: string, item: string)
    requires i <= |lines| && NoErrors(lines, i)
    ensures Listed(lines, i, p, item) ==> Opened(lines, i, p)
  {
    hide IsText, HeadingOf, ErrorAt;
    if Listed(lines, i, p, item) {
      var k :| 0 <= k < i && lines[k] == item && InFence(lines, k) && Named(lines, k, p);
      var m: nat :| FenceFrom(lines, m, k);
      var h: nat :| NameFrom(lines, h, k, p);
      NameAtFence(lines, m, h, k, p);
      assert lines[m] == OPEN_FENCE && Named(lines, m, p);
    }
  }

  lemma {:induction false} ParsesFrom(lines: seq<string>, i: nat, s: ParseState)
    requires i <= |lines| && Consistent(s) && StateAt(lines, i, s) && NoErrors(lines, i)
    ensures match ParseLines(s, lines[i..])
      case Err(e) => FirstError(lines, e)
      case Ok(t) => NoErrors(lines, |lines|) && StateAt(lines, |lines|, t)
    decreases |lines| - i
  {
    hide StateAt, ErrorAt, ParseLine;
    if i < |lines| {
      assert lines[i..][0] == lines[i] && lines[i..][1..] == lines[i + 1..];
      forall e ensures ErrorAt(lines, i, e) <==> ParseLine(s, lines[i]) == Err(e) {
        LineRefused(lines, i, s, e);
      }
      if ParseLine(s, lines[i]).Ok? {
        LineAccepted(lines, i, s);
        ParsesFrom(lines, i + 1, ParseLine(s, lines[i]).value);
      }
    }
  }

  lemma OpenedSomewhere(lines: seq<string>, s: ParseState)
    requires Consistent(s) && StateAt(lines, |lines|, s) && NoErrors(lines, |lines|)
    ensures s.sections != map[] <==> OPEN_FENCE in lines
  {
    if OPEN_FENCE in lines {
      var k :| 0 <= k < |lines| && lines[k] == OPEN_FENCE;
      UnnamedExactly(lines, k);
      assert !ErrorAt(lines, k, FenceBeforeHeading) && !ErrorAt(lines, k, NestedFence);
      var p :| Named(lines, k, p);
      assert Opened(lines, |lines|, p);
    } else {
      forall p ensures !Opened(lines, |lines|, p) {
      }
    }
  }

  lemma ConclusionDescribes(lines: seq<string>, s: ParseState)
    requires Consistent(s) && StateAt(lines, |lines|, s) && NoErrors(lines, |lines|)
    ensures Describes(lines, Conclude(Ok(s)))
  {
    OpenedSomewhere(lines, s);
    hide InFence, Opened, Listed, NoErrors;
  }

  lemma FirstErrorDescribes(lines: seq<string>, e: SnapshotError)
    requires FirstError(lines, e)
    ensures Describes(lines, Conclude(Err(e)))
  {
  }

  /** A parse ends with the first error of the lines or, if there is none, with
      what stands between the fences. */
  lemma ParsedExactly(lines: seq<string>)
    ensures Describes(lines, Conclude(ParseLines(START, lines)))
  {
    assert StateAt(lines, 0, START) && lines[0..] == lines;
    hide *;
    StartIsConsistent();
    NoErrorsYet(lines);
    ParsesFrom(lines, 0, START);
    match ParseLines(START, lines)
    case Ok(t) => ConclusionDescribes(lines, t);
    case Err(e) => FirstErrorDescribes(lines, e);
  }

  lemma StartIsConsistent()
    ensures Consistent(START)
  {
  }

  lemma NoErrorsYet(lines: seq<string>)
    ensures NoErrors(lines, 0)
  {
  }

  method ParseApiSnapshot(snapshot: string) returns (r: Result<map<string, set<string>>, SnapshotError>)
    ensures r == Parsed(snapshot)
    ensures Describes(Lines(snapshot), r)
  {
    var lines := Lines(snapshot);
    ParsedExactly(lines);
    hide Describes;
    var state := START;
    for i := 0 to |lines|
      invariant Consistent(state) && ParseLines(START, lines) == ParseLines(state, lines[i..])
    {
      assert lines[i..][0] == lines[i] && lines[i..][1..] == lines[i + 1..];
      var next := ParseLine(state, lines[i]);
      if next.Err? {
        return Err(next.error);
      }
      state := next.value;
    }
    if state.inApi {
      return Err(EndsInFence);
    }
    return if state.sections == map[] then Err(NoSections) else Ok(state.sections);
  }

  // ----- rendering -----

  function SectionLines(package: string, items: seq<string>): seq<string> {
    ["## `" + package + "`", "", "```text"] + items + ["```", ""]
  }

  function BodyLines(order: seq<string>, inventories: map<string, seq<string>>): seq<string>
    requires forall i :: 0 <= i < |order| ==> order[i] in inventories
  {
    if order == [] then []
    else BodyLines(order[..|order| - 1], inventories) + SectionLines(order[|order| - 1], inventories[order[|order| - 1]])
  }

  lemma CliHeading()
    ensures Heading(CLI) == "## `j2k-cli`"
  {
  }

  /** The two closing lines about the binary package. */
  function CliLines(text: string): seq<string> {
    ["## `j2k-cli`", "", text, ""]
  }

  /** Appends the lines of one section to a text. */
  method RenderSection(out: string, package: string, items: seq<string>) returns (r: string)
    ensures r == out + Join(SectionLines(package, items))
  {
    hide Join;
    ghost var head := [Heading(package), "", OPEN_FENCE];
    r := out + Heading(package) + "\n" + "\n" + OPEN_FENCE + "\n";
    ThreeLines(Heading(package), OPEN_FENCE);
    assert r == out + Join(head);
    assert head + items[..0] == head;
    for i := 0 to |items|
      invariant r == out + Join(head + items[..i])
    {
      r := r + items[i] + "\n";
      assert head + items[..i + 1] == (head + items[..i]) + [items[i]];
      JoinOneMore(head + items[..i], items[i]);
      Reassociate(out, Join(head + items[..i]), items[i]);
    }
    assert items[..|items|] == items;
    assert SectionLines(package, items) == (head + items + [CLOSE_FENCE]) + [""];
    JoinOneMore(head + items, CLOSE_FENCE);
    JoinOneMore(head + items + [CLOSE_FENCE], "");
    r := r + CLOSE_FENCE + "\n" + "\n";
  }

  lemma ThreeLines(first: string, last: string)
    ensures Join([first, "", last]) == first + "\n" + "\n" + last + "\n"
  {
    assert Join([]) == "";
    hide Join;
    JoinOneMore([], first);
    JoinOneMore([first], "");
    JoinOneMore([first, ""], last);
    assert [] + [first] == [first] && [first] + [""] == [first, ""] && [first, ""] + [last] == [first, "", last];
  }

  /** The public snapshot before its trailing line feeds are settled. */
  method RenderSnapshot(preamble: seq<string>, order: seq<string>, inventories: map<string, seq<string>>, cliText: string)
    returns (r: Result<string, SnapshotError>)
    ensures r.Ok? <==> forall i :: 0 <= i < |order| ==> order[i] in inventories
    ensures r.Ok? ==> r.value == FinalizeTextSnapshot(Join(preamble + BodyLines(order, inventories) + CliLines(cliText)))
  {
    var out := Join(preamble);
    assert preamble + BodyLines(order[..0], inventories) == preamble;
    for i := 0 to |order|
      invariant forall j :: 0 <= j < i ==> order[j] in inventories
      invariant out == Join(preamble + BodyLines(order[..i], inventories))
    {
      if order[i] !in inventories {
        return Err(MissingInventory(order[i]));
      }
      var section := SectionLines(order[i], inventories[order[i]]);
      out := RenderSection(out, order[i], inventories[order[i]]);
      JoinAppend(preamble + BodyLines(order[..i], inventories), section);
      assert order[..i + 1][..i] == order[..i];
      assert preamble + BodyLines(order[..i], inventories) + section == preamble + BodyLines(order[..i + 1], inventories);
    }
    assert order[..|order|] == order;
    CliHeading();
    JoinAppend(preamble + BodyLines(order, inventories), CliLines(cliText));
    out := out + Join([Heading(CLI), "", cliText, ""]);
    return Ok(FinalizeTextSnapshot(out));
  }

  // ----- parsing inverts rendering -----

  /** An inventory item that survives: one non-empty line, no heading, no fence. */
  predicate IsItem(item: string) {
    IsLine(item) && item != "" && IsText(item)
  }

  predicate IsInventory(items: seq<string>) {
    forall i :: 0 <= i < |items| ==> IsItem(items[i])
  }

  function SetOf(items: seq<string>): set<string> {
    set i | 0 <= i < |items| :: items[i]
  }

  predicate IsTextLines(lines: seq<string>) {
    forall i :: 0 <= i < |lines| ==> IsLine(lines[i]) && IsText(lines[i])
  }

  lemma {:induction false} ParseConcat(s: ParseState, a: seq<string>, b: seq<string>)
    requires Consistent(s)
    ensures ParseLines(s, a + b) == match ParseLines(s, a) { case Err(e) => Err(e) case Ok(t) => ParseLines(t, b) }
    decreases |a|
  {
    if a == [] {
      assert a + b == b;
    } else {
      assert (a + b)[1..] == a[1..] + b;
      var t := ParseLine(s, a[0]);
      if t.Ok? {
        ParseConcat(t.value, a[1..], b);
      }
    }
  }

  /** Outside a fence plain lines change nothing. */
  lemma {:induction false} TextIsSkipped(s: ParseState, lines: seq<string>)
    requires Consistent(s) && !s.inApi && IsTextLines(lines)
    ensures ParseLines(s, lines) == Ok(s)
    decreases |lines|
  {
    if lines != [] {
      TextIsSkipped(s, lines[1..]);
    }
  }

  /** Inside a fence items are collected. */
  lemma {:induction false} ItemsAreCollected(s: ParseState, items: seq<string>)
    requires Consistent(s) && s.inApi && IsInventory(items)
    ensures ParseLines(s, items) == Ok(s.(sections := s.sections[s.package.value := s.sections[s.package.value] + SetOf(items)]))
    decreases |items|
  {
    var name := s.package.value;
    if items == [] {
      assert s.sections[name] + SetOf(items) == s.sections[name];
      assert s.sections[name := s.sections[name]] == s.sections;
    } else {
      var t := ParseLine(s, items[0]).value;
      ItemsAreCollected(t, items[1..]);
      assert SetOf(items) == {items[0]} + SetOf(items[1..]) by {
        forall x ensures x in SetOf(items) <==> x in {items[0]} + SetOf(items[1..]) {
          if x in SetOf(items) {
            var i :| 0 <= i < |items| && items[i] == x;
            assert i > 0 ==> items[1..][i - 1] == x;
          }
          if x in SetOf(items[1..]) {
            var i :| 0 <= i < |items[1..]| && items[1..][i] == x;
            assert items[i + 1] == x;
          }
        }
      }
      assert t.sections[name] + SetOf(items[1..]) == s.sections[name] + SetOf(items);
      assert t.sections[name := t.sections[name] + SetOf(items[1..])] == s.sections[name := s.sections[name] + SetOf(items)];
    }
  }

  lemma SectionOpens(s: ParseState, package: string)
    requires Consistent(s) && !s.inApi && package !in s.sections
    ensures ParseLines(s, [Heading(package), "", OPEN_FENCE]) == Ok(ParseState(Some(package), true, s.sections[package := {}]))
  {
    HeadingRoundTrip(package);
    var named := s.(package := Some(package));
    var head := [Heading(package), "", OPEN_FENCE];
    assert ParseLine(s, head[0]) == Ok(named);
    assert ParseLine(named, "") == Ok(named);
    assert HeadingOf(OPEN_FENCE) == None by {
      assert OPEN_FENCE[0] == '`';
    }
    assert head[1..] == ["", OPEN_FENCE] && head[1..][1..] == [OPEN_FENCE] && head[1..][1..][1..] == [];
    assert ParseLines(named, [OPEN_FENCE]) == ParseLine(named, OPEN_FENCE);
    assert ParseLines(named, ["", OPEN_FENCE]) == ParseLines(named, [OPEN_FENCE]);
  }

  lemma SectionCloses(s: ParseState)
    requires Consistent(s) && s.inApi
    ensures ParseLines(s, [CLOSE_FENCE, ""]) == Ok(s.(inApi := false))
  {
    var foot, t := [CLOSE_FENCE, ""], s.(inApi := false);
    assert HeadingOf(CLOSE_FENCE) == None by {
      assert CLOSE_FENCE[0] == '`';
    }
    assert CLOSE_FENCE != OPEN_FENCE by {
      assert |CLOSE_FENCE| != |OPEN_FENCE|;
    }
    assert ParseLine(s, CLOSE_FENCE) == Ok(t) && ParseLine(t, "") == Ok(t);
    assert foot[1..] == [""] && foot[1..][1..] == [];
    assert ParseLines(t, [""]) == Ok(t);
  }

  /** One section adds one entry. */
  lemma SectionIsParsed(s: ParseState, package: string, items: seq<string>)
    requires Consistent(s) && !s.inApi && package !in s.sections && IsInventory(items)
    ensures ParseLines(s, SectionLines(package, items)) == Ok(ParseState(Some(package), false, s.sections[package := SetOf(items)]))
  {
    var head, foot := [Heading(package), "", OPEN_FENCE], [CLOSE_FENCE, ""];
    var entered := ParseState(Some(package), true, s.sections[package := {}]);
    var filled := ParseState(Some(package), true, s.sections[package := SetOf(items)]);
    SectionOpens(s, package);
    ItemsAreCollected(entered, items);
    assert entered.sections[package] + SetOf(items) == SetOf(items);
    assert entered.sections[package := SetOf(items)] == filled.sections;
    SectionCloses(filled);
    ParseConcat(s, head, items);
    ParseConcat(s, head + items, foot);
  }
}
