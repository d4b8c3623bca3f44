/** The round trip of whole snapshots, and the order in which their sections are
    rendered the next time. */
module SnapshotOrder {
  import opened Options
  import opened TextLines
  import opened ReleaseGraph
  import opened ApiSnapshot

  // ----- the round trip -----

  function SectionsOf(order: seq<string>, inventories: map<string, seq<string>>): map<string, set<string>>
    requires forall i :: 0 <= i < |order| ==> order[i] in inventories
  {
    map p | p in order :: SetOf(inventories[p])
  }

  predicate Renderable(order: seq<string>, inventories: map<string, seq<string>>) {
    && Distinct(order)
    && (forall i :: 0 <= i < |order| ==> order[i] in inventories)
    && (forall i :: 0 <= i < |order| ==> '\n' !in order[i] && IsInventory(inventories[order[i]]))
  }

  lemma SectionsGrow(order: seq<string>, last: string, inventories: map<string, seq<string>>)
    requires Renderable(order + [last], inventories) && last in inventories
    ensures last !in order && Renderable(order, inventories) && IsInventory(inventories[last])
    ensures SectionsOf(order, inventories)[last := SetOf(inventories[last])] == SectionsOf(order + [last], inventories)
  {
    var all := order + [last];
    assert all[|order|] == last;
    forall i | 0 <= i < |order| ensures order[i] in inventories && order[i] != last && '\n' !in order[i] && IsInventory(inventories[order[i]]) {
      assert all[i] == order[i];
    }
    assert Distinct(order) by {
      forall i, j | 0 <= i < j < |order| ensures order[i] != order[j] {
        assert all[i] != all[j];
      }
    }
  }

  lemma {:induction false} BodyIsParsed(s: ParseState, order: seq<string>, inventories: map<string, seq<string>>)
    requires s.sections == map[] && !s.inApi && Renderable(order, inventories)
    ensures var r := ParseLines(s, BodyLines(order, inventories));
      r.Ok? && !r.value.inApi && r.value.sections == SectionsOf(order, inventories)
    decreases |order|
  {
    if order != [] {
      hide ParseLines, SectionLines;
      var init, last := order[..|order| - 1], order[|order| - 1];
      assert order == init + [last];
      SectionsGrow(init, last, inventories);
      BodyIsParsed(s, init, inventories);
      var before := ParseLines(s, BodyLines(init, inventories)).value;
      SectionIsParsed(before, last, inventories[last]);
      ParseConcat(s, BodyLines(init, inventories), SectionLines(last, inventories[last]));
    }
  }

  lemma HeadingIsLine(package: string)
    requires '\n' !in package
    ensures IsLine(Heading(package))
  {
  }

  lemma {:induction false} BodyAreLines(order: seq<string>, inventories: map<string, seq<string>>)
    requires Renderable(order, inventories)
    ensures AreLines(BodyLines(order, inventories))
    decreases |order|
  {
    if order != [] {
      var init, last := order[..|order| - 1], order[|order| - 1];
      BodyAreLines(init, inventories);
      HeadingIsLine(last);
      assert IsInventory(inventories[last]);
      assert AreLines(SectionLines(last, inventories[last])) by {
        assert IsLine("") && IsLine(OPEN_FENCE) && IsLine(CLOSE_FENCE);
      }
    }
  }

  /** All lines of the finished snapshot. */
  function SnapshotLines(preamble: seq<string>, order: seq<string>, inventories: map<string, seq<string>>, cliText: string): seq<string>
    requires forall i :: 0 <= i < |order| ==> order[i] in inventories
  {
    preamble + BodyLines(order, inventories) + ["## `j2k-cli`", "", cliText]
  }

  function Rendered(preamble: seq<string>, order: seq<string>, inventories: map<string, seq<string>>, cliText: string): string
    requires forall i :: 0 <= i < |order| ==> order[i] in inventories
  {
    FinalizeTextSnapshot(Join(preamble + BodyLines(order, inventories) + CliLines(cliText)))
  }

  predicate IsCliText(text: string) {
    text != "" && IsLine(text) && IsText(text)
  }

  lemma RenderedLines(preamble: seq<string>, order: seq<string>, inventories: map<string, seq<string>>, cliText: string)
    requires Renderable(order, inventories) && IsTextLines(preamble) && IsCliText(cliText)
    ensures Lines(Rendered(preamble, order, inventories, cliText)) == SnapshotLines(preamble, order, inventories, cliText)
  {
    CliHeading();
    var body, lines := preamble + BodyLines(order, inventories), SnapshotLines(preamble, order, inventories, cliText);
    var front := body + [Heading(CLI), ""];
    assert body + CliLines(cliText) == front + [cliText, ""];
    assert lines == front + [cliText];
    FinalizeJoin(front, cliText);
    BodyAreLines(order, inventories);
    assert '\n' !in CLI;
    HeadingIsLine(CLI);
    LinesOfJoin(lines);
  }

  /** Parsing a rendered snapshot gives back exactly the item set of every
      package rendered. */
  lemma ParseInvertsRender(preamble: seq<string>, order: seq<string>, inventories: map<string, seq<string>>, cliText: string)
    requires Renderable(order, inventories) && IsTextLines(preamble) && IsCliText(cliText)
    ensures Parsed(Rendered(preamble, order, inventories, cliText))
      == if order == [] then Err(NoSections) else Ok(SectionsOf(order, inventories))
  {
    RenderedLines(preamble, order, inventories, cliText);
    var body, foot := BodyLines(order, inventories), [Heading(CLI), "", cliText];
    TextIsSkipped(START, preamble);
    BodyIsParsed(START, order, inventories);
    var after := ParseLines(START, body).value;
    var named := after.(package := Some(CLI));
    CliHeading();
    HeadingRoundTrip(CLI);
    assert ParseLines(after, foot) == Ok(named) by {
      assert ParseLine(after, Heading(CLI)) == Ok(named);
      assert foot[1..] == ["", cliText] && foot[1..][1..] == [cliText] && foot[1..][1..][1..] == [];
      assert ParseLine(named, "") == Ok(named) && ParseLine(named, cliText) == Ok(named);
      assert ParseLines(named, [cliText]) == Ok(named);
      assert ParseLines(named, ["", cliText]) == Ok(named);
    }
    ParseConcat(START, preamble, body);
    ParseConcat(START, preamble + body, foot);
    if order != [] {
      assert order[0] in SectionsOf(order, inventories);
    }
  }

  // ----- the render order -----

  /** The packages whose headings a text carries, in order. */
  function Headed(packages: seq<string>, lines: seq<string>): seq<string> {
    if lines == [] then []
    else
      var before := Headed(packages, lines[..|lines| - 1]);
      var name := HeadingOf(lines[|lines| - 1]);
      if name.Some? && name.value in packages then before + [name.value] else before
  }

  /** The first occurrences among `packages` of what `known` lacks. */
  function Unlisted(packages: seq<string>, known: seq<string>): seq<string> {
    if packages == [] then []
    else
      var before := Unlisted(packages[..|packages| - 1], known);
      var last := packages[|packages| - 1];
      if last in known || last in before then before else before + [last]
  }

  function RenderOrder(packages: seq<string>, lines: seq<string>): Option<seq<string>> {
    var headed := Headed(packages, lines);
    if Distinct(headed) then Some(headed + Unlisted(packages, headed)) else None
  }

  lemma SnocDistinct(s: seq<string>, x: string)
    requires Distinct(s)
    ensures Distinct(s + [x]) <==> x !in s
  {
    var t := s + [x];
    if x in s {
      var i :| 0 <= i < |s| && s[i] == x;
      assert t[i] == t[|s|];
    }
  }

  lemma {:induction false} HeadedGrows(packages: seq<string>, lines: seq<string>, i: nat)
    requires i <= |lines|
    ensures Headed(packages, lines[..i]) <= Headed(packages, lines)
    decreases |lines| - i
  {
    if i < |lines| {
      assert lines[..i + 1][..i] == lines[..i];
      HeadedGrows(packages, lines, i + 1);
    } else {
      assert lines[..i] == lines;
    }
  }

  method InventoryRenderOrder(packages: seq<string>, committed: string) returns (r: Result<seq<string>, SnapshotError>)
    ensures match RenderOrder(packages, Lines(committed))
      case Some(order) => r == Ok(order)
      case None => r.Err? && r.error.DuplicateHeading? && r.error.package in packages
  {
    var lines := Lines(committed);
    var ordered: seq<string> := [];
    for i := 0 to |lines|
      invariant ordered == Headed(packages, lines[..i]) && Distinct(ordered)
    {
      assert lines[..i + 1][..i] == lines[..i];
      var name := HeadingOf(lines[i]);
      if name == None || name.value !in packages {
        continue;
      }
      SnocDistinct(ordered, name.value);
      if name.value in ordered {
        HeadedGrows(packages, lines, i + 1);
        return Err(DuplicateHeading(name.value));
      }
      ordered := ordered + [name.value];
    }
    assert lines[..|lines|] == lines;
    var rest: seq<string> := [];
    for i := 0 to |packages|
      invariant rest == Unlisted(packages[..i], ordered)
    {
      assert packages[..i + 1][..i] == packages[..i];
      if packages[i] !in ordered && packages[i] !in rest {
        rest := rest + [packages[i]];
      }
    }
    assert packages[..|packages|] == packages;
    return Ok(ordered + rest);
  }

  lemma {:induction false} UnlistedExactly(packages: seq<string>, known: seq<string>)
    ensures Distinct(Unlisted(packages, known))
    ensures forall p :: p in Unlisted(packages, known) <==> p in packages && p !in known
    ensures (forall p :: p in packages ==> p in known) ==> Unlisted(packages, known) == []
    decreases |packages|
  {
    if packages != [] {
      var init, last := packages[..|packages| - 1], packages[|packages| - 1];
      UnlistedExactly(init, known);
      assert packages == init + [last];
      SnocDistinct(Unlisted(init, known), last);
    }
  }

  lemma {:induction false} HeadedArePackages(packages: seq<string>, lines: seq<string>)
    ensures forall p :: p in Headed(packages, lines) ==> p in packages
    decreases |lines|
  {
    if lines != [] {
      HeadedArePackages(packages, lines[..|lines| - 1]);
    }
  }

  /** The order lists every package once and nothing else. */
  lemma RenderOrderIsPermutation(packages: seq<string>, lines: seq<string>)
    requires RenderOrder(packages, lines).Some?
    ensures Distinct(RenderOrder(packages, lines).value)
    ensures forall p :: p in RenderOrder(packages, lines).value <==> p in packages
  {
    var headed := Headed(packages, lines);
    UnlistedExactly(packages, headed);
    HeadedArePackages(packages, lines);
    var rest := Unlisted(packages, headed);
    forall i, j | 0 <= i < j < |headed + rest| ensures (headed + rest)[i] != (headed + rest)[j] {
      if i < |headed| <= j {
        assert rest[j - |headed|] in rest && headed[i] in headed;
      }
    }
  }

  lemma {:induction false} HeadedConcat(packages: seq<string>, a: seq<string>, b: seq<string>)
    ensures Headed(packages, a + b) == Headed(packages, a) + Headed(packages, b)
    decreases |b|
  {
    if b == [] {
      assert a + b == a;
    } else {
      assert (a + b)[..|a + b| - 1] == a + b[..|b| - 1];
      HeadedConcat(packages, a, b[..|b| - 1]);
    }
  }

  lemma {:induction false} NothingHeaded(packages: seq<string>, lines: seq<string>)
    requires forall i :: 0 <= i < |lines| ==> HeadingOf(lines[i]) == None
    ensures Headed(packages, lines) == []
    decreases |lines|
  {
    if lines != [] {
      NothingHeaded(packages, lines[..|lines| - 1]);
    }
  }

  lemma OneHeading(packages: seq<string>, package: string, rest: seq<string>)
    requires forall i :: 0 <= i < |rest| ==> HeadingOf(rest[i]) == None
    ensures Headed(packages, [Heading(package)] + rest) == if package in packages then [package] else []
  {
    HeadingRoundTrip(package);
    NothingHeaded(packages, rest);
    HeadedConcat(packages, [Heading(package)], rest);
    assert [Heading(package)][..0] == [];
  }

  lemma FencesAreNoHeadings()
    ensures HeadingOf(OPEN_FENCE) == HeadingOf(CLOSE_FENCE) == HeadingOf("") == None
  {
  }

  lemma SectionHeaded(packages: seq<string>, package: string, items: seq<string>)
    requires package in packages && IsInventory(items)
    ensures Headed(packages, SectionLines(package, items)) == [package]
  {
    hide Headed;
    FencesAreNoHeadings();
    var rest := ["", OPEN_FENCE] + items + [CLOSE_FENCE, ""];
    OneHeading(packages, package, rest);
    assert SectionLines(package, items) == [Heading(package)] + rest;
  }

  lemma {:induction false} BodyHeaded(packages: seq<string>, order: seq<string>, inventories: map<string, seq<string>>)
    requires Renderable(order, inventories) && forall i :: 0 <= i < |order| ==> order[i] in packages
    ensures Headed(packages, BodyLines(order, inventories)) == order
    decreases |order|
  {
    if order != [] {
      hide Headed, SectionLines;
      var init, last := order[..|order| - 1], order[|order| - 1];
      BodyHeaded(packages, init, inventories);
      HeadedConcat(packages, BodyLines(init, inventories), SectionLines(last, inventories[last]));
      assert IsInventory(inventories[last]);
      SectionHeaded(packages, last, inventories[last]);
    }
  }

  lemma HeadedSnapshot(packages: seq<string>, preamble: seq<string>, order: seq<string>, inventories: map<string, seq<string>>, cliText: string)
    requires Renderable(order, inventories) && IsTextLines(preamble) && IsCliText(cliText)
    requires forall i :: 0 <= i < |order| ==> order[i] in packages
    ensures Headed(packages, SnapshotLines(preamble, order, inventories, cliText)) == order + if "j2k-cli" in packages then ["j2k-cli"] else []
  {
    hide Headed, BodyLines;
    var body := BodyLines(order, inventories);
    NothingHeaded(packages, preamble);
    BodyHeaded(packages, order, inventories);
    HeadedConcat(packages, preamble, body);
    FencesAreNoHeadings();
    CliHeading();
    OneHeading(packages, CLI, ["", cliText]);
    assert [Heading(CLI), "", cliText] == [Heading(CLI)] + ["", cliText];
    HeadedConcat(packages, preamble + body, [Heading(CLI), "", cliText]);
  }

  /** Rendering again in the order the rendered snapshot suggests changes nothing,
      exactly when the binary package, whose heading every snapshot carries, is
      not among the library packages; otherwise its heading counts as a
      duplicate. */
  lemma RenderOrderIsFixedPoint(packages: seq<string>, preamble: seq<string>, order: seq<string>, inventories: map<string, seq<string>>, cliText: string)
    requires Renderable(order, inventories) && IsTextLines(preamble) && IsCliText(cliText)
    requires forall p :: p in order <==> p in packages
    ensures RenderOrder(packages, Lines(Rendered(preamble, order, inventories, cliText)))
      == if "j2k-cli" in packages then None else Some(order)
  {
    RenderedLines(preamble, order, inventories, cliText);
    HeadedSnapshot(packages, preamble, order, inventories, cliText);
    if CLI in packages {
      SnocDistinct(order, CLI);
    } else {
      UnlistedExactly(packages, order);
      assert order + [] == order;
    }
  }

  // ----- the order, said of the text -----

  /** Line `a` is the heading of package `p`. */
  predicate HeadsAt(lines: seq<string>, a: nat, p: string) {
    a < |lines| && lines[a] == "## `" + p + "`"
  }

  /** The first heading of `p` stands before any of `q`. */
  ghost predicate HeadedBefore(lines: seq<string>, p: string, q: string) {
    exists a: nat :: HeadsAt(lines, a, p) && forall b: nat :: b <= a ==> !HeadsAt(lines, b, q)
  }

  ghost predicate HasHeading(lines: seq<string>, p: string) {
    exists a: nat :: HeadsAt(lines, a, p)
  }

  /** `p` occurs before `q` ever does. */
  ghost predicate ListedBefore(packages: seq<string>, p: string, q: string) {
    exists k :: 0 <= k < |packages| && packages[k] == p && q !in packages[..k + 1]
  }

  lemma HeadingExactly(line: string, p: string)
    ensures HeadingOf(line) == Some(p) <==> line == "## `" + p + "`"
  {
    HeadingRoundTrip(p);
    if HeadingOf(line) == Some(p) {
      assert line == line[..4] + line[4..|line| - 1] + [line[|line| - 1]];
    }
  }

  lemma {:induction false} HeadedExactly(packages: seq<string>, lines: seq<string>, p: string)
    ensures p in Headed(packages, lines) <==> p in packages && HasHeading(lines, p)
    decreases |lines|
  {
    if lines != [] {
      hide Headed;
      var init := lines[..|lines| - 1];
      HeadedExactly(packages, init, p);
      HeadedLast(packages, lines);
      HeadingExactly(lines[|lines| - 1], p);
      HasHeadingLast(lines, p);
    }
  }

  lemma HeadedLast(packages: seq<string>, lines: seq<string>)
    requires lines != []
    ensures var name := HeadingOf(lines[|lines| - 1]);
      Headed(packages, lines) == Headed(packages, lines[..|lines| - 1]) + if name.Some? && name.value in packages then [name.value] else []
  {
  }

  lemma HasHeadingLast(lines: seq<string>, p: string)
    requires lines != []
    ensures HasHeading(lines, p) <==> HasHeading(lines[..|lines| - 1], p) || HeadsAt(lines, |lines| - 1, p)
  {
    var init := lines[..|lines| - 1];
    if a: nat :| HeadsAt(init, a, p) {
      assert HeadsAt(lines, a, p);
    }
    if a: nat :| HeadsAt(lines, a, p) && a < |lines| - 1 {
      assert HeadsAt(init, a, p);
    }
  }

  lemma HeadedBeforeGrows(lines: seq<string>, p: string, q: string)
    requires lines != [] && HeadedBefore(lines[..|lines| - 1], p, q)
    ensures HeadedBefore(lines, p, q)
  {
    var init := lines[..|lines| - 1];
    var a: nat :| HeadsAt(init, a, p) && forall b: nat :: b <= a ==> !HeadsAt(init, b, q);
    assert HeadsAt(lines, a, p);
    forall b: nat | b <= a ensures !HeadsAt(lines, b, q) {
      assert !HeadsAt(init, b, q);
    }
  }

  lemma HeadedBeforeNew(lines: seq<string>, p: string, q: string)
    requires HasHeading(lines, p) && !HasHeading(lines, q)
    ensures HeadedBefore(lines, p, q)
  {
  }

  lemma {:induction false} HeadedInOrder(packages: seq<string>, lines: seq<string>, i: nat, j: nat)
    requires Distinct(Headed(packages, lines)) && i < j < |Headed(packages, lines)|
    ensures HeadedBefore(lines, Headed(packages, lines)[i], Headed(packages, lines)[j])
    decreases |lines|
  {
    hide HeadedBefore, HasHeading;
    var init := lines[..|lines| - 1];
    var before, all := Headed(packages, init), Headed(packages, lines);
    HeadedLast(packages, lines);
    assert Distinct(before) by {
      assert forall k :: 0 <= k < |before| ==> before[k] == all[k];
    }
    var p, q := all[i], all[j];
    if j < |before| {
      HeadedInOrder(packages, init, i, j);
    } else {
      HeadedExactly(packages, init, p);
      HeadedExactly(packages, init, q);
      assert p == before[i] && forall k :: 0 <= k < |before| ==> before[k] == all[k] != q;
      HeadedBeforeNew(init, p, q);
    }
    HeadedBeforeGrows(lines, p, q);
  }

  lemma {:induction false} UnlistedInOrder(packages: seq<string>, known: seq<string>, i: nat, j: nat)
    requires i < j < |Unlisted(packages, known)|
    ensures ListedBefore(packages, Unlisted(packages, known)[i], Unlisted(packages, known)[j])
    decreases |packages|
  {
    var init := packages[..|packages| - 1];
    var before := Unlisted(init, known);
    var p, q := Unlisted(packages, known)[i], Unlisted(packages, known)[j];
    if j < |before| {
      UnlistedInOrder(init, known, i, j);
      var k :| 0 <= k < |init| && init[k] == p && q !in init[..k + 1];
      assert packages[..k + 1] == init[..k + 1];
    } else {
      UnlistedExactly(init, known);
      assert p in before && q !in init;
      var k :| 0 <= k < |init| && init[k] == p;
      assert packages[..k + 1] == init[..k + 1];
    }
  }

  /** There is an order exactly if no package has two headings. */
  lemma {:induction false} OneHeadingEach(packages: seq<string>, lines: seq<string>)
    ensures Distinct(Headed(packages, lines))
      <==> forall p, a: nat, b: nat :: p in packages && a < b && HeadsAt(lines, a, p) ==> !HeadsAt(lines, b, p)
    decreases |lines|
  {
    if lines != [] {
      hide Headed, Distinct;
      var init, last := lines[..|lines| - 1], |lines| - 1;
      OneHeadingEach(packages, init);
      HeadedLast(packages, lines);
      assert forall p, a: nat :: a < last ==> (HeadsAt(lines, a, p) <==> HeadsAt(init, a, p));
      assert forall p, a: nat :: HeadsAt(init, a, p) ==> a < last;
      var name := HeadingOf(lines[last]);
      forall p ensures HeadsAt(lines, last, p) <==> name == Some(p) {
        HeadingExactly(lines[last], p);
      }
      if name.Some? && name.value in packages {
        if Distinct(Headed(packages, init)) {
          SnocDistinct(Headed(packages, init), name.value);
        } else {
          SnocKeepsRepetition(Headed(packages, init), name.value);
        }
        HeadedExactly(packages, init, name.value);
      } else {
        assert Headed(packages, init) + [] == Headed(packages, init);
      }
    } else {
      assert Distinct([]);
    }
  }

  lemma SnocKeepsRepetition(s: seq<string>, x: string)
    requires !Distinct(s)
    ensures !Distinct(s + [x])
  {
    var i, j :| 0 <= i < j < |s| && s[i] == s[j];
    var t := s + [x];
    assert t[i] == t[j];
  }

  /** Packages with a heading come first, as their headings do, and the others
      behind them, as they are listed. */
  lemma RenderOrderExactly(packages: seq<string>, lines: seq<string>, i: nat, j: nat)
    requires RenderOrder(packages, lines).Some? && i < j < |RenderOrder(packages, lines).value|
    ensures var p, q := RenderOrder(packages, lines).value[i], RenderOrder(packages, lines).value[j];
      if HasHeading(lines, p) then HeadedBefore(lines, p, q) else !HasHeading(lines, q) && ListedBefore(packages, p, q)
  {
    var headed := Headed(packages, lines);
    var rest := Unlisted(packages, headed);
    var p, q := (headed + rest)[i], (headed + rest)[j];
    hide HeadedBefore, HasHeading, ListedBefore, Headed, Unlisted;
    UnlistedExactly(packages, headed);
    HeadedExactly(packages, lines, p);
    HeadedExactly(packages, lines, q);
    if j < |headed| {
      HeadedInOrder(packages, lines, i, j);
    } else if i < |headed| {
      assert q == rest[j - |headed|] && p == headed[i];
      HeadedBeforeNew(lines, p, q);
    } else {
      UnlistedInOrder(packages, headed, i - |headed|, j - |headed|);
      assert p in rest && q in rest;
    }
  }
}
