/**
 * What the Multitext format promises, proved about the specification `Parse`
 * (which `ParseLines` is proved to compute): how sections become map entries,
 * how many entries there are, that no line is lost, how one more line changes
 * the result, the degenerate empty marker, and how errors are displayed.
 */
module MultitextProperties {
  import opened Wrappers
  import opened Text
  import opened Multitext

  // ---------------------------------------------------------------------------
  // From sections to the map
  // ---------------------------------------------------------------------------

  /** The map has exactly one key per section name. */
  lemma {:induction false} ToMapKeys(secs: seq<Section>, x: string)
    ensures x in ToMap(secs) <==> exists i :: 0 <= i < |secs| && secs[i].name == x
    decreases |secs|
  {
    if secs != [] {
      var init := secs[..|secs| - 1];
      ToMapKeys(init, x);
      if x in ToMap(init) {
        var i :| 0 <= i < |init| && init[i].name == x;
        assert secs[i].name == x;
      }
      if exists i :: 0 <= i < |secs| && secs[i].name == x {
        var i :| 0 <= i < |secs| && secs[i].name == x;
        if i < |init| {
          assert init[i].name == x;
        }
      }
    }
  }

  /**
   * Later sections overwrite earlier namesakes: a section that no later
   * section shares its name with gives its name the text of its body.
   */
  lemma {:induction false} ToMapLastWins(secs: seq<Section>, i: nat)
    requires i < |secs|
    requires forall j :: i < j < |secs| ==> secs[j].name != secs[i].name
    ensures secs[i].name in ToMap(secs)
    ensures ToMap(secs)[secs[i].name] == Join(secs[i].lines)
    decreases |secs|
  {
    if i < |secs| - 1 {
      var init := secs[..|secs| - 1];
      assert forall j :: i < j < |init| ==> init[j] == secs[j];
      ToMapLastWins(init, i);
    }
  }

  predicate DistinctNames(secs: seq<Section>) {
    forall i, j :: 0 <= i < j < |secs| ==> secs[i].name != secs[j].name
  }

  /** At most one entry per section, and exactly one when the names are distinct. */
  lemma {:induction false} ToMapSize(secs: seq<Section>)
    ensures |ToMap(secs)| <= |secs|
    ensures DistinctNames(secs) ==> |ToMap(secs)| == |secs|
    decreases |secs|
  {
    if secs != [] {
      var init := secs[..|secs| - 1];
      var last := secs[|secs| - 1];
      ToMapSize(init);
      if DistinctNames(secs) {
        assert DistinctNames(init);
        ToMapKeys(init, last.name);
        assert last.name !in ToMap(init);
      }
    }
  }

  // ---------------------------------------------------------------------------
  // The sections of phase 2
  // ---------------------------------------------------------------------------

  /** The number of marker lines among `lines`. */
  function CountMarkerLines(marker: string, lines: seq<string>): nat {
    if lines == [] then 0
    else CountMarkerLines(marker, lines[..|lines| - 1])
         + (if IsMarkerLine(marker, lines[|lines| - 1]) then 1 else 0)
  }

  /** The lines of `lines` that are not marker lines, in order. */
  function NonMarkerLines(marker: string, lines: seq<string>): seq<string> {
    if lines == [] then []
    else NonMarkerLines(marker, lines[..|lines| - 1])
         + (if IsMarkerLine(marker, lines[|lines| - 1]) then [] else [lines[|lines| - 1]])
  }

  /** The body lines of all sections, one section after another. */
  function BodyLines(secs: seq<Section>): seq<string> {
    if secs == [] then [] else BodyLines(secs[..|secs| - 1]) + secs[|secs| - 1].lines
  }

  /** One section to begin with, and one more per marker line. */
  lemma {:induction false} SectionCount(marker: string, lines: seq<string>, name: string)
    ensures |Split(marker, lines, name)| == 1 + CountMarkerLines(marker, lines)
    decreases |lines|
  {
    if lines != [] {
      var init := lines[..|lines| - 1];
      var line := lines[|lines| - 1];
      assert init + [line] == lines;
      SectionCount(marker, init, name);
      SplitSnoc(marker, init, name, line);
    }
  }

  /** One step of the split adds the line to the bodies exactly when it is not a marker line. */
  lemma BodyLinesExtend(marker: string, secs: seq<Section>, line: string)
    requires 1 <= |secs|
    ensures BodyLines(Extend(marker, secs, line))
            == BodyLines(secs) + (if IsMarkerLine(marker, line) then [] else [line])
  {
    var secs' := Extend(marker, secs, line);
    if IsMarkerLine(marker, line) {
      assert secs'[..|secs'| - 1] == secs;
    } else {
      var last := secs[|secs| - 1];
      assert secs'[..|secs'| - 1] == secs[..|secs| - 1];
      assert BodyLines(secs) == BodyLines(secs[..|secs| - 1]) + last.lines;
    }
  }

  /**
   * No line is lost or repeated: the section bodies, read one after another,
   * are exactly the lines that are not marker lines.
   */
  lemma {:induction false} NoLineLost(marker: string, lines: seq<string>, name: string)
    ensures BodyLines(Split(marker, lines, name)) == NonMarkerLines(marker, lines)
    decreases |lines|
  {
    if lines != [] {
      var init := lines[..|lines| - 1];
      var line := lines[|lines| - 1];
      assert init + [line] == lines;
      NoLineLost(marker, init, name);
      SplitSnoc(marker, init, name, line);
      BodyLinesExtend(marker, Split(marker, init, name), line);
    }
  }

  /**
   * With an empty marker every line is a marker line: each opens a section
   * named by the whole line trimmed, and every body is empty.
   */
  lemma {:induction false} EmptyMarkerSections(lines: seq<string>, name: string)
    ensures var secs := Split("", lines, name);
            && |secs| == |lines| + 1
            && secs[0] == Section(name, [])
            && forall i :: 0 <= i < |lines| ==> secs[i + 1] == Section(Trim(lines[i]), [])
    decreases |lines|
  {
    if lines != [] {
      var init := lines[..|lines| - 1];
      var line := lines[|lines| - 1];
      assert init + [line] == lines;
      assert line[|""|..] == line;
      EmptyMarkerSections(init, name);
      SplitSnoc("", init, name, line);
    }
  }

  // ---------------------------------------------------------------------------
  // The whole parse
  // ---------------------------------------------------------------------------

  /** Phase 2's map always has the key `Header`. */
  lemma SectionsHaveHeader(marker: string, rest: seq<string>)
    ensures Header in Sections(marker, rest)
  {
    var secs := Split(marker, rest, Header);
    ToMapKeys(secs, Header);
    assert secs[0].name == Header;
  }

  /** On success the map always has the key `Header`. */
  lemma HeaderKeyPresent(lines: seq<string>)
    requires Discover(lines).Ok?
    ensures Parse(lines).Ok? && Header in Parse(lines).value
  {
    var d := Discover(lines).value;
    ParseOk(lines);
    SectionsHaveHeader(d.marker, lines[d.headerLine + 1..]);
  }

  /**
   * Phase 2's map has at most one key more than there are marker lines, and
   * exactly that many when the section names are distinct.
   */
  lemma SectionsKeyCount(marker: string, rest: seq<string>)
    ensures |Sections(marker, rest)| <= 1 + CountMarkerLines(marker, rest)
    ensures DistinctNames(Split(marker, rest, Header)) ==>
              |Sections(marker, rest)| == 1 + CountMarkerLines(marker, rest)
  {
    SectionCount(marker, rest, Header);
    ToMapSize(Split(marker, rest, Header));
  }

  /** On success, the parse is phase 2 run on the lines after the declaring line. */
  lemma ParseOk(lines: seq<string>)
    requires Discover(lines).Ok?
    ensures var d := Discover(lines).value;
            Parse(lines) == Ok(Sections(d.marker, lines[d.headerLine + 1..]))
  {
  }

  /** Lines that do not declare the format, put in front, shift the first declaring line. */
  lemma {:induction false} FirstHeaderLinePreamble(preamble: seq<string>, lines: seq<string>)
    requires forall j :: 0 <= j < |preamble| ==> !DeclaresHeader(preamble[j])
    ensures FirstHeaderLine(lines).None? ==> FirstHeaderLine(preamble + lines).None?
    ensures FirstHeaderLine(lines).Some? ==>
              FirstHeaderLine(preamble + lines) == Some(|preamble| + FirstHeaderLine(lines).value)
    decreases |preamble|
  {
    if preamble == [] {
      assert preamble + lines == lines;
    } else {
      var all := preamble + lines;
      assert all[0] == preamble[0];
      assert all[1..] == preamble[1..] + lines;
      FirstHeaderLinePreamble(preamble[1..], lines);
    }
  }

  /** Two sequences with the same tail agree on its first element and on what follows it. */
  lemma SameTail(a: seq<string>, b: seq<string>, i: nat, j: nat)
    requires i < |a| && j < |b| && a[i..] == b[j..]
    ensures a[i] == b[j] && a[i + 1..] == b[j + 1..]
  {
    assert a[i..][0] == b[j..][0];
    assert a[i + 1..] == a[i..][1..];
    assert b[j + 1..] == b[j..][1..];
  }

  /** Phase 1 read off the first declaring line: that line and its marker. */
  lemma DiscoverAt(lines: seq<string>, k: nat)
    requires FirstHeaderLine(lines) == Some(k)
    ensures k < |lines| && Discover(lines) == Ok(Discovery(k, MarkerOf(lines[k])))
  {
  }

  /** The parse depends only on the lines from the first declaring line on. */
  lemma ParseSameTail(a: seq<string>, b: seq<string>, i: nat, j: nat)
    requires FirstHeaderLine(a) == Some(i)
    requires FirstHeaderLine(b) == Some(j)
    requires a[i..] == b[j..]
    ensures Parse(a) == Parse(b)
  {
    DiscoverAt(a, i);
    DiscoverAt(b, j);
    SameTail(a, b, i, j);
    ParseOk(a);
    ParseOk(b);
  }

  /** Shifting the first declaring line by a prefix keeps the parse. */
  lemma ParseShifted(preamble: seq<string>, lines: seq<string>, k: nat)
    requires FirstHeaderLine(lines) == Some(k)
    requires FirstHeaderLine(preamble + lines) == Some(|preamble| + k)
    ensures Parse(preamble + lines) == Parse(lines)
  {
    assert (preamble + lines)[|preamble| + k..] == lines[k..];
    ParseSameTail(preamble + lines, lines, |preamble| + k, k);
  }

  /** Lines before the declaring line contribute nothing, not even to the error. */
  lemma PreambleIgnored(preamble: seq<string>, lines: seq<string>)
    requires forall j :: 0 <= j < |preamble| ==> !DeclaresHeader(preamble[j])
    ensures Parse(preamble + lines) == Parse(lines)
  {
    FirstHeaderLinePreamble(preamble, lines);
    if FirstHeaderLine(lines).Some? {
      ParseShifted(preamble, lines, FirstHeaderLine(lines).value);
    }
  }

  /**
   * The declaring line contributes only its marker: two declaring lines with
   * the same marker give the same result.
   */
  lemma HeaderLineGivesOnlyMarker(header1: string, header2: string, rest: seq<string>)
    requires DeclaresHeader(header1) && DeclaresHeader(header2)
    requires MarkerOf(header1) == MarkerOf(header2)
    ensures Parse([header1] + rest) == Parse([header2] + rest)
  {
    assert ([header1] + rest)[1..] == rest == ([header2] + rest)[1..];
    assert Discover([header1] + rest) == Ok(Discovery(0, MarkerOf(header1)));
    assert Discover([header2] + rest) == Ok(Discovery(0, MarkerOf(header2)));
    ParseOk([header1] + rest);
    ParseOk([header2] + rest);
  }

  /** A declaring line with nothing after it: the single entry `Header` with an empty body. */
  lemma HeaderLineLast(lines: seq<string>)
    requires Discover(lines).Ok? && Discover(lines).value.headerLine == |lines| - 1
    ensures Parse(lines) == Ok(map[Header := ""])
  {
    var d := Discover(lines).value;
    ParseOk(lines);
    assert lines[d.headerLine + 1..] == [];
    var secs := Split(d.marker, [], Header);
    assert secs == [Section(Header, [])];
    assert secs[..0] == [];
    assert ToMap(secs) == ToMap([])[Header := Join([])];
  }

  /** A line added at the end does not move the first declaring line. */
  lemma {:induction false} FirstHeaderLineSnoc(lines: seq<string>, line: string)
    requires FirstHeaderLine(lines).Some?
    ensures FirstHeaderLine(lines + [line]) == FirstHeaderLine(lines)
    decreases |lines|
  {
    var all := lines + [line];
    assert all[0] == lines[0];
    if !DeclaresHeader(lines[0]) {
      assert all[1..] == lines[1..] + [line];
      FirstHeaderLineSnoc(lines[1..], line);
    }
  }

  /** Adding a line after a successful phase 1 keeps its declaring line and marker. */
  lemma DiscoverSnoc(lines: seq<string>, line: string)
    requires Discover(lines).Ok?
    ensures Discover(lines + [line]) == Discover(lines)
    ensures var d := Discover(lines).value;
            (lines + [line])[d.headerLine + 1..] == lines[d.headerLine + 1..] + [line]
  {
    FirstHeaderLineSnoc(lines, line);
    var k := FirstHeaderLine(lines).value;
    assert (lines + [line])[k] == lines[k];
    assert (lines + [line])[k + 1..] == lines[k + 1..] + [line];
  }

  /** A new last section with an empty body maps its name to "". */
  lemma ToMapNewSection(secs: seq<Section>, name: string)
    ensures ToMap(secs + [Section(name, [])]) == ToMap(secs)[name := ""]
  {
    var secs' := secs + [Section(name, [])];
    assert secs'[..|secs'| - 1] == secs;
  }

  /** Appending a section sets its name to its text, over what came before. */
  lemma ToMapSnoc(secs: seq<Section>, sec: Section)
    ensures ToMap(secs + [sec]) == ToMap(secs)[sec.name := Join(sec.lines)]
  {
    assert (secs + [sec])[..|secs|] == secs;
  }

  /** One more line in the last section: its name's text gains the line and a newline. */
  lemma ToMapExtendLast(init: seq<Section>, last: Section, line: string)
    ensures ToMap(init + [Section(last.name, last.lines + [line])])
            == ToMap(init + [last])[last.name := Join(last.lines) + line + "\n"]
  {
    ToMapSnoc(init, Section(last.name, last.lines + [line]));
    ToMapSnoc(init, last);
    JoinSnoc(last.lines, line);
  }

  /** A step of the split on a line that is not a marker line extends only the last section's value. */
  lemma ToMapExtendBody(marker: string, secs: seq<Section>, line: string)
    requires 1 <= |secs| && !IsMarkerLine(marker, line)
    ensures var last := secs[|secs| - 1];
            ToMap(Extend(marker, secs, line)) == ToMap(secs)[last.name := Join(last.lines) + line + "\n"]
  {
    var init := secs[..|secs| - 1];
    var last := secs[|secs| - 1];
    assert ToMap(secs) == ToMap(init + [last]) by {
      ToMapSnoc(init, last);
    }
    ToMapExtendLast(init, last, line);
  }

  /** Phase 2 on one more line, a marker line: its section's name maps to "". */
  lemma SectionsMarkerSnoc(marker: string, rest: seq<string>, line: string)
    requires IsMarkerLine(marker, line)
    ensures Sections(marker, rest + [line]) == Sections(marker, rest)[SectionName(marker, line) := ""]
  {
    SplitSnoc(marker, rest, Header, line);
    ToMapNewSection(Split(marker, rest, Header), SectionName(marker, line));
  }

  /** Phase 2 on one more line, not a marker line: the open section's text gains it. */
  lemma SectionsBodySnoc(marker: string, rest: seq<string>, line: string)
    requires !IsMarkerLine(marker, line)
    ensures var secs := Split(marker, rest, Header);
            var open := secs[|secs| - 1];
            Sections(marker, rest + [line])
            == Sections(marker, rest)[open.name := Join(open.lines) + line + "\n"]
  {
    SplitSnoc(marker, rest, Header, line);
    ToMapExtendBody(marker, Split(marker, rest, Header), line);
  }

  /** After a successful phase 1, one more line is one more line for phase 2. */
  lemma ParseSnoc(lines: seq<string>, line: string)
    requires Discover(lines).Ok?
    ensures var d := Discover(lines).value;
            Parse(lines + [line]) == Ok(Sections(d.marker, lines[d.headerLine + 1..] + [line]))
  {
    DiscoverSnoc(lines, line);
    ParseOk(lines + [line]);
  }

  /**
   * A marker line at the end opens a section with an empty body: the result
   * gains (or overwrites) the entry for its name, mapped to "".
   */
  lemma TrailingMarkerLine(lines: seq<string>, line: string)
    requires Discover(lines).Ok?
    requires IsMarkerLine(Discover(lines).value.marker, line)
    ensures var marker := Discover(lines).value.marker;
            Parse(lines).Ok? && Parse(lines + [line]) == Ok(Parse(lines).value[SectionName(marker, line) := ""])
  {
    var d := Discover(lines).value;
    var rest := lines[d.headerLine + 1..];
    assert Parse(lines) == Ok(Sections(d.marker, rest)) by {
      ParseOk(lines);
    }
    assert Parse(lines + [line]) == Ok(Sections(d.marker, rest + [line])) by {
      ParseSnoc(lines, line);
    }
    SectionsMarkerSnoc(d.marker, rest, line);
  }

  // ---------------------------------------------------------------------------
  // Display of an error
  // ---------------------------------------------------------------------------

  /** The index of the last occurrence of `c` in `s`, if any. */
  function LastIndexOf(s: string, c: char): (r: Option<nat>)
    ensures r.Some? ==> r.value < |s| && s[r.value] == c
    ensures r.Some? ==> forall j :: r.value < j < |s| ==> s[j] != c
    ensures r.None? ==> forall j :: 0 <= j < |s| ==> s[j] != c
  {
    if s == [] then None
    else if s[|s| - 1] == c then Some(|s| - 1)
    else LastIndexOf(s[..|s| - 1], c)
  }

  /** The line number read back from a displayed error: the digits in its final parentheses. */
  function ReportedLine(shown: string): Option<nat> {
    if |shown| == 0 || shown[|shown| - 1] != ')' then None
    else
      match LastIndexOf(shown[..|shown| - 1], '(')
      case None => None
      case Some(i) =>
        var digits := shown[i + 1..|shown| - 1];
        if digits != [] && AllDigits(digits) then Some(DecimalValue(digits)) else None
  }

  /**
   * A displayed error starts with its message, then shows the file name if it
   * has one, and ends with its line number in parentheses, from which the
   * number can be read back.
   */
  lemma DisplayReportsLineNumber(e: ParseError)
    ensures StartsWith(Display(e), "multitext ParseError : " + e.errorMessage + " : ")
    ensures var head := "multitext ParseError : " + e.errorMessage + " : ";
            var file := ShownFileName(e.filename);
            Display(e)[|head|..|head| + |file|] == file
    ensures ReportedLine(Display(e)) == Some(e.lineNumber)
  {
    var shown := Display(e);
    var digits := DecimalString(e.lineNumber);
    var head := "multitext ParseError : " + e.errorMessage + " : " + ShownFileName(e.filename);
    assert shown == head + "(" + digits + ")";
    var body := shown[..|shown| - 1];
    assert body == head + "(" + digits;
    assert body[|head|] == '(';
    assert forall j :: |head| < j < |body| ==> body[j] == digits[j - |head| - 1];
    assert shown[|head| + 1..|shown| - 1] == digits;
  }
}
