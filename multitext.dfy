/**
 * The Multitext container format: several named text sections in one stream
 * of lines. `ParseLines` is the parser; `Parse` is the specification it meets,
 * built from the two phases of the format (marker discovery, then splitting
 * the remaining lines into sections and inserting them into a map).
 */
module Multitext {
  import opened Wrappers
  import opened Text

  /** The literal whose presence on a line declares the format. */
  const Header := "multitext header"

  const MissingHeaderMessage := "missing multitext header"

  /** The parser's error: a line number, a message, and a file name a caller may attach. */
  datatype ParseError = ParseError(lineNumber: nat, errorMessage: string, filename: Option<string>)

  /** What `Display` writes for the file name: the name itself, or nothing. */
  function ShownFileName(filename: Option<string>): string {
    match filename
    case Some(f) => f
    case None => ""
  }

  /**
   * The text `Display` writes for an error: the message, the file name if
   * any, and the line number in parentheses.
   */
  function Display(e: ParseError): (shown: string)
    ensures var head := "multitext ParseError : " + e.errorMessage + " : ";
            var file := ShownFileName(e.filename);
            && |shown| == |head| + |file| + |DecimalString(e.lineNumber)| + 2
            && shown[..|head|] == head
            && shown[|head|..|head| + |file|] == file
            && shown[|head| + |file|] == '(' && shown[|shown| - 1] == ')'
  {
    "multitext ParseError : " + e.errorMessage + " : " + ShownFileName(e.filename)
    + "(" + DecimalString(e.lineNumber) + ")"
  }

  // ---------------------------------------------------------------------------
  // Phase 1: marker discovery
  // ---------------------------------------------------------------------------

  /** A line declares the format when it contains the literal `Header`. */
  predicate DeclaresHeader(line: string) {
    Find(line, Header).Some?
  }

  /** The marker a declaring line sets: what precedes the first `Header`, right-trimmed. */
  function MarkerOf(line: string): (marker: string)
    requires DeclaresHeader(line)
    ensures var i := Find(line, Header).value;
            |marker| <= i && marker == line[..|marker|] && AllWhitespace(line[|marker|..i])
    ensures marker == [] || !IsWhitespace(marker[|marker| - 1])
  {
    var i := Find(line, Header).value;
    var marker := TrimEnd(line[..i]);
    assert line[|marker|..i] == line[..i][|marker|..];
    marker
  }

  /** The index of the first line that declares the format, if any. */
  function FirstHeaderLine(lines: seq<string>): (r: Option<nat>)
    ensures r.Some? ==> r.value < |lines| && DeclaresHeader(lines[r.value])
    ensures r.Some? ==> forall j :: 0 <= j < r.value ==> !DeclaresHeader(lines[j])
    ensures r.None? ==> forall j :: 0 <= j < |lines| ==> !DeclaresHeader(lines[j])
  {
    if lines == [] then None
    else if DeclaresHeader(lines[0]) then Some(0)
    else
      match FirstHeaderLine(lines[1..])
      case None => None
      case Some(k) => Some(k + 1)
  }

  /** The outcome of phase 1: where the declaring line is, and the marker it sets. */
  datatype Discovery = Discovery(headerLine: nat, marker: string)

  /**
   * Phase 1. Fails, always with line number 0, when no line declares the
   * format; otherwise stops at the first declaring line.
   */
  function Discover(lines: seq<string>): (r: Result<Discovery, ParseError>)
    ensures r.Err? <==> forall j :: 0 <= j < |lines| ==> !DeclaresHeader(lines[j])
    ensures r.Err? ==> r.error == ParseError(0, MissingHeaderMessage, None)
    ensures r.Ok? ==> r.value.headerLine < |lines| && DeclaresHeader(lines[r.value.headerLine])
    ensures r.Ok? ==> forall j :: 0 <= j < r.value.headerLine ==> !DeclaresHeader(lines[j])
    ensures r.Ok? ==> r.value.marker == MarkerOf(lines[r.value.headerLine])
  {
    match FirstHeaderLine(lines)
    case None => Err(ParseError(0, MissingHeaderMessage, None))
    case Some(k) => Ok(Discovery(k, MarkerOf(lines[k])))
  }

  // ---------------------------------------------------------------------------
  // Phase 2: section accumulation
  // ---------------------------------------------------------------------------

  /** A section: its name and the lines of its body, in order. */
  datatype Section = Section(name: string, lines: seq<string>)

  /** A line that starts with the marker opens a new section. */
  predicate IsMarkerLine(marker: string, line: string) {
    StartsWith(line, marker)
  }

  /** The name a marker line gives its section: the rest of the line, trimmed. */
  function SectionName(marker: string, line: string): string
    requires IsMarkerLine(marker, line)
  {
    Trim(line[|marker|..])
  }

  /** A section body as text: every line followed by one newline. */
  function Join(lines: seq<string>): string {
    if lines == [] then ""
    else Join(lines[..|lines| - 1]) + lines[|lines| - 1] + "\n"
  }

  predicate NoMarkerLine(marker: string, lines: seq<string>) {
    forall k :: 0 <= k < |lines| ==> !IsMarkerLine(marker, lines[k])
  }

  /** The index of the first marker line, if any. */
  function NextMarkerLine(marker: string, lines: seq<string>): (r: Option<nat>)
    ensures r.Some? ==> r.value < |lines| && IsMarkerLine(marker, lines[r.value])
    ensures r.Some? ==> forall j :: 0 <= j < r.value ==> !IsMarkerLine(marker, lines[j])
    ensures r.None? ==> forall j :: 0 <= j < |lines| ==> !IsMarkerLine(marker, lines[j])
  {
    if lines == [] then None
    else if IsMarkerLine(marker, lines[0]) then Some(0)
    else
      match NextMarkerLine(marker, lines[1..])
      case None => None
      case Some(k) => Some(k + 1)
  }

  /**
   * The sections of `lines`, in order: the first is called `name` and holds the
   * lines before the first marker line; every marker line opens one more,
   * holding the lines up to the next marker line or the end. No body line is
   * a marker line.
   */
  function Split(marker: string, lines: seq<string>, name: string): (secs: seq<Section>)
    ensures 1 <= |secs| && secs[0].name == name
    ensures forall i :: 0 <= i < |secs| ==> NoMarkerLine(marker, secs[i].lines)
    decreases |lines|
  {
    match NextMarkerLine(marker, lines)
    case None => [Section(name, lines)]
    case Some(j) =>
      var rest := Split(marker, lines[j + 1..], SectionName(marker, lines[j]));
      var secs := [Section(name, lines[..j])] + rest;
      assert forall i :: 1 <= i < |secs| ==> secs[i] == rest[i - 1];
      secs
  }

  /** Inserting the sections into a map in order: a later section overwrites an earlier namesake. */
  function ToMap(secs: seq<Section>): map<string, string> {
    if secs == [] then map[]
    else ToMap(secs[..|secs| - 1])[secs[|secs| - 1].name := Join(secs[|secs| - 1].lines)]
  }

  /** Phase 2: the map built from the lines after the declaring line. */
  function Sections(marker: string, lines: seq<string>): map<string, string> {
    ToMap(Split(marker, lines, Header))
  }

  /** The whole parse: phase 1, then phase 2 on the lines after the declaring line. */
  function Parse(lines: seq<string>): (r: Result<map<string, string>, ParseError>)
    ensures r.Err? <==> forall j :: 0 <= j < |lines| ==> !DeclaresHeader(lines[j])
    ensures r.Err? ==> r.error == ParseError(0, MissingHeaderMessage, None)
  {
    match Discover(lines)
    case Err(e) => Err(e)
    case Ok(d) => Ok(Sections(d.marker, lines[d.headerLine + 1..]))
  }

  /** The sections `Split` gives after one more line, `line`, is added to the input. */
  function Extend(marker: string, secs: seq<Section>, line: string): seq<Section>
    requires 1 <= |secs|
  {
    var last := secs[|secs| - 1];
    if IsMarkerLine(marker, line) then secs + [Section(SectionName(marker, line), [])]
    else secs[..|secs| - 1] + [Section(last.name, last.lines + [line])]
  }

  /**
   * One more line after the others: a marker line appends a fresh empty
   * section; any other line is appended to the body of the last section.
   */
  lemma {:induction false} SplitSnoc(marker: string, lines: seq<string>, name: string, line: string)
    ensures Split(marker, lines + [line], name) == Extend(marker, Split(marker, lines, name), line)
    decreases |lines|, 1
  {
    match NextMarkerLine(marker, lines)
    case None => SplitSnocLastSection(marker, lines, name, line);
    case Some(j) => SplitSnocLaterSection(marker, lines, name, line, j);
  }

  /** `SplitSnoc` when `lines` holds no marker line. */
  lemma SplitSnocLastSection(marker: string, lines: seq<string>, name: string, line: string)
    requires NextMarkerLine(marker, lines).None?
    ensures Split(marker, lines + [line], name) == Extend(marker, Split(marker, lines, name), line)
  {
    var longer := lines + [line];
    assert forall i :: 0 <= i < |lines| ==> longer[i] == lines[i];
    if IsMarkerLine(marker, line) {
      assert longer[|lines|] == line;
      assert NextMarkerLine(marker, longer) == Some(|lines|);
      assert longer[..|lines|] == lines;
      assert longer[|lines| + 1..] == [];
    } else {
      assert NextMarkerLine(marker, longer).None?;
    }
  }

  /** `SplitSnoc` when the first marker line of `lines` is at `j`. */
  lemma {:induction false} SplitSnocLaterSection(marker: string, lines: seq<string>, name: string, line: string, j: nat)
    requires NextMarkerLine(marker, lines) == Some(j)
    ensures Split(marker, lines + [line], name) == Extend(marker, Split(marker, lines, name), line)
    decreases |lines|, 0
  {
    var longer := lines + [line];
    assert forall i :: 0 <= i <= j ==> longer[i] == lines[i];
    assert NextMarkerLine(marker, longer) == Some(j);
    var n := SectionName(marker, lines[j]);
    var rest := Split(marker, lines[j + 1..], n);
    var first := [Section(name, lines[..j])];
    assert longer[..j] == lines[..j];
    assert longer[j + 1..] == lines[j + 1..] + [line];
    SplitSnoc(marker, lines[j + 1..], n, line);
    ExtendAfter(marker, first, rest, line);
  }

  /** Extending sections that follow a fixed first part leaves that part alone. */
  lemma ExtendAfter(marker: string, first: seq<Section>, rest: seq<Section>, line: string)
    requires 1 <= |rest|
    ensures first + Extend(marker, rest, line) == Extend(marker, first + rest, line)
  {
    var secs := first + rest;
    if !IsMarkerLine(marker, line) {
      assert secs[..|secs| - 1] == first + rest[..|rest| - 1];
    }
  }

  /**
   * The parser's state after the lines `seen` of phase 2: `sections` holds
   * every closed section, `name` and `text` the section still open.
   */
  ghost predicate Accumulated(marker: string, seen: seq<string>, sections: map<string, string>,
                              name: string, text: string)
  {
    var secs := Split(marker, seen, Header);
    && sections == ToMap(secs[..|secs| - 1])
    && name == secs[|secs| - 1].name
    && text == Join(secs[|secs| - 1].lines)
  }

  /** A marker line closes the open section into the map and opens an empty one. */
  lemma AccumulateMarkerLine(marker: string, rest: seq<string>, i: nat, sections: map<string, string>,
                             name: string, text: string)
    requires i < |rest| && IsMarkerLine(marker, rest[i])
    requires Accumulated(marker, rest[..i], sections, name, text)
    ensures Accumulated(marker, rest[..i + 1], sections[name := text], SectionName(marker, rest[i]), "")
  {
    var line := rest[i];
    assert rest[..i + 1] == rest[..i] + [line];
    var secs := Split(marker, rest[..i], Header);
    SplitSnoc(marker, rest[..i], Header, line);
    var secs' := secs + [Section(SectionName(marker, line), [])];
    assert secs'[..|secs'| - 1] == secs;
  }

  /** Any other line is appended, with one newline, to the open section. */
  lemma AccumulateBodyLine(marker: string, rest: seq<string>, i: nat, sections: map<string, string>,
                           name: string, text: string)
    requires i < |rest| && !IsMarkerLine(marker, rest[i])
    requires Accumulated(marker, rest[..i], sections, name, text)
    ensures Accumulated(marker, rest[..i + 1], sections, name, text + rest[i] + "\n")
  {
    var line := rest[i];
    assert rest[..i + 1] == rest[..i] + [line];
    var secs := Split(marker, rest[..i], Header);
    SplitSnoc(marker, rest[..i], Header, line);
    var last := secs[|secs| - 1];
    var secs' := secs[..|secs| - 1] + [Section(last.name, last.lines + [line])];
    assert secs'[..|secs'| - 1] == secs[..|secs| - 1];
    JoinSnoc(last.lines, line);
  }

  /** Inserting the open section at the end gives phase 2's map. */
  lemma AccumulateEnd(marker: string, rest: seq<string>, sections: map<string, string>,
                      name: string, text: string)
    requires Accumulated(marker, rest[..|rest|], sections, name, text)
    ensures sections[name := text] == Sections(marker, rest)
  {
    assert rest[..|rest|] == rest;
  }

  /** `Join` of one more line: the old text, the line, one newline. */
  lemma JoinSnoc(lines: seq<string>, line: string)
    ensures Join(lines + [line]) == Join(lines) + line + "\n"
  {
    assert (lines + [line])[..|lines|] == lines;
  }

  /**
   * Phase 1 of `parse_lines`: pull lines until one contains `Header`, and cut
   * the marker out of it. Running out of lines is an error reporting line 0:
   * the line counter is bound once and never advanced.
   */
  method DiscoverMarker(lines: seq<string>) returns (r: Result<Discovery, ParseError>)
    ensures r == Discover(lines)
  {
    var lineNumber := 0;
    var k := 0;
    while k < |lines| && Find(lines[k], Header).None?
      invariant k <= |lines|
      invariant forall j :: 0 <= j < k ==> !DeclaresHeader(lines[j])
    {
      k := k + 1;
    }
    if k == |lines| {
      return Err(ParseError(lineNumber, MissingHeaderMessage, None));
    }
    var index := Find(lines[k], Header).value;
    var marker := TrimEnd(lines[k][..index]);
    r := Ok(Discovery(k, marker));
  }

  /**
   * Phase 2 of `parse_lines`: walk the lines after the declaring one, closing
   * the open section into the map at each marker line and otherwise extending
   * its body; the open section is inserted at the end.
   */
  method AccumulateSections(marker: string, rest: seq<string>) returns (sections: map<string, string>)
    ensures sections == Sections(marker, rest)
  {
    sections := map[];
    var name := Header;
    var text := "";
    var i := 0;
    assert rest[..i] == [];
    while i < |rest|
      invariant i <= |rest|
      invariant Accumulated(marker, rest[..i], sections, name, text)
    {
      var line := rest[i];
      if IsMarkerLine(marker, line) {
        AccumulateMarkerLine(marker, rest, i, sections, name, text);
        sections := sections[name := text];
        name := SectionName(marker, line);
        text := "";
      } else {
        AccumulateBodyLine(marker, rest, i, sections, name, text);
        text := text + line + "\n";
      }
      i := i + 1;
    }
    AccumulateEnd(marker, rest, sections, name, text);
    sections := sections[name := text];
  }

  /** `parse_lines`: phase 1, then phase 2 on the lines after the declaring line. */
  method ParseLines(lines: seq<string>) returns (r: Result<map<string, string>, ParseError>)
    ensures r == Parse(lines)
  {
    var found := DiscoverMarker(lines);
    match found {
      case Err(e) =>
        r := Err(e);
      case Ok(d) =>
        var sections := AccumulateSections(d.marker, lines[d.headerLine + 1..]);
        r := Ok(sections);
    }
  }
}
