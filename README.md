# Multitext in Dafny

Multitext is a container format that stores several named text sections in
one stream of lines. The core is `parse_lines` in `src/lib.rs` and the
`Display` of its error type. This project models both.

`parse_lines` works in two phases:

1. **Marker discovery.** It pulls lines until one contains the literal
   `multitext header`. The text before the first occurrence of that literal,
   with trailing whitespace removed, becomes the *marker*. If the lines run
   out first, the result is a `ParseError` with message
   `missing multitext header`, line number 0 and no file name.
2. **Section accumulation.** The open section starts out named
   `multitext header`, with empty text. For each remaining line:
   - A line that starts with the marker closes the open section into the
     map. It then opens a new section whose name is the rest of the line,
     trimmed at both ends.
   - Any other line is appended to the open section's text, followed by a
     newline.

   At the end the open section is inserted too. A later section with the
   same name overwrites an earlier one.

The project has four files:

- `wrappers.dfy` holds `Option` and `Result`.
- `text.dfy` (module `Text`) holds the `str` operations the parser uses:
  `find`, `trim_end`, `trim`, `starts_with` and decimal formatting. Strings
  are sequences of characters, and whitespace is Unicode `White_Space`,
  which is what `char::is_whitespace` tests.
- `multitext.dfy` (module `Multitext`) holds the model:
  - the error type and its `Display`;
  - phase 1 as the function `Discover` and the loop method `DiscoverMarker`;
  - phase 2 as the method `AccumulateSections`;
  - the whole parser as the method `ParseLines`.

  Each method is proved equal to a specification function. For phase 2 that
  function is `Sections`. It is built from a declarative `Split` of the lines
  into sections, then `ToMap`, which inserts the sections in order. For the
  whole parser the function is `Parse`.
- `properties.dfy` (module `MultitextProperties`) holds the lemmas about
  `Parse` and its parts.

The parser is a function of its input lines. Parsing the same lines twice
therefore gives the same result, and no lemma is needed for that.

## Model

| member | source | states |
|---|---|---|
| Text.FindFrom | src/lib.rs:58 | The first occurrence of the pattern at or after a start index; `None` exactly when there is no occurrence from there on |
| Text.Find | src/lib.rs:58 | `str::find`: the index of the first occurrence of the pattern, with none earlier; `None` exactly when the pattern occurs nowhere |
| Text.SkipWhitespace | src/lib.rs:68 | The end of the run of whitespace starting at an index: everything skipped is whitespace, and what follows is not |
| Text.SkipWhitespaceBack | src/lib.rs:59 | The start of the run of whitespace ending at an index: everything skipped is whitespace, and what precedes it is not |
| Text.TrimEnd | src/lib.rs:59 | `str::trim_end`: the result is a prefix of the input, the part removed is all whitespace, and the result does not end in whitespace |
| Text.TrimTrims | src/lib.rs:68 | `str::trim`: the result is a contiguous part of the input with only whitespace before and after it, and it neither starts nor ends with whitespace |
| Text.DigitChar | src/lib.rs:36 | The decimal digit character of a value below 10 |
| Text.DecimalString | src/lib.rs:36 | The `{}` formatting of an unsigned number: non-empty, all digits, no leading zero, and its value read back is the number |
| Multitext.Display | src/lib.rs:30-40 | The displayed error is `multitext ParseError : `, the message and ` : `, then the file name if there is one (nothing otherwise), then `(`, the line number's digits and `)`: each part sits at its position, and the length is exactly the sum of the parts |
| Multitext.MarkerOf | src/lib.rs:58-59 | The marker is a prefix of the declaring line that ends at or before the first `multitext header`; only whitespace lies between it and the literal, and the marker does not end in whitespace |
| Multitext.FirstHeaderLine | src/lib.rs:49-61 | The index of the first line containing `multitext header`, with no such line before it; `None` exactly when no line contains it |
| Multitext.Discover | src/lib.rs:47-61 | Phase 1 fails exactly when no line contains `multitext header`, and then always with line 0, the fixed message and no file name. Otherwise it stops at the first declaring line and takes that line's marker |
| Multitext.NextMarkerLine | src/lib.rs:65-66 | The index of the first line that starts with the marker, with none before it; `None` exactly when no line starts with it |
| Multitext.Split | src/lib.rs:63-76 | There is at least one section, and the first carries the initial name. No section body contains a line that starts with the marker |
| Multitext.Parse | src/lib.rs:44-79 | The parse fails exactly when no line contains `multitext header`, and the failure is the line-0 missing-header error |
| Multitext.SplitSnoc | src/lib.rs:65-74 | One more input line adds one step to the split. A marker line appends an empty section named by the trimmed rest of the line; any other line is appended to the last section's body |
| Multitext.SplitSnocLastSection | src/lib.rs:65-74 | The one-more-line step when no earlier line starts with the marker |
| Multitext.SplitSnocLaterSection | src/lib.rs:65-74 | The one-more-line step when an earlier line starts with the marker, by induction on the later sections |
| Multitext.ExtendAfter | src/lib.rs:65-74 | A step on the later sections leaves the sections before them unchanged |
| Multitext.AccumulateMarkerLine | src/lib.rs:66-69 | At a marker line, inserting the open section and opening an empty one named by the trimmed rest of the line keeps the loop state equal to the split of the lines seen so far |
| Multitext.AccumulateBodyLine | src/lib.rs:70-73 | At any other line, appending the line and a newline to the open text keeps the loop state equal to the split of the lines seen so far |
| Multitext.AccumulateEnd | src/lib.rs:76 | After the last line, inserting the open section gives exactly phase 2's map |
| Multitext.JoinSnoc | src/lib.rs:71-72 | A section's text with one more line is the old text, then the line, then one newline |
| Multitext.DiscoverMarker | src/lib.rs:47-61 | The phase-1 loop returns exactly `Discover`: the error with line 0 when the lines run out, otherwise the first declaring line and its marker |
| Multitext.AccumulateSections | src/lib.rs:63-76 | The phase-2 loop returns exactly `Sections`, the map built from the split of the lines after the declaring line |
| Multitext.ParseLines | src/lib.rs:44-79 | `parse_lines` returns exactly `Parse` on every input |
| MultitextProperties.ToMapKeys | src/lib.rs:67-76 | A name is a key of the result exactly when some section carries that name |
| MultitextProperties.ToMapLastWins | src/lib.rs:67-76 | A section with no later namesake determines the value of its name: the lines of its body, each followed by a newline |
| MultitextProperties.ToMapSize | src/lib.rs:67-76 | The map has at most as many keys as there are sections, and exactly as many when the names are distinct |
| MultitextProperties.SectionCount | src/lib.rs:65-69 | There are exactly one more sections than lines starting with the marker |
| MultitextProperties.BodyLinesExtend | src/lib.rs:65-74 | One step of the split adds the line to the section bodies exactly when it is not a marker line, and drops nothing |
| MultitextProperties.NoLineLost | src/lib.rs:65-74 | The section bodies, read in order, are exactly the lines that do not start with the marker, none lost, none repeated, none reordered |
| MultitextProperties.EmptyMarkerSections | src/lib.rs:59-69 | When the marker is empty, every line starts with it. Each line then opens a section named by the line trimmed, and every body is empty |
| MultitextProperties.SectionsHaveHeader | src/lib.rs:63-76 | Phase 2's map always has the key `multitext header` |
| MultitextProperties.HeaderKeyPresent | src/lib.rs:63-76 | Whenever some line declares the format, the parse succeeds and its map has the key `multitext header` |
| MultitextProperties.SectionsKeyCount | src/lib.rs:65-76 | Phase 2's map has at most one key more than there are marker lines, and exactly that many when the section names are distinct |
| MultitextProperties.ParseOk | src/lib.rs:44-79 | Unfolding step for the lemmas below: after a successful phase 1, `Parse` is phase 2 on the lines after the declaring line |
| MultitextProperties.DiscoverAt | src/lib.rs:49-61 | Knowing the first declaring line fixes phase 1's outcome: that line and its marker |
| MultitextProperties.FirstHeaderLinePreamble | src/lib.rs:49-61 | Lines without `multitext header` in front of the input shift the first declaring line by their number, or leave none to find |
| MultitextProperties.ParseSameTail | src/lib.rs:58-79 | Two inputs that agree from their first declaring lines on parse to the same result |
| MultitextProperties.ParseShifted | src/lib.rs:49-79 | A prefix that shifts the first declaring line by its own length does not change the parse |
| MultitextProperties.PreambleIgnored | src/lib.rs:49-61 | Lines before the declaring line are ignored: putting any number of lines without `multitext header` in front leaves the result, error included, unchanged |
| MultitextProperties.HeaderLineGivesOnlyMarker | src/lib.rs:58-59 | The declaring line contributes only its marker: two declaring lines with the same marker, followed by the same lines, parse alike |
| MultitextProperties.HeaderLineLast | src/lib.rs:63-76 | When the only declaring line is the last line, the result maps `multitext header` to the empty text and nothing else |
| MultitextProperties.FirstHeaderLineSnoc | src/lib.rs:49-61 | A line added at the end does not move an existing first declaring line |
| MultitextProperties.DiscoverSnoc | src/lib.rs:49-61 | After a successful phase 1, a line added at the end keeps the declaring line and marker, and it becomes the last line of phase 2's input |
| MultitextProperties.ToMapNewSection | src/lib.rs:67-69 | A new last section with an empty body maps its name to the empty text, overwriting any earlier namesake |
| MultitextProperties.ToMapSnoc | src/lib.rs:76 | Inserting one more section sets its name to its text and keeps every other key |
| MultitextProperties.ToMapExtendLast | src/lib.rs:70-73 | One more line in the last section: that section's name maps to its old text, then the line, then a newline, and no other key changes |
| MultitextProperties.ToMapExtendBody | src/lib.rs:70-73 | One step of the split on a line that is not a marker line changes only the open section's value, which gains the line and a newline |
| MultitextProperties.SectionsMarkerSnoc | src/lib.rs:66-69 | Phase 2 on one more line that starts with the marker: the map gains, or overwrites, that section's name mapped to the empty text |
| MultitextProperties.SectionsBodySnoc | src/lib.rs:70-73 | Phase 2 on one more line that does not start with the marker: the open section's text gains the line and a newline, and no other key changes |
| MultitextProperties.ParseSnoc | src/lib.rs:65-76 | After a successful phase 1, one more input line is one more line for phase 2 |
| MultitextProperties.TrailingMarkerLine | src/lib.rs:66-69 | A marker line at the end of a parsable input adds, or overwrites, its trimmed name mapped to the empty text |
| MultitextProperties.DisplayReportsLineNumber | src/lib.rs:30-40 | The displayed error starts with `multitext ParseError : `, the message and ` : `, followed by the file name when there is one. It ends with the line number in parentheses, and reading the digits after the last `(` back gives the number |

## Left out

- The input is a sequence of strings. The generic `Iterator`/`AsRef<str>` plumbing is not modelled. Neither is the fact that phase 2 continues on the same iterator: the model slices the sequence instead.
- `HashMap` is modelled as a Dafny `map`. It has no iteration order, which the source does not promise either.
- Display: a failing `Formatter` is not modelled, so no `?` ever propagates an error. `Display` is a total function to a string.
- The `std::error::Error` impl and the `Debug`/`Clone` derives have no behaviour to model.
- `filename`: `parse_lines` never sets it. The model keeps it as a field, and `Display` handles both cases.
- `line_number` is a `usize` in the source. The model uses a `nat`. Overflow does not arise, because the parser only ever reports 0.
- Text positions: Rust `str` positions are byte offsets, while the model indexes characters. Every position the parser uses is on a character boundary: the result of `find`, and the marker's length in a line that starts with the marker. So the same substrings come out either way.
- The missing-header error's line number: the format's written description says it carries the number of lines consumed. The code binds the counter to 0 once and never advances it. The model follows the code, so `Discover`, `DiscoverMarker` and `Parse` always report line 0.
- The unit test in `src/lib.rs:1-19` is not replayed on its concrete lines. Its points are stated in general instead: `PreambleIgnored`, `NoLineLost`, `ToMapLastWins`, `SectionsKeyCount` and `TrimTrims` cover the ignored leading lines, the body texts, the key count and the trimmed names.
- Display's output is not proved for one concrete error. `DisplayReportsLineNumber` states its shape for every error instead.
