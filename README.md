# PowerPoint XML extractor, modelled in Dafny

This project models `PowerPointXMLExtractor` from `01_pptx.py`. The class
opens a `.pptx` file as a ZIP archive and fills three dictionaries:

- `slides`: slide index → title and description;
- `notes_text`: notes index → notes text;
- `slide_to_notes`: slide index → notes index.

It fills them from three kinds of entry:

- the slide relationship entries (`ppt/slides/_rels/slideN.xml.rels`);
- the slide entries (`ppt/slides/slideN.xml`);
- the notes entries (`ppt/notesSlides/notesSlideN.xml`).

`display_content` then prints one block per slide, in ascending index
order.

The project has these modules:

- `Wrappers`: `Option` and `Result`.
- `PyStr`: the Python string operations the class relies on, with Python's
  semantics. These are `strip()`, `startswith`, `endswith`, `in`,
  `replace`, `os.path.basename`, `' '.join`, `int()` and `str()`.
- `SortedSets`: `sorted()` of a set of integer keys.
- `PptxParts`: the value-level model of each step:
  - the entry-name filters;
  - index extraction from a file name;
  - the title/description classification of a run (threshold `sz >= 2800`);
  - what one slide, notes or relationships entry contributes;
  - how each entry loop folds those contributions into a dictionary and stops at the first exception.
- `PptxReport`: the lines `display_content` prints.
- `PptxExtractor`: the class `PowerPointXmlExtractor`. It has the three
  dictionaries as `map` fields. Each parsing method updates them in place,
  under a `modifies` clause, and is proved to leave them exactly as the
  `PptxParts` function for that step says. A Python exception becomes a
  returned `Error`; the dictionaries are left as the exception would leave
  them.
- `PptxScenarios`: concrete cases of the behaviour as written, and one
  whole deck followed from its entries to the printed lines. The deck has
  slide n with a 32-point run "Intro" and an 18-point run "Welcome to the
  deck", notes n reading "Remember to smile", and a relationship linking
  slide n to notes n. For every index n it extracts without an exception
  and prints the slide heading, title and description, with the notes line
  unless n is 0.

The model follows the code as written:

- A run without an `a:rPr` child is dropped, whatever its text. A run with
  `a:rPr` goes to the description when its `sz` is missing, empty or an
  integer below 2800, and to the title when `sz` is an integer of at least
  2800.
- A slide that links to notes index 0 shows no notes. The test
  `if notes_number and ...` treats 0 as false.
- Negative indices are accepted: `int("-1")` parses, so
  `ppt/slides/slide-1.xml` is stored as slide -1.
- When several notes records appear in one relationships entry, the last
  one wins. When two entries have the same index, the later one
  overwrites the earlier.
- An `a:t` element without text raises (`None.strip()`). So do a
  non-numeric `sz`, a notes relationship without `Target`, and a file name
  whose stem is not an integer. Each of these stops the whole extraction,
  with the dictionaries keeping what was stored before.
- The slide index of a relationships entry is parsed only when a notes
  record is found in it. An entry with a bad name and no notes record
  therefore raises nothing.
- The title is `title.strip()` of the texts each followed by a space. It
  equals `' '.join` of the title texts when none of them is empty (see
  `StrippedTitleIsJoin`). An empty first or last title text makes the two
  differ, unless it is the only title text, because the final `strip()`
  removes the space next to it.
- `int()` rejects a string holding one of the separator characters
  U+001C to U+001F, although `strip()` counts them as whitespace (see
  `ParseIntRejectsSeparator`).

## Model

| member | source | states |
|---|---|---|
| PyStr.LStripSpec | 01_pptx.py:89 | `lstrip()` removes exactly the leading whitespace: the result is a suffix of the input, every removed character is whitespace, and the result does not start with whitespace |
| PyStr.RStripSpec | 01_pptx.py:89 | `rstrip()` removes exactly the trailing whitespace: the result is a prefix of the input, every removed character is whitespace, and the result does not end with whitespace |
| PyStr.StripSpec | 01_pptx.py:89-91 | the result of `strip()` has no outer whitespace and is no longer than its input; a string without outer whitespace is left unchanged |
| PyStr.StripIdempotent | 01_pptx.py:96 | stripping twice is the same as stripping once (the title is stripped texts followed by a final `strip()`) |
| PyStr.StripAllSpace | 01_pptx.py:89-91 | a text made only of whitespace strips to the empty string |
| PyStr.BasenameSpec | 01_pptx.py:66-67 | `os.path.basename` is the part of the path after its last `/` (or the whole path); it contains no `/` |
| PyStr.BasenameAfterSlash | 01_pptx.py:94 | the basename of a directory ending in `/`, followed by a slash-free name, is that name |
| PyStr.ReplaceSkips | 01_pptx.py:94 | `replace` copies a prefix that cannot start the pattern unchanged and continues after it |
| PyStr.ReplaceLeading | 01_pptx.py:94 | `replace` replaces a leading occurrence of the pattern and continues after it |
| PyStr.DecimalStringSpec | 01_pptx.py:94 | the decimal digits of `n` are non-empty, all digits, without a leading zero, and read back as `n` |
| PyStr.ParseIntToString | 01_pptx.py:66-67 | `int(str(n)) == n` for every integer; `str(n)` holds only digits and `-` |
| PyStr.ParseDigits | 01_pptx.py:88 | `int()` reads a plain run of ASCII digits as its decimal value |
| PyStr.ParseIntRejectsSeparator | 01_pptx.py:66-67 | a character from U+001C to U+001F is whitespace to `strip()`, yet `int()` rejects any string holding one |
| PyStr.ContainsAtEnd | 01_pptx.py:65 | a `Type` that ends with `notesSlide` contains it |
| PyStr.JoinTrimmed | 01_pptx.py:96-97 | a join of non-empty stripped parts has no outer whitespace and starts with the first part |
| SortedSets.MinExists | 01_pptx.py:122 | every non-empty set of slide indices has a least element |
| SortedSets.Min | 01_pptx.py:122 | the chosen element is in the set and no larger than any element |
| SortedSets.SortedKeysSpec | 01_pptx.py:122 | `sorted(keys)` is strictly ascending, has one entry per key, and lists exactly the keys |
| SortedSets.SortedKeysFirst | 01_pptx.py:122 | the sorted keys are the least key followed by the sorted rest |
| SortedSets.SortedStep | 01_pptx.py:122 | taking the least remaining key extends the sorted prefix by one |
| PptxParts.Filter | 01_pptx.py:41 | the kept names are exactly the listed names that pass the test |
| PptxParts.FilterCount | 01_pptx.py:41 | a name that passes is kept as often as it is listed; a name that fails is not kept |
| PptxParts.FilterAppend | 01_pptx.py:41 | filtering a listing made of two parts is filtering each part and concatenating, so listing order is kept |
| PptxParts.FilterOne | 01_pptx.py:41 | a single name is kept exactly when it passes |
| PptxParts.IntToStringChars | 01_pptx.py:94 | `str(n)` reads back as `n` and holds no `/` and no character that could start the name token |
| PptxParts.StemOf | 01_pptx.py:94 | removing the token and then the extension from `token + digits + ext` leaves the digits |
| PptxParts.IndexRoundTrip | 01_pptx.py:94 | for a directory, token and extension that fit together, the index parsed from `dir + token + str(n) + ext` is `n` |
| PptxParts.SlideIndexRoundTrip | 01_pptx.py:41-45 | `ppt/slides/slide<n>.xml` is picked by the slide filter, and `parse_slide` reads index `n` from it |
| PptxParts.NotesIndexRoundTrip | 01_pptx.py:48-52 | `ppt/notesSlides/notesSlide<n>.xml` is picked by the notes filter, and `parse_notes` reads index `n` from it |
| PptxParts.RelsIndexRoundTrip | 01_pptx.py:60-66 | `ppt/slides/_rels/slide<n>.xml.rels` is picked by the relationships filter, and its slide index reads back as `n` |
| PptxParts.PlaceRunTitleIff | 01_pptx.py:86-91 | a run with properties and text goes to the title, stripped, exactly when its `sz` is non-empty, an integer and at least 2800; it goes to the description, stripped, exactly when its `sz` is empty or an integer below 2800 |
| PptxParts.PlaceRunRaises | 01_pptx.py:86-91 | a run with properties and an `a:t` raises exactly when its `sz` is non-empty and not an integer, or its `a:t` has no text; the error is `MalformedSize` exactly in the first case, and `MissingText` exactly when the size is fine and the text is missing |
| PptxParts.PlaceRunSkipIff | 01_pptx.py:84-86 | a run is skipped exactly when it lacks `a:rPr` or `a:t` |
| PptxParts.FlattenAppend | 01_pptx.py:82-83 | the runs of two paragraph lists are the runs of each, concatenated |
| PptxParts.FlattenPrefix | 01_pptx.py:82-83 | the runs seen before run `j` of paragraph `i` form a prefix of all the runs |
| PptxParts.PlacementsSpec | 01_pptx.py:83-91 | one placement per run, the i-th being what the loop body makes of the i-th run |
| PptxParts.FirstErrorSpec | 01_pptx.py:82-91 | no error is reported exactly when every run is placed; a reported error is one some run raised |
| PptxParts.FirstErrorAt | 01_pptx.py:82-91 | an error preceded only by successes is the one raised |
| PptxParts.PlacementsTrimmed | 01_pptx.py:89-91 | every text a run contributes is stripped |
| PptxParts.StreamsTrimmed | 01_pptx.py:89-91 | the title and description texts are stripped, and there are no more of them than runs |
| PptxParts.TextsAppend | 01_pptx.py:82-91 | the title and description of consecutive runs are concatenations, in encounter order |
| PptxParts.SkipAddsNothing | 01_pptx.py:84-86 | a skipped run adds to neither the title nor the description, wherever it stands |
| PptxParts.SuffixedIsJoinSpace | 01_pptx.py:89 | the built title is the space-joined texts plus one trailing space |
| PptxParts.StrippedTitleIsJoin | 01_pptx.py:89-96 | when no title text is empty, the stored title is exactly the title texts joined by single spaces |
| PptxParts.NoteTexts | 01_pptx.py:110-111 | there is at most one notes text per run |
| PptxParts.NoteTextsTrimmed | 01_pptx.py:110-111 | every notes text is stripped |
| PptxParts.NoteTextsEveryRun | 01_pptx.py:110-111 | when every run has text, each run contributes its stripped text, in order, with no size test |
| PptxParts.NoteTextsSnoc | 01_pptx.py:110-111 | reading one more `a:t` raises exactly when it has no text, and otherwise appends its stripped text |
| PptxParts.EmptyTextInPrefix | 01_pptx.py:110-111 | an `a:t` without text among the first runs makes the whole notes entry raise |
| PptxParts.LinkRecordsWithoutNotes | 01_pptx.py:64-66 | an entry with no notes record changes no link and raises nothing, even when its own name would not parse |
| PptxParts.LinkRecordsLastWins | 01_pptx.py:64-68 | an entry that goes through has a parsable slide index, and links it to the Target of its last notes record; no other link changes |
| PptxParts.TargetsOfRecords | 01_pptx.py:64-67 | the targets followed are those of the records whose Type mentions `notesSlide`, in record order |
| PptxParts.LinkRecordsSticksOn | 01_pptx.py:64-68 | once a record raises, the later records of that entry are not looked at |
| PptxParts.LinkFilesSticks | 01_pptx.py:61-68 | once an entry raises, the later relationships entries are not read |
| PptxParts.EntriesSpec | 01_pptx.py:42-52 | the loops parse each picked entry once, in listing order |
| PptxParts.EntriesPrefix | 01_pptx.py:42-45 | the results of the first entries are a prefix of the results |
| PptxParts.StoreKeys | 01_pptx.py:42-52 | a loop raises nothing exactly when every entry parses; then the keys are the old keys plus every parsed index, and each index holds the value of the last entry carrying it |
| PptxParts.StoreSticks | 01_pptx.py:42-52 | once an entry raises, the later entries store nothing |
| PptxParts.StoreEntriesStep | 01_pptx.py:42-45 | one more entry of a loop that has not raised is stored under its index, or raises with the dictionary unchanged |
| PptxParts.StoreEntriesSticks | 01_pptx.py:42-52 | a loop that raised at some entry has the state it had right after that entry |
| PptxParts.StoreEntriesKeys | 01_pptx.py:42-52 | an entry loop that raises nothing parsed every entry, and its dictionary holds exactly the old keys and the index of every entry |
| PptxParts.ExtractStores | 01_pptx.py:29-52 | an extraction that raises nothing was given a ZIP file and parsed every slide and notes entry; `slides` then holds exactly the old keys and the index of every slide entry, and `notes_text` the old keys and the index of every notes entry |
| PptxReport.HeadingsAppend | 01_pptx.py:121-132 | the headings of consecutive output are concatenated |
| PptxReport.NoHeadings | 01_pptx.py:125-132 | indented and empty lines are not slide headings |
| PptxReport.SlideLinesHeading | 01_pptx.py:124-132 | a slide's block holds exactly one heading, its own |
| PptxReport.HeadingsOf | 01_pptx.py:124 | one heading per slide index, in the same order |
| PptxReport.BlocksHeadings | 01_pptx.py:122-132 | the headings of the printed blocks name the visited slides in visiting order |
| PptxReport.HeadingInjective | 01_pptx.py:124 | different slide indices get different headings |
| PptxReport.ReportHeadings | 01_pptx.py:121-132 | the i-th slide heading of the report names the i-th smallest stored slide index |
| PptxReport.ReportDistinct | 01_pptx.py:122-124 | no slide heading appears twice in the report |
| PptxReport.HeadingsOfMember | 01_pptx.py:124 | an index is among the visited ones exactly when its heading is among the headings |
| PptxReport.NotesInSlideLines | 01_pptx.py:124-132 | a slide's block holds the notes line for x exactly when x is the notes shown for that slide |
| PptxReport.BlocksNotes | 01_pptx.py:122-132 | the printed blocks hold the notes line for x exactly when some visited slide shows x as its notes |
| PptxReport.ReportNotes | 01_pptx.py:121-132 | the report prints `  Notes: x` exactly when some stored slide links to a non-zero notes index whose stored text is x |
| PptxReport.ReportCovers | 01_pptx.py:121-132 | the report has one heading per stored slide, and announces a slide exactly when it is stored |
| PptxExtractor.PowerPointXmlExtractor.constructor | 01_pptx.py:25-27 | the three dictionaries start empty |
| PptxExtractor.PowerPointXmlExtractor.ParseSlide | 01_pptx.py:70-98 | on success, `slides` gains the slide's index with its title and description; on an exception, `slides` is unchanged and the error is the first one raised; no other dictionary changes |
| PptxExtractor.PowerPointXmlExtractor.ReadRun | 01_pptx.py:84-91 | the classification of one run: skipped, title text, description text, or the exception it raises |
| PptxExtractor.PowerPointXmlExtractor.ParseNotes | 01_pptx.py:100-115 | on success, `notes_text` gains the notes index with the joined stripped texts; on an exception, it is unchanged |
| PptxExtractor.PowerPointXmlExtractor.ParseSlideRelationships | 01_pptx.py:54-68 | `slide_to_notes` is updated by every picked relationships entry, in order, and the loop stops at the first exception |
| PptxExtractor.PowerPointXmlExtractor.LinkRelsFiles | 01_pptx.py:61-68 | the entry loop leaves `slide_to_notes` as the entries, folded in order, make it |
| PptxExtractor.PowerPointXmlExtractor.LinkRelsFile | 01_pptx.py:62-68 | one relationships entry changes `slide_to_notes` as its records say, or raises on bad markup |
| PptxExtractor.PowerPointXmlExtractor.LinkRecordsOf | 01_pptx.py:64-68 | the record loop of one entry leaves `slide_to_notes` as its notes records, in order, make it |
| PptxExtractor.PowerPointXmlExtractor.LinkRelationship | 01_pptx.py:65-68 | a notes record links the entry's slide index to its Target's notes index; any other record changes nothing |
| PptxExtractor.PowerPointXmlExtractor.ExtractContent | 01_pptx.py:29-52 | rejects a non-ZIP file with nothing changed; otherwise the relationships, then the slides, then the notes, each stopping the whole extraction at its first exception |
| PptxExtractor.PowerPointXmlExtractor.ExtractSlides | 01_pptx.py:41-45 | `slides` is the old map with each slide entry stored in order, up to the first exception |
| PptxExtractor.PowerPointXmlExtractor.ExtractNotes | 01_pptx.py:48-52 | `notes_text` is the old map with each notes entry stored in order, up to the first exception |
| PptxExtractor.PowerPointXmlExtractor.DisplayContent | 01_pptx.py:117-132 | the printed lines are the report: the heading, then each stored slide's block in ascending index order (see `ReportHeadings`, `ReportCovers`) |
| PptxExtractor.RunErrorIsFirst | 01_pptx.py:82-91 | a run that raises after successful runs is the error `parse_slide` reports |
| PptxScenarios.TitleThreshold | 01_pptx.py:88-91 | `sz="2800"` with text `" Intro "` is title text `"Intro"`; `sz="2799"` is description text |
| PptxScenarios.RunWithoutPropertiesDropped | 01_pptx.py:84-86 | a run without `a:rPr` adds to neither the title nor the description |
| PptxScenarios.NonNumericName | 01_pptx.py:94 | `ppt/slides/slideFoo.xml` raises a malformed-name error |
| PptxScenarios.RecordWithoutType | 01_pptx.py:65 | a relationship record without `Type` is not a notes record |
| PptxScenarios.ZeroLinkHidden | 01_pptx.py:129-130 | a slide linked to notes index 0 shows no notes, even when notes 0 exist |
| PptxScenarios.DeckFilters | 01_pptx.py:41-60 | each of the deck's three entries is picked by its own filter and by no other |
| PptxScenarios.DeckRuns | 01_pptx.py:86-91 | the 32-point run "Intro" is title text; the 18-point run "Welcome to the deck" is description text |
| PptxScenarios.DeckSlideEntry | 01_pptx.py:70-98 | `ppt/slides/slide<n>.xml` with those two runs is stored as slide n with title "Intro" and description "Welcome to the deck" |
| PptxScenarios.DeckNotesEntry | 01_pptx.py:100-115 | `ppt/notesSlides/notesSlide<n>.xml` with the run "Remember to smile" is stored as notes n with that text |
| PptxScenarios.DeckLinks | 01_pptx.py:54-68 | a relationships entry for slide n whose record targets `../notesSlides/notesSlide<n>.xml` links slide n to notes n |
| PptxScenarios.DeckExtract | 01_pptx.py:29-52 | extracting the deck raises nothing and stores exactly slide n, notes n and the link from n to n |
| PptxScenarios.DeckReport | 01_pptx.py:117-132 | the stored deck prints the heading, the slide number, title and description, the notes line unless n is 0, and an empty line |
| PptxScenarios.DeckContent | 01_pptx.py:29-132 | the extractor run on the deck, then asked to display, raises nothing and prints exactly those lines |

## Left out

- Opening the ZIP archive, reading entries and parsing XML (`zipfile`,
  `ElementTree`) are not modelled. A package is given as a value: whether
  the file is a ZIP, the entry names, and what each entry parses to.
  Markup the XML parser rejects is one value that raises
  `MalformedMarkup`.
- XML namespaces are not modelled. An `a:p`, `a:r`, `a:rPr`, `a:t` or
  `Relationship` element is taken as already resolved.
- A run holds at most its first `a:t`, as `r.find('a:t')` in
  `parse_slide` reads it. A run with several `a:t` children, whose later
  children `parse_notes` would also read, is not modelled.
- `display_content` returns the printed lines instead of printing them.
  Each element of `Report` is the text of one `print` call, not one line
  of output: `strip()` keeps inner newlines, so a title, description or
  notes text holding a newline prints as several lines. `ReportHeadings`,
  `ReportCovers` and `ReportNotes` speak of these print calls.
  `f`-string formatting is modelled only for the strings and integers that
  appear.
- `os.path.basename` is modelled as on POSIX (`posixpath`), splitting only
  at `/`. On Windows, `ntpath.basename` also splits at `\` and after a
  drive's `:`; that platform is not modelled.
- `PptxReport.Report` and `SortedSets.SortedKeys` are ghost. `sorted()` is
  modelled as repeatedly taking the least remaining key, which gives the
  same sequence.
- PyStr.ParseInt: does not model `int()` accepting underscores between
  digits or non-ASCII decimal digits, nor the limit of 4300 digits that
  Python 3.11 and later put on `int()`. A name or `sz` using underscores or
  such digits is read as invalid, and a longer run of digits is read as
  its value. The whitespace `int()` trims and the separators it rejects
  are modelled.
- The `pptx_file` and `temp_folder` constructor parameters, `cleanup`,
  and the `__main__` block are not modelled. These are file-system and
  console effects only.
- `02_pdf.py` is not part of this model.
