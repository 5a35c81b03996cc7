/**
 * What `PowerPointXMLExtractor` does with the entries of a .pptx package:
 * which entry names it picks, how it turns a file name into an index, how
 * it sorts the text runs of a slide into title and description, and what
 * each parse step leaves in the three maps. Everything here is a value;
 * the class in PptxExtractor runs the same steps in place.
 */
module PptxParts {
  import opened Wrappers
  import opened PyStr

  /** The attributes of an XML element, by name. */
  type Attrs = map<string, string>

  /**
   * One `a:r` element: the attributes of its `a:rPr` child when it has one,
   * and its `a:t` child when it has one, holding that element's text
   * (`None` for an `a:t` with no text).
   */
  datatype Run = Run(rPr: Option<Attrs>, t: Option<Option<string>>)

  /** The `a:r` children of one `a:p` element, in document order. */
  type Paragraph = seq<Run>

  /**
   * A ZIP entry put through the XML parser: either the parser rejected it,
   * or the two views the extractor queries: every `a:p` element in document
   * order, and the attributes of every `Relationship` child of the root.
   */
  datatype Part =
    | Unparsable
    | Parsed(paragraphs: seq<Paragraph>, relationships: seq<Attrs>)

  /**
   * An opened package: whether the file is a ZIP archive at all, the names
   * `namelist()` gives in archive order, and what each named entry parses to.
   */
  datatype Package = Package(isZip: bool, names: seq<string>, parts: map<string, Part>) {
    /** Every listed entry can be opened. */
    predicate Valid() {
      forall n :: n in names ==> n in parts
    }
  }

  /** The exceptions that abort an extraction. */
  datatype Error =
    | NotAZip                              // the ValueError raised before the archive is opened
    | MalformedMarkup(entry: string)       // the XML parser rejects an entry
    | MalformedName(name: string)          // int() rejects what is left of a file name
    | MalformedSize(size: string)          // int() rejects a non-empty sz attribute
    | MissingText                          // an a:t element without text: None.strip()
    | MissingTarget                        // a notes relationship without a Target attribute

  /** The record stored per slide index. */
  datatype Slide = Slide(title: string, description: string)

  /** Where a fold over entries or records got to: the value so far and the error that stopped it. */
  datatype Progress<T> = Progress(value: T, failure: Option<Error>)

  /** The three dictionaries of the extractor. */
  datatype State = State(slides: map<int, Slide>, notes: map<int, string>, links: map<int, int>)

  const SlidePrefix := "ppt/slides/" + "slide"
  const NotesPrefix := "ppt/notesSlides/" + "notesSlide"
  const RelsPrefix := "ppt/slides/_rels/" + "slide"

  /** Runs declared at least this large (hundredths of a point) are title text. */
  const TitleSize := 2800

  // ---------------------------------------------------------------------
  // Entry names

  predicate IsSlideName(n: string) {
    StartsWith(n, SlidePrefix) && EndsWith(n, ".xml")
  }

  predicate IsNotesName(n: string) {
    StartsWith(n, NotesPrefix) && EndsWith(n, ".xml")
  }

  predicate IsRelsName(n: string) {
    StartsWith(n, RelsPrefix) && EndsWith(n, ".xml.rels")
  }

  /** `[n for n in names if keep(n)]`: keeps exactly the listed names that pass. */
  function Filter(names: seq<string>, keep: string -> bool): (r: seq<string>)
    ensures forall n :: n in r <==> n in names && keep(n)
  {
    if names == [] then []
    else
      var init := names[..|names| - 1];
      var last := names[|names| - 1];
      assert names == init + [last];
      Filter(init, keep) + (if keep(last) then [last] else [])
  }

  /** The comprehension keeps the listing order: a concatenation filters part by part. */
  lemma {:induction false} FilterAppend(a: seq<string>, b: seq<string>, keep: string -> bool)
    ensures Filter(a + b, keep) == Filter(a, keep) + Filter(b, keep)
  {
    if b == [] {
      assert a + b == a;
    } else {
      var init, last := b[..|b| - 1], b[|b| - 1];
      var kept := if keep(last) then [last] else [];
      FilterAppend(a, init, keep);
      assert (a + b)[..|a + b| - 1] == a + init && (a + b)[|a + b| - 1] == last;
      assert Filter(a + b, keep) == Filter(a + init, keep) + kept;
      assert Filter(b, keep) == Filter(init, keep) + kept;
      AppendAssoc(Filter(a, keep), Filter(init, keep), kept);
    }
  }

  /** Each name that passes is kept as often as it is listed, and no other name is kept. */
  lemma {:induction false} FilterCount(names: seq<string>, keep: string -> bool)
    ensures forall n :: multiset(Filter(names, keep))[n] == if keep(n) then multiset(names)[n] else 0
  {
    if names != [] {
      var init, last := names[..|names| - 1], names[|names| - 1];
      FilterCount(init, keep);
      assert names == init + [last];
      assert Filter(names, keep) == Filter(init, keep) + if keep(last) then [last] else [];
    }
  }

  /** One name is kept, once, exactly when it passes. */
  lemma FilterOne(n: string, keep: string -> bool)
    ensures Filter([n], keep) == if keep(n) then [n] else []
  {
    assert [n][..0] == [];
  }

  /**
   * `int(os.path.basename(name).replace(token, '').replace(ext, ''))`,
   * with the ValueError of `int` as `MalformedName`.
   */
  function IndexFromName(name: string, token: string, ext: string): Result<int, Error>
    requires token != [] && ext != []
  {
    var stem := ReplaceAll(ReplaceAll(Basename(name), token, ""), ext, "");
    match ParseInt(stem)
    case Some(k) => Ok(k)
    case None => Err(MalformedName(name))
  }

  /** The digits of `str(n)`, with its sign: none of them is a `/`, and none can start `token`. */
  lemma IntToStringChars(n: int, token: string)
    requires token != [] && token[0] != '-' && !IsDigit(token[0])
    ensures ParseInt(IntToString(n)) == Some(n)
    ensures '/' !in IntToString(n)
    ensures forall i :: 0 <= i < |IntToString(n)| ==> IntToString(n)[i] != token[0]
  {
    ParseIntToString(n);
    var d := IntToString(n);
    assert forall i :: 0 <= i < |d| ==> d[i] != '/';
  }

  /** Removing `token` then `ext` from `token + d + ext` leaves `d` when `d` holds neither. */
  lemma StemOf(token: string, d: string, ext: string)
    requires token != [] && ext != []
    requires forall i :: 0 <= i < |d| ==> d[i] != token[0] && d[i] != ext[0]
    requires ReplaceAll(ext, token, "") == ext
    ensures ReplaceAll(ReplaceAll(token + d + ext, token, ""), ext, "") == d
  {
    assert token + d + ext == token + (d + ext);
    ReplaceLeading(token, d + ext, "");
    ReplaceSkips(d, ext, token, "");
    assert ReplaceAll(token + d + ext, token, "") == d + ext;
    ReplaceSkips(d, ext, ext, "");
    assert ext == ext + [];
    ReplaceLeading(ext, [], "");
  }

  /**
   * What makes `dir + token + str(n) + ext` give back `n`: the directory
   * ends in `/`; neither the token nor the extension holds a `/` or starts
   * like a number; and removing the token leaves the extension alone.
   */
  predicate NameParts(dir: string, token: string, ext: string) {
    && dir != [] && dir[|dir| - 1] == '/'
    && token != [] && ext != []
    && '/' !in token && '/' !in ext
    && token[0] != '-' && !IsDigit(token[0]) && ext[0] != '-' && !IsDigit(ext[0])
    && ReplaceAll(ext, token, "") == ext
  }

  /**
   * A file name made of a directory, the token, the decimal form of `n` and
   * the extension gives back `n`, whatever the sign of `n`.
   */
  lemma IndexRoundTrip(dir: string, token: string, n: int, ext: string)
    requires NameParts(dir, token, ext)
    ensures IndexFromName(dir + token + IntToString(n) + ext, token, ext) == Ok(n)
  {
    var d := IntToString(n);
    IntToStringChars(n, token);
    IntToStringChars(n, ext);
    var base := token + d + ext;
    assert dir + token + d + ext == dir + base;
    assert '/' !in base;
    BasenameAfterSlash(dir, base);
    StemOf(token, d, ext);
  }

  /** A name built from a prefix, a middle and a suffix starts and ends with them. */
  lemma Affixed(prefix: string, mid: string, suffix: string)
    ensures StartsWith(prefix + mid + suffix, prefix) && EndsWith(prefix + mid + suffix, suffix)
  {
    var name := prefix + mid + suffix;
    assert name[..|prefix|] == prefix;
    assert name[|name| - |suffix|..] == suffix;
  }

  /** A slide entry named after index `n` is picked and yields `n`. */
  lemma SlideIndexRoundTrip(n: int)
    ensures IsSlideName(SlidePrefix + IntToString(n) + ".xml")
    ensures IndexFromName(SlidePrefix + IntToString(n) + ".xml", "slide", ".xml") == Ok(n)
  {
    Affixed(SlidePrefix, IntToString(n), ".xml");
    SlideNameParts();
    IndexRoundTrip("ppt/slides/", "slide", n, ".xml");
  }

  lemma SlideNameParts()
    ensures NameParts("ppt/slides/", "slide", ".xml")
  {
    ReplaceSkips(".xml", [], "slide", "");
    assert ".xml" + [] == ".xml";
  }

  /** A notes entry named after index `n` is picked and yields `n`. */
  lemma NotesIndexRoundTrip(n: int)
    ensures IsNotesName(NotesPrefix + IntToString(n) + ".xml")
    ensures IndexFromName(NotesPrefix + IntToString(n) + ".xml", "notesSlide", ".xml") == Ok(n)
  {
    Affixed(NotesPrefix, IntToString(n), ".xml");
    NotesNameParts();
    IndexRoundTrip("ppt/notesSlides/", "notesSlide", n, ".xml");
  }

  lemma NotesNameParts()
    ensures NameParts("ppt/notesSlides/", "notesSlide", ".xml")
  {
  }

  /** A slide relationships entry named after index `n` is picked and yields `n`. */
  lemma RelsIndexRoundTrip(n: int)
    ensures IsRelsName(RelsPrefix + IntToString(n) + ".xml.rels")
    ensures IndexFromName(RelsPrefix + IntToString(n) + ".xml.rels", "slide", ".xml.rels") == Ok(n)
  {
    Affixed(RelsPrefix, IntToString(n), ".xml.rels");
    RelsNameParts();
    IndexRoundTrip("ppt/slides/_rels/", "slide", n, ".xml.rels");
  }

  /** ".xml.rels" has no "slide" in it for `replace` to remove. */
  lemma RelsNameParts()
    ensures NameParts("ppt/slides/_rels/", "slide", ".xml.rels")
  {
    ReplaceSkips(".xml.rel", "s", "slide", "");
    assert ".xml.rel" + "s" == ".xml.rels";
  }

  // ---------------------------------------------------------------------
  // Slides

  /** Where one run of a slide goes. */
  datatype Placement = Skip | ToTitle(text: string) | ToDescription(text: string)

  /** `rPr.attrib.get('sz')`, with a missing attribute read as the equally falsy "". */
  function SizeAttr(a: Attrs): string {
    if "sz" in a then a["sz"] else ""
  }

  /**
   * The body of the inner loop of `parse_slide` for one run: a run needs
   * both `a:rPr` and `a:t`; a non-empty `sz` is converted with `int()`
   * first, then the text is stripped and goes to the title when the size
   * is at least `TitleSize`, to the description otherwise.
   */
  function PlaceRun(run: Run): Result<Placement, Error> {
    if run.t.None? || run.rPr.None? then Ok(Skip)
    else
      var sz := SizeAttr(run.rPr.value);
      var size := if sz == "" then None else ParseInt(sz);
      if sz != "" && size.None? then Err(MalformedSize(sz))
      else if run.t.value.None? then Err(MissingText)
      else if size.Some? && size.value >= TitleSize then Ok(ToTitle(Strip(run.t.value.value)))
      else Ok(ToDescription(Strip(run.t.value.value)))
  }

  /** A run with text and properties goes to the title exactly when its `sz` is present, non-empty and at least 2800. */
  lemma PlaceRunTitleIff(a: Attrs, text: string)
    ensures PlaceRun(Run(Some(a), Some(Some(text)))) == Ok(ToTitle(Strip(text)))
        <==> SizeAttr(a) != "" && ParseInt(SizeAttr(a)).Some? && ParseInt(SizeAttr(a)).value >= TitleSize
    ensures PlaceRun(Run(Some(a), Some(Some(text)))) == Ok(ToDescription(Strip(text)))
        <==> SizeAttr(a) == "" || (ParseInt(SizeAttr(a)).Some? && ParseInt(SizeAttr(a)).value < TitleSize)
  {
  }

  /**
   * A run with `a:rPr` and `a:t` raises exactly when its `sz` is non-empty
   * and not an integer, or its `a:t` has no text. `int()` runs before
   * `.strip()`, so a bad size is what is reported when both are wrong.
   */
  lemma PlaceRunRaises(a: Attrs, t: Option<string>)
    ensures PlaceRun(Run(Some(a), Some(t))).Err?
        <==> (SizeAttr(a) != "" && ParseInt(SizeAttr(a)).None?) || t.None?
    ensures PlaceRun(Run(Some(a), Some(t))) == Err(MalformedSize(SizeAttr(a)))
        <==> SizeAttr(a) != "" && ParseInt(SizeAttr(a)).None?
    ensures PlaceRun(Run(Some(a), Some(t))) == Err(MissingText)
        <==> (SizeAttr(a) == "" || ParseInt(SizeAttr(a)).Some?) && t.None?
  {
  }

  /** A run missing `a:rPr` or `a:t` is skipped, and only such a run. */
  lemma PlaceRunSkipIff(run: Run)
    ensures PlaceRun(run) == Ok(Skip) <==> run.rPr.None? || run.t.None?
  {
  }

  /** The runs of all paragraphs, in document order. */
  function Flatten(ps: seq<Paragraph>): seq<Run> {
    if ps == [] then [] else Flatten(ps[..|ps| - 1]) + ps[|ps| - 1]
  }

  lemma {:induction false} FlattenAppend(a: seq<Paragraph>, b: seq<Paragraph>)
    ensures Flatten(a + b) == Flatten(a) + Flatten(b)
  {
    if b == [] {
      assert a + b == a;
    } else {
      FlattenAppend(a, b[..|b| - 1]);
      assert (a + b)[..|a + b| - 1] == a + b[..|b| - 1];
    }
  }

  /**
   * The runs before run `j` of paragraph `i` open the document's run
   * sequence, and that run comes right after them.
   */
  lemma FlattenPrefix(ps: seq<Paragraph>, i: int, j: int)
    requires 0 <= i < |ps| && 0 <= j < |ps[i]|
    ensures var seen := Flatten(ps[..i]) + ps[i][..j];
            |seen| < |Flatten(ps)| && Flatten(ps)[..|seen|] == seen && Flatten(ps)[|seen|] == ps[i][j]
  {
    assert ps == ps[..i + 1] + ps[i + 1..];
    FlattenAppend(ps[..i + 1], ps[i + 1..]);
    assert ps[..i + 1][..i] == ps[..i];
  }

  /** What `PlaceRun` does with a run: a placement, or the error it raises. */
  type Placed = Result<Placement, Error>

  /** The placement of each run, in order. */
  function Placements(runs: seq<Run>): seq<Placed> {
    if runs == [] then [] else Placements(runs[..|runs| - 1]) + [PlaceRun(runs[|runs| - 1])]
  }

  /** The i-th placement is what `PlaceRun` makes of the i-th run. */
  lemma {:induction false} PlacementsSpec(runs: seq<Run>)
    ensures |Placements(runs)| == |runs|
    ensures forall i :: 0 <= i < |runs| ==> Placements(runs)[i] == PlaceRun(runs[i])
  {
    if runs != [] {
      PlacementsSpec(runs[..|runs| - 1]);
    }
  }

  /** The error of the first result that is one, if there is one. */
  function FirstError<T>(rs: seq<Result<T, Error>>): Option<Error> {
    if rs == [] then None
    else
      match FirstError(rs[..|rs| - 1])
      case Some(e) => Some(e)
      case None =>
        match rs[|rs| - 1]
        case Err(e) => Some(e)
        case Ok(_) => None
  }

  /**
   * There is no error exactly when every result is a success; otherwise
   * the error is that of a failed result preceded only by successes.
   */
  lemma {:induction false} FirstErrorSpec<T>(rs: seq<Result<T, Error>>)
    ensures FirstError(rs).None? <==> forall i :: 0 <= i < |rs| ==> rs[i].Ok?
    ensures FirstError(rs).Some? ==> exists i :: 0 <= i < |rs| && rs[i] == Err(FirstError(rs).value)
                                                && forall j :: 0 <= j < i ==> rs[j].Ok?
  {
    if rs != [] {
      var init := rs[..|rs| - 1];
      FirstErrorSpec(init);
      assert forall i :: 0 <= i < |init| ==> init[i] == rs[i];
    }
  }

  /** Looking at one more result. */
  lemma FirstErrorSnoc<T>(rs: seq<Result<T, Error>>, x: Result<T, Error>)
    ensures FirstError(rs + [x]) == if FirstError(rs).Some? then FirstError(rs) else if x.Err? then Some(x.error) else None
  {
    assert (rs + [x])[..|rs|] == rs;
  }

  /** An error preceded only by successes is the first error. */
  lemma FirstErrorAt<T>(rs: seq<Result<T, Error>>, i: int)
    requires 0 <= i < |rs| && rs[i].Err?
    requires forall j :: 0 <= j < i ==> rs[j].Ok?
    ensures FirstError(rs) == Some(rs[i].error)
  {
    FirstErrorSpec(rs);
    var r := FirstError(rs);
    var w :| 0 <= w < |rs| && rs[w] == Err(r.value) && forall j :: 0 <= j < w ==> rs[j].Ok?;
    assert !(w < i) && !(i < w);
  }

  /** Every text a placement carries is stripped, as `PlaceRun` makes it. */
  predicate TextsTrimmed(ps: seq<Placed>) {
    forall i :: 0 <= i < |ps| && ps[i].Ok? && !ps[i].value.Skip? ==> Trimmed(ps[i].value.text)
  }

  /** The texts `PlaceRun` produces are all stripped. */
  lemma PlacementsTrimmed(runs: seq<Run>)
    ensures TextsTrimmed(Placements(runs))
  {
    PlacementsSpec(runs);
    forall i | 0 <= i < |runs| && runs[i].t.Some? && runs[i].t.value.Some? {
      StripSpec(runs[i].t.value.value);
    }
  }

  /** The texts of the title placements, in encounter order. */
  function TitleTexts(ps: seq<Placed>): seq<string> {
    if ps == [] then []
    else TitleTexts(ps[..|ps| - 1]) + match ps[|ps| - 1] case Ok(ToTitle(x)) => [x] case _ => []
  }

  /** The texts of the description placements, in encounter order. */
  function DescriptionTexts(ps: seq<Placed>): seq<string> {
    if ps == [] then []
    else DescriptionTexts(ps[..|ps| - 1]) + match ps[|ps| - 1] case Ok(ToDescription(x)) => [x] case _ => []
  }

  /** Both streams take their texts from the placements, so they are stripped too, and no longer than the runs. */
  lemma {:induction false} StreamsTrimmed(ps: seq<Placed>)
    requires TextsTrimmed(ps)
    ensures |TitleTexts(ps)| + |DescriptionTexts(ps)| <= |ps|
    ensures forall i :: 0 <= i < |TitleTexts(ps)| ==> Trimmed(TitleTexts(ps)[i])
    ensures forall i :: 0 <= i < |DescriptionTexts(ps)| ==> Trimmed(DescriptionTexts(ps)[i])
  {
    if ps != [] {
      var init := ps[..|ps| - 1];
      assert forall i :: 0 <= i < |init| ==> init[i] == ps[i];
      StreamsTrimmed(init);
    }
  }

  /** One more placement extends the title or the description stream, or neither. */
  lemma StreamsSnoc(ps: seq<Placed>, x: Placed)
    ensures x.Ok? && x.value.ToTitle? ==> TitleTexts(ps + [x]) == TitleTexts(ps) + [x.value.text]
    ensures !(x.Ok? && x.value.ToTitle?) ==> TitleTexts(ps + [x]) == TitleTexts(ps)
    ensures x.Ok? && x.value.ToDescription? ==> DescriptionTexts(ps + [x]) == DescriptionTexts(ps) + [x.value.text]
    ensures !(x.Ok? && x.value.ToDescription?) ==> DescriptionTexts(ps + [x]) == DescriptionTexts(ps)
  {
    assert (ps + [x])[..|ps|] == ps;
    assert TitleTexts(ps) + [] == TitleTexts(ps);
    assert DescriptionTexts(ps) + [] == DescriptionTexts(ps);
  }

  /** `title += text + " "` over the title texts, starting from "". */
  function Suffixed(texts: seq<string>): string {
    if texts == [] then []
    else Suffixed(texts[..|texts| - 1]) + texts[|texts| - 1] + " "
  }

  /** One more title text appends it and a space. */
  lemma SuffixedSnoc(texts: seq<string>, x: string)
    ensures Suffixed(texts + [x]) == Suffixed(texts) + x + " "
  {
    assert (texts + [x])[..|texts|] == texts;
  }

  /** The two streams are built run by run: the texts of a concatenation are the concatenated texts. */
  lemma {:induction false} TextsAppend(a: seq<Placed>, b: seq<Placed>)
    ensures TitleTexts(a + b) == TitleTexts(a) + TitleTexts(b)
    ensures DescriptionTexts(a + b) == DescriptionTexts(a) + DescriptionTexts(b)
  {
    if b == [] {
      assert a + b == a;
    } else {
      var init := b[..|b| - 1];
      TextsAppend(a, init);
      assert (a + b)[..|a + b| - 1] == a + init;
      assert (a + b)[|a + b| - 1] == b[|b| - 1];
    }
  }

  /** A skipped run adds to neither stream, wherever it stands. */
  lemma SkipAddsNothing(a: seq<Placed>, b: seq<Placed>)
    ensures TitleTexts(a + [Ok(Skip)] + b) == TitleTexts(a + b)
    ensures DescriptionTexts(a + [Ok(Skip)] + b) == DescriptionTexts(a + b)
  {
    var m: seq<Placed> := [Ok(Skip)];
    assert m[..0] == [];
    assert TitleTexts(m) == [] && DescriptionTexts(m) == [];
    TextsAppend(a + m, b);
    TextsAppend(a, m);
    TextsAppend(a, b);
    assert TitleTexts(a) + [] == TitleTexts(a);
    assert DescriptionTexts(a) + [] == DescriptionTexts(a);
  }

  lemma {:induction false} SuffixedIsJoinSpace(texts: seq<string>)
    requires texts != []
    ensures Suffixed(texts) == Join(texts) + " "
  {
    if |texts| > 1 {
      var init := texts[..|texts| - 1];
      SuffixedIsJoinSpace(init);
    } else {
      assert texts[..0] == [];
    }
  }

  /**
   * When no title run's text strips to "", the stored title is the title
   * texts joined by single spaces.
   */
  lemma StrippedTitleIsJoin(texts: seq<string>)
    requires forall i :: 0 <= i < |texts| ==> texts[i] != [] && Trimmed(texts[i])
    ensures Strip(Suffixed(texts)) == Join(texts)
  {
    if texts != [] {
      SuffixedIsJoinSpace(texts);
      JoinTrimmed(texts);
      StripSpaceSuffix(Join(texts));
    }
  }

  /**
   * `parse_slide(content, name)`: on success, the index parsed from `name`
   * and the slide record. The runs are classified before the name is parsed,
   * so a bad run is reported even when the name is bad as well.
   */
  function SlideEntry(name: string, part: Part): Result<(int, Slide), Error> {
    match part
    case Unparsable => Err(MalformedMarkup(name))
    case Parsed(paragraphs, _) =>
      var placed := Placements(Flatten(paragraphs));
      match FirstError(placed)
      case Some(e) => Err(e)
      case None =>
        match IndexFromName(name, "slide", ".xml")
        case Err(e) => Err(e)
        case Ok(k) => Ok((k, Slide(Strip(Suffixed(TitleTexts(placed))), Join(DescriptionTexts(placed)))))
  }

  // ---------------------------------------------------------------------
  // Notes

  /** An `a:t` element with no text, which makes `parse_notes` raise. */
  predicate HasEmptyText(runs: seq<Run>) {
    exists i :: 0 <= i < |runs| && runs[i].t == Some(None)
  }

  /** The stripped texts of every `a:p/a:r/a:t`, in document order; no size or `a:rPr` test. */
  function NoteTexts(runs: seq<Run>): (r: seq<string>)
    requires !HasEmptyText(runs)
    ensures |r| <= |runs|
  {
    if runs == [] then []
    else
      var last := runs[|runs| - 1];
      assert forall i :: 0 <= i < |runs| - 1 ==> runs[..|runs| - 1][i] == runs[i];
      NoteTexts(runs[..|runs| - 1]) + if last.t.Some? then [Strip(last.t.value.value)] else []
  }

  /** Every notes text is stripped. */
  lemma {:induction false} NoteTextsTrimmed(runs: seq<Run>)
    requires !HasEmptyText(runs)
    ensures forall i :: 0 <= i < |NoteTexts(runs)| ==> Trimmed(NoteTexts(runs)[i])
  {
    if runs != [] {
      var init := runs[..|runs| - 1];
      var last := runs[|runs| - 1];
      assert forall i :: 0 <= i < |init| ==> init[i] == runs[i];
      NoteTextsTrimmed(init);
      if last.t.Some? {
        StripSpec(last.t.value.value);
      }
    }
  }

  /** When every run has text, each one contributes its stripped text, in order. */
  lemma {:induction false} NoteTextsEveryRun(runs: seq<Run>)
    requires forall i :: 0 <= i < |runs| ==> runs[i].t.Some? && runs[i].t.value.Some?
    ensures !HasEmptyText(runs)
    ensures |NoteTexts(runs)| == |runs|
    ensures forall i :: 0 <= i < |runs| ==> NoteTexts(runs)[i] == Strip(runs[i].t.value.value)
  {
    if runs != [] {
      var init := runs[..|runs| - 1];
      NoteTextsEveryRun(init);
    }
  }

  /** Reading one more `a:t`. */
  lemma NoteTextsSnoc(runs: seq<Run>, run: Run)
    ensures HasEmptyText(runs + [run]) <==> HasEmptyText(runs) || run.t == Some(None)
    ensures !HasEmptyText(runs + [run]) ==>
              NoteTexts(runs + [run]) == NoteTexts(runs) + if run.t.Some? then [Strip(run.t.value.value)] else []
  {
    var all := runs + [run];
    assert all[..|runs|] == runs;
    if HasEmptyText(all) && run.t != Some(None) {
      var i :| 0 <= i < |all| && all[i].t == Some(None);
      assert runs[i].t == Some(None);
    }
    if HasEmptyText(runs) {
      var i :| 0 <= i < |runs| && runs[i].t == Some(None);
      assert all[i].t == Some(None);
    }
    if run.t == Some(None) {
      assert all[|runs|].t == Some(None);
    }
  }

  /** An empty `a:t` among the first runs is one of the document. */
  lemma EmptyTextInPrefix(runs: seq<Run>, n: int)
    requires 0 <= n <= |runs| && HasEmptyText(runs[..n])
    ensures HasEmptyText(runs)
  {
    var i :| 0 <= i < n && runs[..n][i].t == Some(None);
    assert runs[i].t == Some(None);
  }

  /**
   * `parse_notes(content, name)`: on success, the index parsed from `name`
   * and the notes text, the run texts joined by spaces.
   */
  function NotesEntry(name: string, part: Part): Result<(int, string), Error> {
    match part
    case Unparsable => Err(MalformedMarkup(name))
    case Parsed(paragraphs, _) =>
      var runs := Flatten(paragraphs);
      if HasEmptyText(runs) then Err(MissingText)
      else
        match IndexFromName(name, "notesSlide", ".xml")
        case Err(e) => Err(e)
        case Ok(k) => Ok((k, Join(NoteTexts(runs))))
  }

  // ---------------------------------------------------------------------
  // Slide-to-notes links

  /** `'notesSlide' in rel.attrib.get('Type', '')` */
  predicate IsNotesRel(rec: Attrs) {
    Contains(if "Type" in rec then rec["Type"] else "", "notesSlide")
  }

  /** `int()` of the slide index in a relationships file name. */
  function RelsSlideIndex(relsName: string): Result<int, Error> {
    IndexFromName(relsName, "slide", ".xml.rels")
  }

  /** `int()` of the notes index in a record's Target; a record without one raises KeyError. */
  function TargetIndex(rec: Attrs): Result<int, Error> {
    if "Target" in rec then IndexFromName(rec["Target"], "notesSlide", ".xml") else Err(MissingTarget)
  }

  /**
   * What one relationship record says about notes: nothing when its Type
   * does not mention `notesSlide`, otherwise the notes index of its Target.
   */
  function NotesRef(rec: Attrs): Option<Result<int, Error>> {
    if IsNotesRel(rec) then Some(TargetIndex(rec)) else None
  }

  /** The records' notes references, one per record. */
  function NotesRefs(recs: seq<Attrs>): seq<Option<Result<int, Error>>> {
    if recs == [] then []
    else NotesRefs(recs[..|recs| - 1]) + [NotesRef(recs[|recs| - 1])]
  }

  lemma {:induction false} NotesRefsLength(recs: seq<Attrs>)
    ensures |NotesRefs(recs)| == |recs|
  {
    if recs != [] {
      NotesRefsLength(recs[..|recs| - 1]);
    }
  }

  /** The references of one more record. */
  lemma NotesRefsSnoc(recs: seq<Attrs>, rec: Attrs)
    ensures NotesRefs(recs + [rec]) == NotesRefs(recs) + [NotesRef(rec)]
  {
    assert (recs + [rec])[..|recs|] == recs;
  }

  /** Following one more reference of an entry whose earlier records linked without error. */
  lemma LinkRecordsSnoc(links: map<int, int>, slide: Result<int, Error>, refs: seq<Option<Result<int, Error>>>, ref: Option<Result<int, Error>>)
    requires LinkRecords(links, slide, refs).failure.None?
    ensures LinkRecords(links, slide, refs + [ref]) == LinkRecord(LinkRecords(links, slide, refs).value, slide, ref)
  {
    assert (refs + [ref])[..|refs|] == refs;
  }

  /**
   * The body of the record loop of `parse_slide_relationships`: a notes
   * record takes the slide index of its file (`slide`, which is only looked
   * at here) and the notes index of its Target, and links the two.
   */
  function LinkRecord(links: map<int, int>, slide: Result<int, Error>, ref: Option<Result<int, Error>>): Progress<map<int, int>> {
    match ref
    case None => Progress(links, None)
    case Some(target) =>
      match slide
      case Err(e) => Progress(links, Some(e))
      case Ok(s) =>
        match target
        case Err(e) => Progress(links, Some(e))
        case Ok(n) => Progress(links[s := n], None)
  }

  /** The record loop over one relationships entry; links made before an error stay. */
  function LinkRecords(links: map<int, int>, slide: Result<int, Error>, refs: seq<Option<Result<int, Error>>>): Progress<map<int, int>> {
    if refs == [] then Progress(links, None)
    else
      var p := LinkRecords(links, slide, refs[..|refs| - 1]);
      if p.failure.Some? then p else LinkRecord(p.value, slide, refs[|refs| - 1])
  }

  /** The notes targets among the references, in order. */
  function Targets(refs: seq<Option<Result<int, Error>>>): seq<Result<int, Error>> {
    if refs == [] then []
    else
      var last := refs[|refs| - 1];
      Targets(refs[..|refs| - 1]) + if last.Some? then [last.value] else []
  }

  /**
   * An entry without notes records leaves the links as they are and raises
   * nothing, even when its own name would not parse.
   */
  lemma {:induction false} LinkRecordsWithoutNotes(links: map<int, int>, slide: Result<int, Error>, refs: seq<Option<Result<int, Error>>>)
    requires Targets(refs) == []
    ensures LinkRecords(links, slide, refs) == Progress(links, None)
  {
    if refs != [] {
      LinkRecordsWithoutNotes(links, slide, refs[..|refs| - 1]);
    }
  }

  /**
   * An entry that goes through without error has a slide index that parses
   * and links it to the Target of its LAST notes record; no other link changes.
   */
  lemma {:induction false} LinkRecordsLastWins(links: map<int, int>, slide: Result<int, Error>, refs: seq<Option<Result<int, Error>>>)
    requires LinkRecords(links, slide, refs).failure.None?
    requires Targets(refs) != []
    ensures slide.Ok? && Targets(refs)[|Targets(refs)| - 1].Ok?
    ensures LinkRecords(links, slide, refs).value
            == links[slide.value := Targets(refs)[|Targets(refs)| - 1].value]
  {
    var init := refs[..|refs| - 1];
    var ref := refs[|refs| - 1];
    var p := LinkRecords(links, slide, init);
    assert p.failure.None?;
    if ref.Some? {
      assert Targets(refs) == Targets(init) + [ref.value];
      if Targets(init) != [] {
        LinkRecordsLastWins(links, slide, init);
      } else {
        LinkRecordsWithoutNotes(links, slide, init);
      }
    } else {
      assert Targets(refs) == Targets(init);
      LinkRecordsLastWins(links, slide, init);
    }
  }

  /** The targets are those of the notes records, in record order. */
  lemma {:induction false} TargetsOfRecords(recs: seq<Attrs>)
    ensures Targets(NotesRefs(recs)) == TargetsOf(NotesRecords(recs))
  {
    if recs != [] {
      var init := recs[..|recs| - 1];
      TargetsOfRecords(init);
      NotesRefsLength(init);
      assert NotesRefs(recs)[..|recs| - 1] == NotesRefs(init);
      TargetsOfAppend(NotesRecords(init), if IsNotesRel(recs[|recs| - 1]) then [recs[|recs| - 1]] else []);
    }
  }

  /** The notes records among `recs`, in order. */
  function NotesRecords(recs: seq<Attrs>): seq<Attrs> {
    if recs == [] then []
    else
      var last := recs[|recs| - 1];
      NotesRecords(recs[..|recs| - 1]) + if IsNotesRel(last) then [last] else []
  }

  /** The target index of each record. */
  function TargetsOf(recs: seq<Attrs>): seq<Result<int, Error>> {
    seq(|recs|, i requires 0 <= i < |recs| => TargetIndex(recs[i]))
  }

  lemma TargetsOfAppend(a: seq<Attrs>, b: seq<Attrs>)
    ensures TargetsOf(a + b) == TargetsOf(a) + TargetsOf(b)
  {
  }

  /** Once a relationships entry raises, the records after the failing one are not looked at. */
  lemma {:induction false} LinkRecordsSticksOn(links: map<int, int>, slide: Result<int, Error>, recs: seq<Attrs>, j: int)
    requires 0 <= j <= |recs| && LinkRecords(links, slide, NotesRefs(recs[..j])).failure.Some?
    ensures LinkRecords(links, slide, NotesRefs(recs)) == LinkRecords(links, slide, NotesRefs(recs[..j]))
  {
    if j < |recs| {
      var init := recs[..|recs| - 1];
      assert init[..j] == recs[..j];
      LinkRecordsSticksOn(links, slide, init, j);
      NotesRefsLength(init);
      assert NotesRefs(recs)[..|NotesRefs(recs)| - 1] == NotesRefs(init);
    } else {
      assert recs[..j] == recs;
    }
  }

  /** `parse_slide_relationships` for one entry. */
  function LinkEntry(links: map<int, int>, relsName: string, part: Part): Progress<map<int, int>> {
    match part
    case Unparsable => Progress(links, Some(MalformedMarkup(relsName)))
    case Parsed(_, recs) => LinkRecords(links, RelsSlideIndex(relsName), NotesRefs(recs))
  }

  /** `parse_slide_relationships` over the relationships entries `files`, in order. */
  function LinkFiles(links: map<int, int>, files: seq<string>, pkg: Package): Progress<map<int, int>>
    requires forall f :: f in files ==> f in pkg.parts
  {
    if files == [] then Progress(links, None)
    else
      var p := LinkFiles(links, files[..|files| - 1], pkg);
      var f := files[|files| - 1];
      if p.failure.Some? then p else LinkEntry(p.value, f, pkg.parts[f])
  }

  /** Reading one more relationships entry after the earlier ones went through. */
  lemma LinkFilesStep(links: map<int, int>, files: seq<string>, i: int, pkg: Package)
    requires 0 <= i < |files| && forall f :: f in files ==> f in pkg.parts
    requires LinkFiles(links, files[..i], pkg).failure.None?
    ensures LinkFiles(links, files[..i + 1], pkg) == LinkEntry(LinkFiles(links, files[..i], pkg).value, files[i], pkg.parts[files[i]])
  {
    assert files[..i + 1][..i] == files[..i];
  }

  /** Once one relationships entry raises, the later entries are not read. */
  lemma {:induction false} LinkFilesSticks(links: map<int, int>, files: seq<string>, pkg: Package, i: int)
    requires forall f :: f in files ==> f in pkg.parts
    requires 0 <= i <= |files| && LinkFiles(links, files[..i], pkg).failure.Some?
    ensures LinkFiles(links, files, pkg) == LinkFiles(links, files[..i], pkg)
  {
    if i < |files| {
      var init := files[..|files| - 1];
      assert init[..i] == files[..i];
      LinkFilesSticks(links, init, pkg, i);
    } else {
      assert files[..i] == files;
    }
  }

  // ---------------------------------------------------------------------
  // The slide and notes loops of extract_content

  /** `parse` (`parse_slide` or `parse_notes`) of each entry in `files`, in order. */
  function Entries<T>(files: seq<string>, parts: map<string, Part>, parse: (string, Part) -> Result<(int, T), Error>): seq<Result<(int, T), Error>>
    requires forall f :: f in files ==> f in parts
  {
    if files == [] then []
    else
      var f := files[|files| - 1];
      Entries(files[..|files| - 1], parts, parse) + [parse(f, parts[f])]
  }

  /** The i-th result is what parsing the i-th entry gives. */
  lemma {:induction false} EntriesSpec<T>(files: seq<string>, parts: map<string, Part>, parse: (string, Part) -> Result<(int, T), Error>)
    requires forall f :: f in files ==> f in parts
    ensures |Entries(files, parts, parse)| == |files|
    ensures forall i :: 0 <= i < |files| ==> Entries(files, parts, parse)[i] == parse(files[i], parts[files[i]])
  {
    if files != [] {
      EntriesSpec(files[..|files| - 1], parts, parse);
    }
  }

  /** Parsing one more entry appends its result. */
  lemma EntriesSnoc<T>(files: seq<string>, f: string, parts: map<string, Part>, parse: (string, Part) -> Result<(int, T), Error>)
    requires forall g :: g in files ==> g in parts
    requires f in parts
    ensures Entries(files + [f], parts, parse) == Entries(files, parts, parse) + [parse(f, parts[f])]
  {
    assert (files + [f])[..|files|] == files;
  }

  /** The results of a prefix of the entries are a prefix of the results. */
  lemma {:induction false} EntriesPrefix<T>(files: seq<string>, parts: map<string, Part>, parse: (string, Part) -> Result<(int, T), Error>, i: int)
    requires forall f :: f in files ==> f in parts
    requires 0 <= i <= |files|
    ensures |Entries(files, parts, parse)| == |files|
    ensures Entries(files[..i], parts, parse) == Entries(files, parts, parse)[..i]
  {
    EntriesSpec(files, parts, parse);
    if i == |files| {
      assert files[..i] == files;
    } else {
      var init := files[..|files| - 1];
      EntriesSpec(init, parts, parse);
      EntriesPrefix(init, parts, parse, i);
      assert init[..i] == files[..i];
    }
  }

  /**
   * The slide loop and the notes loop of `extract_content`: each parsed
   * entry is stored under its index, overwriting; the first error stops
   * the loop and what was stored before it stays.
   */
  function Store<T>(m: map<int, T>, results: seq<Result<(int, T), Error>>): Progress<map<int, T>> {
    if results == [] then Progress(m, None)
    else
      var p := Store(m, results[..|results| - 1]);
      if p.failure.Some? then p else StoreOne(p.value, results[|results| - 1])
  }

  /** One parsed entry: stored under its index, or the exception it raised with `m` left alone. */
  function StoreOne<T>(m: map<int, T>, x: Result<(int, T), Error>): Progress<map<int, T>> {
    match x
    case Err(e) => Progress(m, Some(e))
    case Ok((k, v)) => Progress(m[k := v], None)
  }

  /**
   * A loop raises nothing exactly when every entry parses; then the keys
   * are the old keys plus the entries' indices, and each index holds the
   * value of the last entry that carries it.
   */
  lemma {:induction false} StoreKeys<T>(m: map<int, T>, results: seq<Result<(int, T), Error>>)
    ensures Store(m, results).failure.None? <==> forall i :: 0 <= i < |results| ==> results[i].Ok?
    ensures Store(m, results).failure.None? ==>
              forall k :: k in Store(m, results).value <==>
                k in m || exists i :: 0 <= i < |results| && results[i].Ok? && results[i].value.0 == k
    ensures Store(m, results).failure.None? ==>
              forall i :: 0 <= i < |results| && results[i].Ok?
                && (forall j :: i < j < |results| && results[j].Ok? ==> results[j].value.0 != results[i].value.0)
                ==> Store(m, results).value[results[i].value.0] == results[i].value.1
  {
    if results != [] {
      var init := results[..|results| - 1];
      var last := results[|results| - 1];
      assert forall i :: 0 <= i < |init| ==> init[i] == results[i];
      StoreKeys(m, init);
      var p := Store(m, init);
      if p.failure.None? && last.Ok? {
        var q := Store(m, results);
        assert q.value == p.value[last.value.0 := last.value.1];
        forall k ensures k in q.value <==> k in m || exists i :: 0 <= i < |results| && results[i].Ok? && results[i].value.0 == k {
          if k == last.value.0 {
            assert results[|results| - 1].value.0 == k;
          }
        }
      }
    }
  }

  /** Storing one more entry after the earlier ones went through. */
  lemma StoreSnoc<T>(m: map<int, T>, results: seq<Result<(int, T), Error>>, x: Result<(int, T), Error>)
    requires Store(m, results).failure.None?
    ensures Store(m, results + [x]) == StoreOne(Store(m, results).value, x)
  {
    assert (results + [x])[..|results|] == results;
  }

  /** Once an entry raises, the loop stops: later entries store nothing. */
  lemma {:induction false} StoreSticks<T>(m: map<int, T>, results: seq<Result<(int, T), Error>>, i: int)
    requires 0 <= i <= |results| && Store(m, results[..i]).failure.Some?
    ensures Store(m, results) == Store(m, results[..i])
  {
    if i < |results| {
      var init := results[..|results| - 1];
      assert init[..i] == results[..i];
      StoreSticks(m, init, i);
    } else {
      assert results[..i] == results;
    }
  }

  /** One more entry of a loop that has not raised yet: its result is stored, or raised. */
  lemma StoreEntriesStep<T>(m: map<int, T>, files: seq<string>, i: int, parts: map<string, Part>, parse: (string, Part) -> Result<(int, T), Error>)
    requires 0 <= i < |files| && forall f :: f in files ==> f in parts
    requires Store(m, Entries(files[..i], parts, parse)).failure.None?
    ensures Store(m, Entries(files[..i + 1], parts, parse))
            == StoreOne(Store(m, Entries(files[..i], parts, parse)).value, parse(files[i], parts[files[i]]))
  {
    assert files[..i + 1] == files[..i] + [files[i]];
    EntriesSnoc(files[..i], files[i], parts, parse);
    StoreSnoc(m, Entries(files[..i], parts, parse), parse(files[i], parts[files[i]]));
  }

  /** A loop that raised at entry `i - 1` stores nothing after it. */
  lemma StoreEntriesSticks<T>(m: map<int, T>, files: seq<string>, i: int, parts: map<string, Part>, parse: (string, Part) -> Result<(int, T), Error>)
    requires 0 <= i <= |files| && forall f :: f in files ==> f in parts
    requires Store(m, Entries(files[..i], parts, parse)).failure.Some?
    ensures Store(m, Entries(files, parts, parse)) == Store(m, Entries(files[..i], parts, parse))
  {
    EntriesPrefix(files, parts, parse, i);
    StoreSticks(m, Entries(files, parts, parse), i);
  }

  /**
   * An entry loop that raises nothing parsed every entry, and its keys are
   * then the old keys plus the index of every entry.
   */
  lemma StoreEntriesKeys<T>(m: map<int, T>, files: seq<string>, parts: map<string, Part>, parse: (string, Part) -> Result<(int, T), Error>)
    requires forall f :: f in files ==> f in parts
    ensures Store(m, Entries(files, parts, parse)).failure.None? ==>
              forall f :: f in files ==> parse(f, parts[f]).Ok?
    ensures Store(m, Entries(files, parts, parse)).failure.None? ==>
              forall k :: k in Store(m, Entries(files, parts, parse)).value <==>
                k in m || exists f :: f in files && parse(f, parts[f]).Ok? && parse(f, parts[f]).value.0 == k
  {
    var rs := Entries(files, parts, parse);
    EntriesSpec(files, parts, parse);
    StoreKeys(m, rs);
    if Store(m, rs).failure.None? {
      forall f | f in files
        ensures parse(f, parts[f]).Ok?
      {
        var i :| 0 <= i < |files| && files[i] == f;
        assert rs[i].Ok?;
      }
      forall k
        ensures k in Store(m, rs).value <==>
          k in m || exists f :: f in files && parse(f, parts[f]).Ok? && parse(f, parts[f]).value.0 == k
      {
        if exists i :: 0 <= i < |rs| && rs[i].Ok? && rs[i].value.0 == k {
          var i :| 0 <= i < |rs| && rs[i].Ok? && rs[i].value.0 == k;
          assert files[i] in files;
        }
        if exists f :: f in files && parse(f, parts[f]).Ok? && parse(f, parts[f]).value.0 == k {
          var f :| f in files && parse(f, parts[f]).Ok? && parse(f, parts[f]).value.0 == k;
          var i :| 0 <= i < |files| && files[i] == f;
          assert rs[i].Ok? && rs[i].value.0 == k;
        }
      }
    }
  }

  /**
   * `extract_content` on a state: reject a non-ZIP file before reading
   * anything, then the relationships, the slides and the notes, each loop
   * stopping the whole extraction at its first error.
   */
  function Extract(st: State, pkg: Package): Progress<State>
    requires pkg.Valid()
  {
    if !pkg.isZip then Progress(st, Some(NotAZip))
    else
      var l := LinkFiles(st.links, Filter(pkg.names, IsRelsName), pkg);
      if l.failure.Some? then Progress(st.(links := l.value), l.failure)
      else
        var s := Store(st.slides, Entries(Filter(pkg.names, IsSlideName), pkg.parts, SlideEntry));
        if s.failure.Some? then Progress(st.(links := l.value, slides := s.value), s.failure)
        else
          var n := Store(st.notes, Entries(Filter(pkg.names, IsNotesName), pkg.parts, NotesEntry));
          Progress(State(s.value, n.value, l.value), n.failure)
  }

  /**
   * An extraction that raises nothing was given a ZIP file whose picked
   * slide and notes entries all parse. Its slides are then the earlier ones
   * plus one per picked slide entry, under the index parsed from its name,
   * and likewise for its notes.
   */
  lemma ExtractStores(st: State, pkg: Package)
    requires pkg.Valid()
    ensures Extract(st, pkg).failure.None? ==> pkg.isZip
    ensures Extract(st, pkg).failure.None? ==>
              forall n :: n in pkg.names && IsSlideName(n) ==> SlideEntry(n, pkg.parts[n]).Ok?
    ensures Extract(st, pkg).failure.None? ==>
              forall k :: k in Extract(st, pkg).value.slides <==>
                (k in st.slides || exists n :: n in pkg.names && IsSlideName(n) && SlideEntry(n, pkg.parts[n]).Ok? && SlideEntry(n, pkg.parts[n]).value.0 == k)
    ensures Extract(st, pkg).failure.None? ==>
              forall n :: n in pkg.names && IsNotesName(n) ==> NotesEntry(n, pkg.parts[n]).Ok?
    ensures Extract(st, pkg).failure.None? ==>
              forall k :: k in Extract(st, pkg).value.notes <==>
                (k in st.notes || exists n :: n in pkg.names && IsNotesName(n) && NotesEntry(n, pkg.parts[n]).Ok? && NotesEntry(n, pkg.parts[n]).value.0 == k)
  {
    var slideFiles := Filter(pkg.names, IsSlideName);
    var notesFiles := Filter(pkg.names, IsNotesName);
    StoreEntriesKeys(st.slides, slideFiles, pkg.parts, SlideEntry);
    StoreEntriesKeys(st.notes, notesFiles, pkg.parts, NotesEntry);
  }
}
