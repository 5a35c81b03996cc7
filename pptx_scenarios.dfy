/**
 * Concrete cases of the behaviour the extractor has as written: the title
 * threshold on both sides, a run without properties, a file name that does
 * not parse, a relationship record without a Type, a link to notes 0, and
 * a whole deck from its entries to the printed lines.
 */
module PptxScenarios {
  import opened Wrappers
  import opened PyStr
  import opened PptxParts
  import opened PptxReport
  import opened SortedSets
  import opened PptxExtractor

  /** `sz="2800"` is title text, `sz="2799"` is description text. */
  lemma TitleThreshold()
    ensures PlaceRun(Run(Some(map["sz" := "2800"]), Some(Some(" Intro ")))) == Ok(ToTitle("Intro"))
    ensures PlaceRun(Run(Some(map["sz" := "2799"]), Some(Some("Intro")))) == Ok(ToDescription("Intro"))
  {
    SizeLiterals();
    IntroStripped();
  }

  lemma SizeLiterals()
    ensures ParseInt("2800") == Some(2800) && ParseInt("2799") == Some(2799)
  {
    assert DecimalValue("2800") == Some(2800) by {
      assert "2800"[..3] == "280" && "280"[..2] == "28" && "28"[..1] == "2";
    }
    assert DecimalValue("2799") == Some(2799) by {
      assert "2799"[..3] == "279" && "279"[..2] == "27" && "27"[..1] == "2";
    }
    StripSpec("2800");
    StripSpec("2799");
  }

  lemma IntroStripped()
    ensures Strip(" Intro ") == "Intro" && Strip("Intro") == "Intro"
  {
    assert LStrip(" Intro ") == "Intro ";
    assert RStrip("Intro ") == "Intro";
    StripSpec("Intro");
  }

  /** A run without an `a:rPr` child is dropped even when its size would make it a title. */
  lemma RunWithoutPropertiesDropped(text: string)
    ensures PlaceRun(Run(None, Some(Some(text)))) == Ok(Skip)
    ensures TitleTexts([PlaceRun(Run(None, Some(Some(text))))]) == []
    ensures DescriptionTexts([PlaceRun(Run(None, Some(Some(text))))]) == []
  {
    var ps: seq<Placed> := [Ok(Skip)];
    assert ps[..0] == [];
  }

  /** `int("Foo")` raises, so a slide entry named `slideFoo.xml` aborts the parse. */
  lemma NonNumericName()
    ensures IndexFromName("ppt/slides/slideFoo.xml", "slide", ".xml") == Err(MalformedName("ppt/slides/slideFoo.xml"))
  {
    FooBasename();
    FooStem();
    FooNotANumber();
  }

  lemma FooBasename()
    ensures Basename("ppt/slides/slideFoo.xml") == "slideFoo.xml"
  {
    BasenameAfterSlash("ppt/slides/", "slideFoo.xml");
    assert "ppt/slides/slideFoo.xml" == "ppt/slides/" + "slideFoo.xml";
  }

  lemma FooStem()
    ensures ReplaceAll(ReplaceAll("slideFoo.xml", "slide", ""), ".xml", "") == "Foo"
  {
    StemOf("slide", "Foo", ".xml");
    assert "slide" + "Foo" + ".xml" == "slideFoo.xml";
  }

  lemma FooNotANumber()
    ensures ParseInt("Foo") == None
  {
    StripSpec("Foo");
    assert DecimalValue("Foo") == None;
  }

  /** A relationship record without a Type attribute is not a notes record. */
  lemma RecordWithoutType(target: string)
    ensures !IsNotesRel(map["Target" := target])
    ensures NotesRef(map["Target" := target]) == None
  {
    assert !StartsWith("", "notesSlide");
  }

  /** A slide linked to notes index 0 shows no notes, even when notes 0 exist. */
  lemma ZeroLinkHidden(text: string)
    ensures NotesFor(1, map[0 := text], map[1 := 0]) == None
  {
  }

  // ---------------------------------------------------------------------
  // A whole deck: slide n with a 32-point "Intro" and an 18-point
  // "Welcome to the deck", notes n reading "Remember to smile", and the
  // relationships of slide n pointing at notes n through a record whose
  // Type ends in "notesSlide", as the package writer's namespace URI does.

  function DeckSlide(n: int): string {
    SlidePrefix + IntToString(n) + ".xml"
  }

  function DeckNotes(n: int): string {
    NotesPrefix + IntToString(n) + ".xml"
  }

  function DeckRels(n: int): string {
    RelsPrefix + IntToString(n) + ".xml.rels"
  }

  function DeckTarget(n: int): string {
    "../notesSlides/" + "notesSlide" + IntToString(n) + ".xml"
  }

  const IntroRun := Run(Some(map["sz" := "3200"]), Some(Some("Intro")))
  const WelcomeRun := Run(Some(map["sz" := "1800"]), Some(Some("Welcome to the deck")))
  const SmileRun := Run(Some(map["lang" := "en-US"]), Some(Some("Remember to smile")))

  function NotesRecord(n: int, typePrefix: string): Attrs {
    map["Type" := typePrefix + "notesSlide", "Target" := DeckTarget(n)]
  }

  function Deck(n: int, typePrefix: string): Package {
    Package(true, [DeckRels(n), DeckSlide(n), DeckNotes(n)], map[
      DeckRels(n) := Parsed([], [NotesRecord(n, typePrefix)]),
      DeckSlide(n) := Parsed([[IntroRun, WelcomeRun]], []),
      DeckNotes(n) := Parsed([[SmileRun]], [])])
  }

  function DeckState(n: int): State {
    State(map[n := Slide("Intro", "Welcome to the deck")], map[n := "Remember to smile"], map[n := n])
  }

  /** What `display_content` prints for the deck: the notes only when the link is not to 0. */
  function DeckLines(n: int): seq<string> {
    ["Slides Content:", "Slide number: " + IntToString(n), "  Title: Intro", "  Description: Welcome to the deck"]
    + (if n != 0 then ["  Notes: Remember to smile"] else [])
    + [""]
  }

  /** Each entry name is picked by its own filter only, and gives index n. */
  lemma DeckSlideName(n: int)
    ensures IsSlideName(DeckSlide(n)) && !IsNotesName(DeckSlide(n)) && !IsRelsName(DeckSlide(n))
    ensures IndexFromName(DeckSlide(n), "slide", ".xml") == Ok(n)
  {
    SlideIndexRoundTrip(n);
    var name := DeckSlide(n);
    assert name[4] == SlidePrefix[4] != NotesPrefix[4];
    assert name[11] == SlidePrefix[11] != RelsPrefix[11];
  }

  lemma DeckNotesName(n: int)
    ensures IsNotesName(DeckNotes(n)) && !IsSlideName(DeckNotes(n)) && !IsRelsName(DeckNotes(n))
    ensures IndexFromName(DeckNotes(n), "notesSlide", ".xml") == Ok(n)
  {
    NotesIndexRoundTrip(n);
    var name := DeckNotes(n);
    assert name[4] == NotesPrefix[4] != SlidePrefix[4];
    assert NotesPrefix[4] != RelsPrefix[4];
  }

  lemma DeckRelsName(n: int)
    ensures IsRelsName(DeckRels(n)) && !IsSlideName(DeckRels(n)) && !IsNotesName(DeckRels(n))
    ensures RelsSlideIndex(DeckRels(n)) == Ok(n)
  {
    RelsIndexRoundTrip(n);
    var name := DeckRels(n);
    assert name[11] == RelsPrefix[11] != SlidePrefix[11];
    assert name[4] == RelsPrefix[4] != NotesPrefix[4];
  }

  /** Filtering three names keeps those that pass, in listing order. */
  lemma FilterThree(r: string, s: string, t: string, keep: string -> bool)
    ensures Filter([r, s, t], keep)
         == (if keep(r) then [r] else []) + (if keep(s) then [s] else []) + (if keep(t) then [t] else [])
  {
    assert [r, s, t] == [r] + [s] + [t];
    FilterAppend([r] + [s], [t], keep);
    FilterAppend([r], [s], keep);
    FilterOne(r, keep);
    FilterOne(s, keep);
    FilterOne(t, keep);
  }

  /** Each filter keeps one entry of the deck, and the three entry names differ. */
  lemma DeckFilters(n: int, typePrefix: string)
    ensures Filter(Deck(n, typePrefix).names, IsRelsName) == [DeckRels(n)]
    ensures Filter(Deck(n, typePrefix).names, IsSlideName) == [DeckSlide(n)]
    ensures Filter(Deck(n, typePrefix).names, IsNotesName) == [DeckNotes(n)]
    ensures DeckRels(n) != DeckSlide(n) && DeckRels(n) != DeckNotes(n) && DeckSlide(n) != DeckNotes(n)
  {
    var r, s, t := DeckRels(n), DeckSlide(n), DeckNotes(n);
    DeckSlideName(n);
    DeckNotesName(n);
    DeckRelsName(n);
    FilterThree(r, s, t, IsRelsName);
    FilterThree(r, s, t, IsSlideName);
    FilterThree(r, s, t, IsNotesName);
  }

  /** The relationship record is a notes record whose Target is notes n. */
  lemma DeckRecord(n: int, typePrefix: string)
    ensures NotesRef(NotesRecord(n, typePrefix)) == Some(Ok(n))
  {
    ContainsAtEnd(typePrefix, "notesSlide");
    NotesNameParts();
    assert NameParts("../notesSlides/", "notesSlide", ".xml");
    IndexRoundTrip("../notesSlides/", "notesSlide", n, ".xml");
  }

  /** The deck lists an entry for each of its names. */
  lemma DeckParts(n: int, typePrefix: string)
    ensures Deck(n, typePrefix).Valid()
    ensures Deck(n, typePrefix).parts[DeckRels(n)] == Parsed([], [NotesRecord(n, typePrefix)])
    ensures Deck(n, typePrefix).parts[DeckSlide(n)] == Parsed([[IntroRun, WelcomeRun]], [])
    ensures Deck(n, typePrefix).parts[DeckNotes(n)] == Parsed([[SmileRun]], [])
  {
    DeckFilters(n, typePrefix);
  }

  /** A single notes record links slide `k` to the notes it targets. */
  lemma LinkOne(k: int, rec: Attrs, target: int)
    requires NotesRef(rec) == Some(Ok(target))
    ensures LinkRecords(map[], Ok(k), NotesRefs([rec])) == Progress(map[k := target], None)
  {
    var recs := [rec];
    assert recs[..0] == [];
    var refs := [NotesRef(rec)];
    assert refs[..0] == [];
  }

  /** Reading a single relationships entry. */
  lemma LinkFilesOne(links: map<int, int>, f: string, pkg: Package)
    requires f in pkg.parts
    ensures LinkFiles(links, [f], pkg) == LinkEntry(links, f, pkg.parts[f])
  {
    var files := [f];
    assert files[..0] == [];
  }

  /** `parse_slide_relationships` links slide n to notes n. */
  lemma DeckLinks(n: int, typePrefix: string)
    ensures Deck(n, typePrefix).Valid()
    ensures LinkFiles(map[], [DeckRels(n)], Deck(n, typePrefix)) == Progress(map[n := n], None)
  {
    var pkg := Deck(n, typePrefix);
    var rec := NotesRecord(n, typePrefix);
    DeckParts(n, typePrefix);
    DeckRelsName(n);
    DeckRecord(n, typePrefix);
    LinkOne(n, rec, n);
    LinkFilesOne(map[], DeckRels(n), pkg);
  }

  lemma DeckSizes()
    ensures ParseInt("3200") == Some(3200) && ParseInt("1800") == Some(1800)
  {
    assert DecimalValue("3200") == Some(3200) by {
      assert "3200"[..3] == "320" && "320"[..2] == "32" && "32"[..1] == "3";
    }
    assert DecimalValue("1800") == Some(1800) by {
      assert "1800"[..3] == "180" && "180"[..2] == "18" && "18"[..1] == "1";
    }
    ParseDigits("3200", 3200);
    ParseDigits("1800", 1800);
  }

  /** The 32-point run is title text, the 18-point run description text. */
  lemma DeckRuns()
    ensures PlaceRun(IntroRun) == Ok(ToTitle("Intro"))
    ensures PlaceRun(WelcomeRun) == Ok(ToDescription("Welcome to the deck"))
  {
    DeckSizes();
    StripSpec("Intro");
    StripSpec("Welcome to the deck");
  }

  /** A single paragraph flattens to its own runs. */
  lemma FlattenOne(p: Paragraph)
    ensures Flatten([p]) == p
  {
    var ps: seq<Paragraph> := [p];
    assert ps[..0] == [];
  }

  /** Two runs are placed one after the other. */
  lemma PlacementsTwo(a: Run, b: Run)
    ensures Placements([a, b]) == [PlaceRun(a), PlaceRun(b)]
  {
    PlacementsSnoc([], a);
    PlacementsSnoc([a], b);
    assert [a] + [b] == [a, b];
  }

  /** The two runs of the slide are placed as title and description text. */
  lemma DeckPlacements()
    ensures Placements(Flatten([[IntroRun, WelcomeRun]])) == [Ok(ToTitle("Intro")), Ok(ToDescription("Welcome to the deck"))]
  {
    FlattenOne([IntroRun, WelcomeRun]);
    PlacementsTwo(IntroRun, WelcomeRun);
    DeckRuns();
  }

  /** No run raised; "Intro" is the one title text and "Welcome to the deck" the one description text. */
  lemma DeckStreams()
    ensures var placed: seq<Placed> := [Ok(ToTitle("Intro")), Ok(ToDescription("Welcome to the deck"))];
      FirstError(placed) == None && TitleTexts(placed) == ["Intro"] && DescriptionTexts(placed) == ["Welcome to the deck"]
  {
    var title, description: Placed := Ok(ToTitle("Intro")), Ok(ToDescription("Welcome to the deck"));
    var placed := [title, description];
    FirstErrorSpec(placed);
    StreamsSnoc([], title);
    StreamsSnoc([title], description);
    assert [title] + [description] == placed;
  }

  lemma IntroTitle()
    ensures Strip(Suffixed(["Intro"])) == "Intro"
  {
    StripSpec("Intro");
    StrippedTitleIsJoin(["Intro"]);
  }

  /** `parse_slide` gives slide n the title "Intro" and the description "Welcome to the deck". */
  lemma DeckSlideEntry(n: int)
    ensures SlideEntry(DeckSlide(n), Parsed([[IntroRun, WelcomeRun]], [])) == Ok((n, Slide("Intro", "Welcome to the deck")))
  {
    DeckPlacements();
    DeckStreams();
    IntroTitle();
    DeckSlideName(n);
  }

  /** `parse_notes` gives notes n the text "Remember to smile". */
  lemma DeckNotesEntry(n: int)
    ensures NotesEntry(DeckNotes(n), Parsed([[SmileRun]], [])) == Ok((n, "Remember to smile"))
  {
    var runs: Paragraph := [SmileRun];
    var ps: seq<Paragraph> := [runs];
    assert Flatten(ps) == runs by {
      assert ps[..0] == [];
    }
    assert !HasEmptyText(runs) && NoteTexts(runs) == ["Remember to smile"] by {
      NoteTextsEveryRun(runs);
      StripSpec("Remember to smile");
    }
    assert IndexFromName(DeckNotes(n), "notesSlide", ".xml") == Ok(n) by {
      DeckNotesName(n);
    }
  }

  /** Parsing a single entry gives a single result. */
  lemma EntriesOne<T>(f: string, parts: map<string, Part>, parse: (string, Part) -> Result<(int, T), Error>)
    requires f in parts
    ensures Entries([f], parts, parse) == [parse(f, parts[f])]
  {
    var files := [f];
    assert files[..0] == [];
  }

  /** Storing a single parsed entry adds its key. */
  lemma StoreOk<T>(m: map<int, T>, k: int, v: T)
    ensures Store(m, [Ok((k, v))]) == Progress(m[k := v], None)
  {
    var rs: seq<Result<(int, T), Error>> := [Ok((k, v))];
    assert rs[..0] == [];
  }

  /** The slide loop stores slide n. */
  lemma DeckSlides(n: int, typePrefix: string)
    ensures Deck(n, typePrefix).Valid()
    ensures Store(map[], Entries([DeckSlide(n)], Deck(n, typePrefix).parts, SlideEntry))
         == Progress(map[n := Slide("Intro", "Welcome to the deck")], None)
  {
    var pkg := Deck(n, typePrefix);
    DeckParts(n, typePrefix);
    EntriesOne(DeckSlide(n), pkg.parts, SlideEntry);
    DeckSlideEntry(n);
    StoreOk(map[], n, Slide("Intro", "Welcome to the deck"));
  }

  /** The notes loop stores notes n. */
  lemma DeckNotesStored(n: int, typePrefix: string)
    ensures Deck(n, typePrefix).Valid()
    ensures Store(map[], Entries([DeckNotes(n)], Deck(n, typePrefix).parts, NotesEntry))
         == Progress(map[n := "Remember to smile"], None)
  {
    var pkg := Deck(n, typePrefix);
    DeckParts(n, typePrefix);
    EntriesOne(DeckNotes(n), pkg.parts, NotesEntry);
    DeckNotesEntry(n);
    StoreOk(map[], n, "Remember to smile");
  }

  /** `extract_content` on the deck stores slide n, notes n and the link from n to n, and raises nothing. */
  lemma DeckExtract(n: int, typePrefix: string)
    ensures Deck(n, typePrefix).Valid()
    ensures Extract(State(map[], map[], map[]), Deck(n, typePrefix)) == Progress(DeckState(n), None)
  {
    DeckFilters(n, typePrefix);
    DeckLinks(n, typePrefix);
    DeckSlides(n, typePrefix);
    DeckNotesStored(n, typePrefix);
  }

  /** The only slide of the deck is the only one shown. */
  lemma SortedOne(n: int)
    ensures SortedKeys({n}) == [n]
  {
    SortedKeysFirst({n}, n);
    assert {n} - {n} == {};
  }

  /** A single slide prints a single block. */
  lemma BlocksOne(k: int, slides: map<int, Slide>, notes: map<int, string>, links: map<int, int>)
    requires k in slides
    ensures Blocks([k], slides, notes, links) == SlideLines(k, slides[k], NotesFor(k, notes, links))
  {
    var ks := [k];
    assert ks[..0] == [];
  }

  /** The title, description and notes lines of the deck. */
  lemma DeckLineTexts()
    ensures TitleLine(Slide("Intro", "Welcome to the deck")) == "  Title: Intro"
    ensures DescriptionLine(Slide("Intro", "Welcome to the deck")) == "  Description: Welcome to the deck"
    ensures NotesLine("Remember to smile") == "  Notes: Remember to smile"
  {
  }

  /** The lines of the deck's slide, its notes shown unless n is 0. */
  lemma DeckSlideLines(n: int)
    ensures SlideLines(n, Slide("Intro", "Welcome to the deck"), if n != 0 then Some("Remember to smile") else None)
      == ["Slide number: " + IntToString(n), "  Title: Intro", "  Description: Welcome to the deck"]
         + (if n != 0 then ["  Notes: Remember to smile"] else []) + [""]
  {
    DeckLineTexts();
  }

  /** The block of slide n, its notes shown unless n is 0. */
  lemma DeckBlock(n: int)
    ensures var st := DeckState(n);
      Blocks([n], st.slides, st.notes, st.links)
      == ["Slide number: " + IntToString(n), "  Title: Intro", "  Description: Welcome to the deck"]
         + (if n != 0 then ["  Notes: Remember to smile"] else []) + [""]
  {
    var st := DeckState(n);
    BlocksOne(n, st.slides, st.notes, st.links);
    assert NotesFor(n, st.notes, st.links) == if n != 0 then Some("Remember to smile") else None;
    DeckSlideLines(n);
  }

  /** `display_content` on the stored deck prints the one slide block, with its notes unless n is 0. */
  lemma DeckReport(n: int)
    ensures Report(DeckState(n).slides, DeckState(n).notes, DeckState(n).links) == DeckLines(n)
  {
    var st := DeckState(n);
    assert st.slides.Keys == {n};
    SortedOne(n);
    DeckBlock(n);
  }

  /**
   * The class on the deck: a new extractor, `extract_content`, then
   * `display_content`, prints slide n with its title, description and notes.
   */
  method DeckContent(n: int, typePrefix: string) returns (failure: Option<Error>, lines: seq<string>)
    ensures failure == None && lines == DeckLines(n)
  {
    var extractor := new PowerPointXmlExtractor();
    DeckExtract(n, typePrefix);
    failure := extractor.ExtractContent(Deck(n, typePrefix));
    lines := extractor.DisplayContent();
    DeckReport(n);
  }
}
