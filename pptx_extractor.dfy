/**
 * `PowerPointXMLExtractor`: an object holding three dictionaries that its
 * parsing methods fill in place, and a display method that reads them.
 * A Python exception ends a method early; here the method returns the
 * `Error` instead, with the dictionaries as the exception leaves them.
 */
module PptxExtractor {
  import opened Wrappers
  import opened PyStr
  import opened SortedSets
  import opened PptxParts
  import opened PptxReport

  class PowerPointXmlExtractor {
    /** `self.slides`: slide index to its title and description. */
    var slides: map<int, Slide>
    /** `self.notes_text`: notes index to the joined notes text. */
    var notesText: map<int, string>
    /** `self.slide_to_notes`: slide index to notes index. */
    var slideToNotes: map<int, int>

    /** `__init__`: all three dictionaries start empty. */
    constructor ()
      ensures slides == map[] && notesText == map[] && slideToNotes == map[]
    {
      slides := map[];
      notesText := map[];
      slideToNotes := map[];
    }

    /** The three dictionaries as one value. */
    function Contents(): State
      reads this
    {
      State(slides, notesText, slideToNotes)
    }

    /**
     * `parse_slide(slide_content, slide_file)`: walks the runs of every
     * paragraph, building the title and the description list, then stores
     * the slide under the index parsed from its name. Nothing is stored
     * when it raises.
     */
    method ParseSlide(part: Part, name: string) returns (failure: Option<Error>)
      modifies this`slides
      ensures Progress(slides, failure) == StoreOne(old(slides), SlideEntry(name, part))
    {
      match part
      case Unparsable =>
        return Some(MalformedMarkup(name));
      case Parsed(paragraphs, _) =>
        var title := "";
        var description: seq<string> := [];
        ghost var placed: seq<Placed> := [];
        for i := 0 to |paragraphs|
          invariant placed == Placements(Flatten(paragraphs[..i]))
          invariant FirstError(placed).None?
          invariant title == Suffixed(TitleTexts(placed))
          invariant description == DescriptionTexts(placed)
          invariant slides == old(slides)
        {
          var p := paragraphs[i];
          ghost var before := Flatten(paragraphs[..i]);
          assert before + p[..0] == before;
          for j := 0 to |p|
            invariant placed == Placements(before + p[..j])
            invariant FirstError(placed).None?
            invariant title == Suffixed(TitleTexts(placed))
            invariant description == DescriptionTexts(placed)
            invariant slides == old(slides)
          {
            var run := p[j];
            var step := ReadRun(run);
            SeenSnoc(before, p, j);
            PlacementsSnoc(before + p[..j], run);
            StreamsSnoc(placed, step);
            FirstErrorSnoc(placed, step);
            match step {
              case Err(e) =>
                RunErrorIsFirst(paragraphs, i, j, placed);
                return Some(e);
              case Ok(ToTitle(text)) =>
                SuffixedSnoc(TitleTexts(placed), text);
                title := title + text + " ";
              case Ok(ToDescription(text)) =>
                description := description + [text];
              case Ok(Skip) =>
            }
            placed := placed + [step];
          }
          assert p[..|p|] == p;
          assert paragraphs[..i + 1][..i] == paragraphs[..i];
        }
        assert paragraphs[..|paragraphs|] == paragraphs;
        var slideNumber := IndexFromName(name, "slide", ".xml");
        if slideNumber.Err? {
          return Some(slideNumber.error);
        }
        slides := slides[slideNumber.value := Slide(Strip(title), Join(description))];
        return None;
    }

    /**
     * The body of the run loop of `parse_slide`: a run with both `a:rPr`
     * and `a:t` is read, its `sz` converted by `int()` and its text
     * stripped; the title threshold decides where the text goes.
     */
    method ReadRun(run: Run) returns (step: Placed)
      ensures step == PlaceRun(run)
    {
      if run.t.None? || run.rPr.None? {
        return Ok(Skip);
      }
      var textSize := SizeAttr(run.rPr.value);
      var size := if textSize == "" then None else ParseInt(textSize);
      if textSize != "" && size.None? {
        return Err(MalformedSize(textSize));
      }
      if run.t.value.None? {
        return Err(MissingText);
      }
      var text := Strip(run.t.value.value);
      if size.Some? && size.value >= TitleSize {
        return Ok(ToTitle(text));
      }
      return Ok(ToDescription(text));
    }

    /**
     * `parse_notes(notes_content, notes_file)`: the stripped text of every
     * `a:t` of every run, joined by spaces, stored under the index parsed
     * from the name. Nothing is stored when it raises.
     */
    method ParseNotes(part: Part, name: string) returns (failure: Option<Error>)
      modifies this`notesText
      ensures Progress(notesText, failure) == StoreOne(old(notesText), NotesEntry(name, part))
    {
      match part
      case Unparsable =>
        return Some(MalformedMarkup(name));
      case Parsed(paragraphs, _) =>
        var runs := Flatten(paragraphs);
        var texts: seq<string> := [];
        for i := 0 to |runs|
          invariant !HasEmptyText(runs[..i])
          invariant texts == NoteTexts(runs[..i])
          invariant notesText == old(notesText)
        {
          assert runs[..i + 1] == runs[..i] + [runs[i]];
          NoteTextsSnoc(runs[..i], runs[i]);
          var t := runs[i].t;
          if t.Some? {
            if t.value.None? {
              EmptyTextInPrefix(runs, i + 1);
              return Some(MissingText);
            }
            texts := texts + [Strip(t.value.value)];
          }
        }
        assert runs[..|runs|] == runs;
        var notesNumber := IndexFromName(name, "notesSlide", ".xml");
        if notesNumber.Err? {
          return Some(notesNumber.error);
        }
        notesText := notesText[notesNumber.value := Join(texts)];
        return None;
    }

    /**
     * `parse_slide_relationships(pptx_zip)`: for every notes record of
     * every relationships entry, links the entry's slide index to the
     * record's notes index. Links made before an exception stay.
     */
    method ParseSlideRelationships(pkg: Package) returns (failure: Option<Error>)
      requires pkg.Valid()
      modifies this`slideToNotes
      ensures var p := LinkFiles(old(slideToNotes), Filter(pkg.names, IsRelsName), pkg);
              slideToNotes == p.value && failure == p.failure
    {
      failure := LinkRelsFiles(Filter(pkg.names, IsRelsName), pkg);
    }

    /** The entry loop of `parse_slide_relationships`, over the relationships entries `relsFiles`. */
    method LinkRelsFiles(relsFiles: seq<string>, pkg: Package) returns (failure: Option<Error>)
      requires forall f :: f in relsFiles ==> f in pkg.parts
      modifies this`slideToNotes
      ensures var p := LinkFiles(old(slideToNotes), relsFiles, pkg);
              slideToNotes == p.value && failure == p.failure
    {
      for i := 0 to |relsFiles|
        invariant LinkFiles(old(slideToNotes), relsFiles[..i], pkg) == Progress(slideToNotes, None)
      {
        LinkFilesStep(old(slideToNotes), relsFiles, i, pkg);
        failure := LinkRelsFile(relsFiles[i], pkg.parts[relsFiles[i]]);
        if failure.Some? {
          LinkFilesSticks(old(slideToNotes), relsFiles, pkg, i + 1);
          return;
        }
      }
      assert relsFiles[..|relsFiles|] == relsFiles;
      return None;
    }

    /** The body of the entry loop of `parse_slide_relationships`, for the entry `relsFile`. */
    method LinkRelsFile(relsFile: string, part: Part) returns (failure: Option<Error>)
      modifies this`slideToNotes
      ensures Progress(slideToNotes, failure) == LinkEntry(old(slideToNotes), relsFile, part)
    {
      match part {
        case Unparsable =>
          failure := Some(MalformedMarkup(relsFile));
        case Parsed(_, recs) =>
          failure := LinkRecordsOf(relsFile, recs);
      }
    }

    /** The record loop of `parse_slide_relationships` for the entry `relsFile`. */
    method LinkRecordsOf(relsFile: string, recs: seq<Attrs>) returns (failure: Option<Error>)
      modifies this`slideToNotes
      ensures var p := LinkRecords(old(slideToNotes), RelsSlideIndex(relsFile), NotesRefs(recs));
              slideToNotes == p.value && failure == p.failure
    {
      for j := 0 to |recs|
        invariant LinkRecords(old(slideToNotes), RelsSlideIndex(relsFile), NotesRefs(recs[..j])) == Progress(slideToNotes, None)
      {
        var rel := recs[j];
        assert recs[..j + 1] == recs[..j] + [rel];
        NotesRefsSnoc(recs[..j], rel);
        LinkRecordsSnoc(old(slideToNotes), RelsSlideIndex(relsFile), NotesRefs(recs[..j]), NotesRef(rel));
        failure := LinkRelationship(relsFile, rel);
        if failure.Some? {
          LinkRecordsSticksOn(old(slideToNotes), RelsSlideIndex(relsFile), recs, j + 1);
          return;
        }
      }
      assert recs[..|recs|] == recs;
      return None;
    }

    /**
     * One record of a relationships entry: a notes record links the
     * entry's slide index to the index of its Target. The slide index is
     * parsed first, then the Target is looked up and parsed.
     */
    method LinkRelationship(relsFile: string, rel: Attrs) returns (failure: Option<Error>)
      modifies this`slideToNotes
      ensures var p := LinkRecord(old(slideToNotes), RelsSlideIndex(relsFile), NotesRef(rel));
              slideToNotes == p.value && failure == p.failure
    {
      if IsNotesRel(rel) {
        var slideNumber := RelsSlideIndex(relsFile);
        if slideNumber.Err? {
          return Some(slideNumber.error);
        }
        if "Target" !in rel {
          return Some(MissingTarget);
        }
        var notesNumber := IndexFromName(rel["Target"], "notesSlide", ".xml");
        if notesNumber.Err? {
          return Some(notesNumber.error);
        }
        slideToNotes := slideToNotes[slideNumber.value := notesNumber.value];
      }
      return None;
    }

    /**
     * `extract_content()`: refuses a file that is not a ZIP archive, then
     * reads the relationships, the slides and the notes, each in the
     * archive's order; the first exception ends the extraction.
     */
    method ExtractContent(pkg: Package) returns (failure: Option<Error>)
      requires pkg.Valid()
      modifies this
      ensures var p := Extract(old(Contents()), pkg); Contents() == p.value && failure == p.failure
    {
      if !pkg.isZip {
        return Some(NotAZip);
      }
      failure := ParseSlideRelationships(pkg);
      if failure.Some? {
        return;
      }
      failure := ExtractSlides(Filter(pkg.names, IsSlideName), pkg);
      if failure.Some? {
        return;
      }
      failure := ExtractNotes(Filter(pkg.names, IsNotesName), pkg);
    }

    /** The slide loop of `extract_content`: `parse_slide` for each slide entry, in order. */
    method ExtractSlides(slideFiles: seq<string>, pkg: Package) returns (failure: Option<Error>)
      requires forall f :: f in slideFiles ==> f in pkg.parts
      modifies this`slides
      ensures var p := Store(old(slides), Entries(slideFiles, pkg.parts, SlideEntry));
              slides == p.value && failure == p.failure
    {
      for i := 0 to |slideFiles|
        invariant Store(old(slides), Entries(slideFiles[..i], pkg.parts, SlideEntry)) == Progress(slides, None)
      {
        StoreEntriesStep(old(slides), slideFiles, i, pkg.parts, SlideEntry);
        failure := ParseSlide(pkg.parts[slideFiles[i]], slideFiles[i]);
        if failure.Some? {
          StoreEntriesSticks(old(slides), slideFiles, i + 1, pkg.parts, SlideEntry);
          return;
        }
      }
      assert slideFiles[..|slideFiles|] == slideFiles;
      return None;
    }

    /** The notes loop of `extract_content`: `parse_notes` for each notes entry, in order. */
    method ExtractNotes(notesFiles: seq<string>, pkg: Package) returns (failure: Option<Error>)
      requires forall f :: f in notesFiles ==> f in pkg.parts
      modifies this`notesText
      ensures var p := Store(old(notesText), Entries(notesFiles, pkg.parts, NotesEntry));
              notesText == p.value && failure == p.failure
    {
      for i := 0 to |notesFiles|
        invariant Store(old(notesText), Entries(notesFiles[..i], pkg.parts, NotesEntry)) == Progress(notesText, None)
      {
        StoreEntriesStep(old(notesText), notesFiles, i, pkg.parts, NotesEntry);
        failure := ParseNotes(pkg.parts[notesFiles[i]], notesFiles[i]);
        if failure.Some? {
          StoreEntriesSticks(old(notesText), notesFiles, i + 1, pkg.parts, NotesEntry);
          return;
        }
      }
      assert notesFiles[..|notesFiles|] == notesFiles;
      return None;
    }

    /**
     * `display_content()`: the lines it prints. The slides are visited in
     * ascending index order by taking the least index not yet shown.
     */
    method DisplayContent() returns (lines: seq<string>)
      ensures lines == Report(slides, notesText, slideToNotes)
    {
      lines := [Heading];
      var remaining := slides.Keys;
      ghost var shown: seq<int> := [];
      while remaining != {}
        invariant remaining <= slides.Keys
        invariant forall k :: k in shown ==> k in slides
        invariant shown + SortedKeys(remaining) == SortedKeys(slides.Keys)
        invariant lines == [Heading] + Blocks(shown, slides, notesText, slideToNotes)
        decreases |remaining|
      {
        MinExists(remaining);
        var slideNumber :| slideNumber in remaining && forall x :: x in remaining ==> slideNumber <= x;
        var slide := slides[slideNumber];
        var block := [HeadingOf(slideNumber), TitleLine(slide), DescriptionLine(slide)];
        var notesNumber := if slideNumber in slideToNotes then Some(slideToNotes[slideNumber]) else None;
        if notesNumber.Some? && notesNumber.value != 0 && notesNumber.value in notesText {
          block := block + [NotesLine(notesText[notesNumber.value])];
        }
        block := block + [""];
        BlockLines(slideNumber, slide, NotesFor(slideNumber, notesText, slideToNotes), block);
        DisplayStep(lines, shown, slideNumber, slides, notesText, slideToNotes);
        lines := lines + block;
        SortedStep(shown, remaining, slideNumber);
        shown := shown + [slideNumber];
        remaining := remaining - {slideNumber};
      }
      assert shown == SortedKeys(slides.Keys);
    }
  }

  /** Placing one more run appends its placement. */
  lemma PlacementsSnoc(runs: seq<Run>, run: Run)
    ensures Placements(runs + [run]) == Placements(runs) + [PlaceRun(run)]
  {
    assert (runs + [run])[..|runs|] == runs;
  }

  /** The runs seen grow by the next run of the paragraph. */
  lemma SeenSnoc(before: seq<Run>, p: Paragraph, j: int)
    requires 0 <= j < |p|
    ensures before + p[..j + 1] == (before + p[..j]) + [p[j]]
  {
    assert p[..j + 1] == p[..j] + [p[j]];
  }

  /**
   * The error of run `j` of paragraph `i` is the first error of the slide
   * when every run before it placed without one.
   */
  lemma RunErrorIsFirst(ps: seq<Paragraph>, i: int, j: int, placed: seq<Placed>)
    requires 0 <= i < |ps| && 0 <= j < |ps[i]|
    requires placed == Placements(Flatten(ps[..i]) + ps[i][..j]) && FirstError(placed).None?
    requires PlaceRun(ps[i][j]).Err?
    ensures FirstError(Placements(Flatten(ps))) == Some(PlaceRun(ps[i][j]).error)
  {
    FlattenPrefix(ps, i, j);
    FirstErrorSpec(placed);
    PlacementsSpec(Flatten(ps));
    PlacementsSpec(Flatten(ps[..i]) + ps[i][..j]);
    var all := Placements(Flatten(ps));
    var n := |placed|;
    assert forall m :: 0 <= m < n ==> all[m] == placed[m];
    FirstErrorAt(all, n);
  }

  /** Printing one more slide's lines extends the report by that slide's block. */
  lemma DisplayStep(lines: seq<string>, shown: seq<int>, k: int, slides: map<int, Slide>, notes: map<int, string>, links: map<int, int>)
    requires forall x :: x in shown ==> x in slides
    requires k in slides
    requires lines == [Heading] + Blocks(shown, slides, notes, links)
    ensures lines + SlideLines(k, slides[k], NotesFor(k, notes, links)) == [Heading] + Blocks(shown + [k], slides, notes, links)
  {
    var block := SlideLines(k, slides[k], NotesFor(k, notes, links));
    assert (shown + [k])[..|shown|] == shown;
    assert Blocks(shown + [k], slides, notes, links) == Blocks(shown, slides, notes, links) + block;
    AppendAssoc([Heading], Blocks(shown, slides, notes, links), block);
  }

  /** The lines built for one slide are its block. */
  lemma BlockLines(k: int, s: Slide, n: Option<string>, block: seq<string>)
    requires block == [HeadingOf(k), TitleLine(s), DescriptionLine(s)] + (if n.Some? then [NotesLine(n.value)] else []) + [""]
    ensures block == SlideLines(k, s, n)
  {
  }
}
