/**
 * What `display_content` prints, as a sequence of lines: a heading, then
 * one block per slide in ascending slide order, each with the slide's
 * number, title, description, its notes when the slide links to a
 * non-zero notes index that has text, and an empty line.
 */
module PptxReport {
  import opened Wrappers
  import opened PyStr
  import opened PptxParts
  import opened SortedSets

  /**
   * `self.slide_to_notes.get(k)` followed by the test
   * `notes_number and notes_number in self.notes_text`: the notes shown
   * under slide `k`, if any.
   */
  function NotesFor(k: int, notes: map<int, string>, links: map<int, int>): Option<string> {
    if k in links && links[k] != 0 && links[k] in notes then Some(notes[links[k]]) else None
  }

  /** The lines printed for one slide: its heading, then its details. */
  function SlideLines(k: int, s: Slide, n: Option<string>): seq<string> {
    [HeadingOf(k)] + Details(s, n)
  }

  /** The title, the description, the notes if shown, and the empty line `print()` writes. */
  function Details(s: Slide, n: Option<string>): seq<string> {
    [TitleLine(s), DescriptionLine(s)]
    + (if n.Some? then [NotesLine(n.value)] else [])
    + [""]
  }

  function TitleLine(s: Slide): string {
    "  Title: " + s.title
  }

  function DescriptionLine(s: Slide): string {
    "  Description: " + s.description
  }

  function NotesLine(text: string): string {
    "  Notes: " + text
  }

  /** The blocks of the slides `keys`, in the order given. */
  function Blocks(keys: seq<int>, slides: map<int, Slide>, notes: map<int, string>, links: map<int, int>): seq<string>
    requires forall k :: k in keys ==> k in slides
  {
    if keys == [] then []
    else
      var k := keys[|keys| - 1];
      Blocks(keys[..|keys| - 1], slides, notes, links) + SlideLines(k, slides[k], NotesFor(k, notes, links))
  }

  const Heading := "Slides Content:"

  /** Everything `display_content` prints, line by line. */
  ghost function Report(slides: map<int, Slide>, notes: map<int, string>, links: map<int, int>): seq<string> {
    SortedKeysSpec(slides.Keys);
    [Heading] + Blocks(SortedKeys(slides.Keys), slides, notes, links)
  }

  // ---------------------------------------------------------------------
  // Reading the slide headings back out of a report

  const NumberLabel := "Slide number: "

  /** The lines that start a slide block, in order. */
  function Headings(lines: seq<string>): (r: seq<string>)
    ensures |r| <= |lines|
  {
    if lines == [] then []
    else
      var last := lines[|lines| - 1];
      Headings(lines[..|lines| - 1]) + if StartsWith(last, NumberLabel) then [last] else []
  }

  lemma {:induction false} HeadingsAppend(a: seq<string>, b: seq<string>)
    ensures Headings(a + b) == Headings(a) + Headings(b)
  {
    if b == [] {
      assert a + b == a;
    } else {
      HeadingsAppend(a, b[..|b| - 1]);
      assert (a + b)[..|a + b| - 1] == a + b[..|b| - 1];
    }
  }

  /** Lines that are empty or indented are not headings. */
  lemma {:induction false} NoHeadings(lines: seq<string>)
    requires forall i :: 0 <= i < |lines| ==> lines[i] == [] || lines[i][0] == ' '
    ensures Headings(lines) == []
  {
    if lines != [] {
      NoHeadings(lines[..|lines| - 1]);
    }
  }

  /** Only the first line of a slide's block is a heading. */
  lemma SlideLinesHeading(k: int, s: Slide, n: Option<string>)
    ensures Headings(SlideLines(k, s, n)) == [HeadingOf(k)]
  {
    var d := Details(s, n);
    assert forall i :: 0 <= i < |d| ==> d[i] == [] || d[i][0] == ' ';
    NoHeadings(d);
    HeadingsAppend([HeadingOf(k)], d);
    assert HeadingOf(k)[..|NumberLabel|] == NumberLabel;
    assert [HeadingOf(k)][..0] == [];
  }

  /** The heading of slide `k`. */
  function HeadingOf(k: int): string {
    NumberLabel + IntToString(k)
  }

  /** The headings of the slides `keys`, in the same order. */
  function HeadingsOf(keys: seq<int>): (r: seq<string>)
    ensures |r| == |keys| && forall i :: 0 <= i < |keys| ==> r[i] == HeadingOf(keys[i])
  {
    if keys == [] then []
    else
      var init := keys[..|keys| - 1];
      assert forall i :: 0 <= i < |init| ==> init[i] == keys[i];
      HeadingsOf(init) + [HeadingOf(keys[|keys| - 1])]
  }

  /** The headings of the blocks are the slide numbers `keys`, in the same order. */
  lemma {:induction false} BlocksHeadings(keys: seq<int>, slides: map<int, Slide>, notes: map<int, string>, links: map<int, int>)
    requires forall k :: k in keys ==> k in slides
    ensures Headings(Blocks(keys, slides, notes, links)) == HeadingsOf(keys)
  {
    if keys != [] {
      var init := keys[..|keys| - 1];
      var k := keys[|keys| - 1];
      BlocksHeadings(init, slides, notes, links);
      HeadingsAppend(Blocks(init, slides, notes, links), SlideLines(k, slides[k], NotesFor(k, notes, links)));
      SlideLinesHeading(k, slides[k], NotesFor(k, notes, links));
    }
  }

  /** Different slide numbers print different headings. */
  lemma HeadingInjective(a: int, b: int)
    requires HeadingOf(a) == HeadingOf(b)
    ensures a == b
  {
    assert IntToString(a) == (NumberLabel + IntToString(a))[|NumberLabel|..];
    assert IntToString(b) == (NumberLabel + IntToString(b))[|NumberLabel|..];
    ParseIntToString(a);
    ParseIntToString(b);
  }

  /**
   * The report has one heading per stored slide and no other: the i-th
   * heading names the i-th smallest slide number.
   */
  lemma ReportHeadings(slides: map<int, Slide>, notes: map<int, string>, links: map<int, int>)
    ensures Headings(Report(slides, notes, links)) == HeadingsOf(SortedKeys(slides.Keys))
  {
    SortedKeysSpec(slides.Keys);
    var ks := SortedKeys(slides.Keys);
    BlocksHeadings(ks, slides, notes, links);
    HeadingsAfterTitle(Blocks(ks, slides, notes, links));
  }

  /** The `Slides Content:` line is not a slide heading. */
  lemma HeadingsAfterTitle(lines: seq<string>)
    ensures Headings([Heading] + lines) == Headings(lines)
  {
    HeadingsAppend([Heading], lines);
    assert [Heading][..0] == [];
    assert Heading[6] != NumberLabel[6];
  }

  /** Each stored slide is announced once, in ascending order: no heading repeats. */
  lemma ReportDistinct(slides: map<int, Slide>, notes: map<int, string>, links: map<int, int>, i: int, j: int)
    requires 0 <= i < j < |Headings(Report(slides, notes, links))|
    ensures Headings(Report(slides, notes, links))[i] != Headings(Report(slides, notes, links))[j]
  {
    ReportHeadings(slides, notes, links);
    SortedKeysSpec(slides.Keys);
    var ks := SortedKeys(slides.Keys);
    assert ks[i] < ks[j];
    if HeadingOf(ks[i]) == HeadingOf(ks[j]) {
      HeadingInjective(ks[i], ks[j]);
    }
  }

  /** A number is among `keys` exactly when its heading is among their headings. */
  lemma HeadingsOfMember(keys: seq<int>, k: int)
    ensures k in keys <==> HeadingOf(k) in HeadingsOf(keys)
  {
    var hs := HeadingsOf(keys);
    if k in keys {
      var p :| 0 <= p < |keys| && keys[p] == k;
      assert hs[p] == HeadingOf(k);
    }
    if HeadingOf(k) in hs {
      var p :| 0 <= p < |hs| && hs[p] == HeadingOf(k);
      HeadingInjective(keys[p], k);
    }
  }

  // ---------------------------------------------------------------------
  // The notes lines of a report

  /** A slide's block holds a notes line for `x` exactly when its notes are shown and are `x`. */
  lemma NotesInSlideLines(k: int, s: Slide, n: Option<string>, x: string)
    ensures NotesLine(x) in SlideLines(k, s, n) <==> n == Some(x)
  {
    var l := NotesLine(x);
    assert l[2] == 'N';
    assert HeadingOf(k)[0] == 'S' && TitleLine(s)[2] == 'T' && DescriptionLine(s)[2] == 'D';
    if n.Some? && l == NotesLine(n.value) {
      assert x == l[|"  Notes: "|..] == n.value;
    }
  }

  /** The blocks of `keys` hold a notes line for `x` exactly when one of those slides shows `x`. */
  lemma {:induction false} BlocksNotes(keys: seq<int>, slides: map<int, Slide>, notes: map<int, string>, links: map<int, int>, x: string)
    requires forall k :: k in keys ==> k in slides
    ensures NotesLine(x) in Blocks(keys, slides, notes, links)
        <==> exists k :: k in keys && NotesFor(k, notes, links) == Some(x)
  {
    if keys != [] {
      var init, k := keys[..|keys| - 1], keys[|keys| - 1];
      assert keys == init + [k];
      BlocksNotes(init, slides, notes, links, x);
      NotesInSlideLines(k, slides[k], NotesFor(k, notes, links), x);
      if exists j :: j in keys && NotesFor(j, notes, links) == Some(x) {
        var j :| j in keys && NotesFor(j, notes, links) == Some(x);
        assert j in init || j == k;
      }
    }
  }

  /**
   * The report prints `  Notes: x` exactly when some stored slide links to
   * a non-zero notes index whose stored text is `x`.
   */
  lemma ReportNotes(slides: map<int, Slide>, notes: map<int, string>, links: map<int, int>, x: string)
    ensures NotesLine(x) in Report(slides, notes, links)
        <==> exists k :: k in slides && k in links && links[k] != 0 && links[k] in notes && notes[links[k]] == x
  {
    SortedKeysSpec(slides.Keys);
    var ks := SortedKeys(slides.Keys);
    BlocksNotes(ks, slides, notes, links, x);
    assert NotesLine(x)[0] != Heading[0];
    assert Report(slides, notes, links) == [Heading] + Blocks(ks, slides, notes, links);
  }

  /** The report announces every stored slide and nothing else. */
  lemma ReportCovers(slides: map<int, Slide>, notes: map<int, string>, links: map<int, int>, k: int)
    ensures |Headings(Report(slides, notes, links))| == |slides|
    ensures k in slides <==> HeadingOf(k) in Headings(Report(slides, notes, links))
  {
    ReportHeadings(slides, notes, links);
    SortedKeysSpec(slides.Keys);
    HeadingsOfMember(SortedKeys(slides.Keys), k);
  }
}
