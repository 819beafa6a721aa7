/**
 * The text shapes both versions of the paper teacher build: the paper
 * content blob made from the pages of the PDF, the Markdown rendering of the
 * inferred outline, and the flat label list made from the same outline.
 */
module Paper {
  import opened PyBuiltins

  /** One entry of the inferred outline: a section title and its subsection titles, in order. */
  datatype Section = Section(title: string, subsections: seq<string>)

  /**
   * What `PdfReader(path)` yields: either the reader itself raises, or it has
   * pages whose `extract_text()` returns a text (Some) or raises (None).
   */
  datatype PdfFile = Unreadable | Pages(pages: seq<Option<string>>)

  // ---------------------------------------------------------------------
  // Outline rendering

  /** The `"\n" + sub + "\n"` piece written for each subsection, in order. */
  function SubsectionLines(subs: seq<string>): string
  {
    if subs == [] then "" else "\n" + subs[0] + "\n" + SubsectionLines(subs[1..])
  }

  /** The `"## " + title + "\n"` heading of a section. */
  function Heading(title: string): string
  {
    "## " + title + "\n"
  }

  /** A section's heading followed by its subsection lines. */
  function SectionBlock(s: Section): string
  {
    Heading(s.title) + SubsectionLines(s.subsections)
  }

  /** The Markdown outline: every section's block, in outline order. */
  function Render(outline: seq<Section>): (r: string)
    ensures r == "" <==> outline == []
  {
    if outline == [] then "" else SectionBlock(outline[0]) + Render(outline[1..])
  }

  lemma {:induction false} SubsectionLinesAppend(a: seq<string>, b: seq<string>)
    ensures SubsectionLines(a + b) == SubsectionLines(a) + SubsectionLines(b)
  {
    if a == [] {
      assert a + b == b;
    } else {
      assert (a + b)[1..] == a[1..] + b;
      SubsectionLinesAppend(a[1..], b);
    }
  }

  lemma SubsectionLinesSnoc(subs: seq<string>, sub: string)
    ensures SubsectionLines(subs + [sub]) == SubsectionLines(subs) + ("\n" + sub + "\n")
  {
    SubsectionLinesAppend(subs, [sub]);
    assert SubsectionLines([sub]) == "\n" + sub + "\n";
  }

  /** Rendering distributes over concatenation of outlines. */
  lemma {:induction false} RenderAppend(a: seq<Section>, b: seq<Section>)
    ensures Render(a + b) == Render(a) + Render(b)
  {
    if a == [] {
      assert a + b == b;
    } else {
      assert (a + b)[1..] == a[1..] + b;
      RenderAppend(a[1..], b);
    }
  }

  lemma RenderSnoc(outline: seq<Section>, s: Section)
    ensures Render(outline + [s]) == Render(outline) + SectionBlock(s)
  {
    RenderAppend(outline, [s]);
    assert Render([s]) == SectionBlock(s);
  }

  /**
   * Section k's block comes right after the blocks of all earlier sections
   * and right before those of all later ones.
   */
  lemma {:induction false} RenderSectionAt(outline: seq<Section>, k: nat)
    requires k < |outline|
    ensures Render(outline) == Render(outline[..k]) + SectionBlock(outline[k]) + Render(outline[k + 1..])
  {
    assert outline == outline[..k] + outline[k..];
    RenderAppend(outline[..k], outline[k..]);
    assert outline[k..][1..] == outline[k + 1..];
  }

  /** The subsection lines of a section are its subsection titles, each preceded and followed by a newline. */
  lemma {:induction false} SubsectionLineAt(subs: seq<string>, j: nat)
    requires j < |subs|
    ensures SubsectionLines(subs) == SubsectionLines(subs[..j]) + "\n" + subs[j] + "\n" + SubsectionLines(subs[j + 1..])
  {
    assert subs == subs[..j] + subs[j..];
    SubsectionLinesAppend(subs[..j], subs[j..]);
    var rest := subs[j..];
    assert rest[0] == subs[j] && rest[1..] == subs[j + 1..];
    assert SubsectionLines(rest) == "\n" + subs[j] + "\n" + SubsectionLines(subs[j + 1..]);
  }

  // ---------------------------------------------------------------------
  // Outline flattening

  /** Total number of subsection titles in the outline. */
  function SubsectionCount(outline: seq<Section>): nat
  {
    if outline == [] then 0 else |outline[0].subsections| + SubsectionCount(outline[1..])
  }

  /** Each section title followed by its subsection titles, in outline order. */
  function Flatten(outline: seq<Section>): (labels: seq<string>)
    ensures |labels| == |outline| + SubsectionCount(outline)
  {
    if outline == [] then [] else [outline[0].title] + outline[0].subsections + Flatten(outline[1..])
  }

  lemma {:induction false} FlattenAppend(a: seq<Section>, b: seq<Section>)
    ensures Flatten(a + b) == Flatten(a) + Flatten(b)
  {
    if a == [] {
      assert a + b == b;
    } else {
      assert (a + b)[1..] == a[1..] + b;
      FlattenAppend(a[1..], b);
    }
  }

  /**
   * In the flat list, section k's title sits at index k plus the number of
   * subsections of the sections before it, and its own subsections follow it.
   */
  lemma {:induction false} FlattenSectionAt(outline: seq<Section>, k: nat)
    requires k < |outline|
    ensures var p := k + SubsectionCount(outline[..k]);
      var subs := outline[k].subsections;
      p + 1 + |subs| <= |Flatten(outline)| &&
      Flatten(outline)[p] == outline[k].title &&
      Flatten(outline)[p + 1..p + 1 + |subs|] == subs
  {
    assert outline == outline[..k] + outline[k..];
    FlattenAppend(outline[..k], outline[k..]);
    assert outline[k..][1..] == outline[k + 1..];
    var block := [outline[k].title] + outline[k].subsections;
    assert Flatten(outline) == Flatten(outline[..k]) + block + Flatten(outline[k + 1..]);
  }

  // ---------------------------------------------------------------------
  // Paper content

  /** The pages' texts joined as `"\n" + page` for each page, in order. */
  function Joined(pages: seq<string>): string
  {
    if pages == [] then "" else "\n" + pages[0] + Joined(pages[1..])
  }

  lemma {:induction false} JoinedAppend(a: seq<string>, b: seq<string>)
    ensures Joined(a + b) == Joined(a) + Joined(b)
  {
    if a == [] {
      assert a + b == b;
    } else {
      assert (a + b)[1..] == a[1..] + b;
      JoinedAppend(a[1..], b);
    }
  }

  lemma JoinedSnoc(pages: seq<string>, page: string)
    ensures Joined(pages + [page]) == Joined(pages) + "\n" + page
  {
    JoinedAppend(pages, [page]);
    assert Joined([page]) == "\n" + page;
  }

  /** Page k's text follows the text of all earlier pages, after a newline. */
  lemma {:induction false} JoinedPageAt(pages: seq<string>, k: nat)
    requires k < |pages|
    ensures Joined(pages) == Joined(pages[..k]) + "\n" + pages[k] + Joined(pages[k + 1..])
  {
    assert pages == pages[..k] + pages[k..];
    JoinedAppend(pages[..k], pages[k..]);
    assert pages[k..][1..] == pages[k + 1..];
  }

  /** Every page's text, or None as soon as one page's extraction raises. */
  function PageTexts(pages: seq<Option<string>>): (r: Option<seq<string>>)
    ensures r.Some? <==> forall k :: 0 <= k < |pages| ==> pages[k].Some?
    ensures r.Some? ==> |r.value| == |pages| && forall k :: 0 <= k < |pages| ==> r.value[k] == pages[k].value
  {
    if pages == [] then Some([])
    else if pages[0].None? then None
    else
      match PageTexts(pages[1..])
      case None => None
      case Some(rest) => Some([pages[0].value] + rest)
  }

  /** The fixed text of the prompt template before and after `{paper}`. */
  const Preamble: string := "Here is the content of the paper you will be focusing on today. \n        Please read the paper \n        "
  const Postamble: string := "\n        "

  /** `paper_prompt.format(paper=pages)`. */
  function PaperPrompt(pages: string): (r: string)
    ensures |r| == |Preamble| + |pages| + |Postamble|
    ensures r[..|Preamble|] == Preamble
    ensures r[|Preamble|..|Preamble| + |pages|] == pages
    ensures r[|Preamble| + |pages|..] == Postamble
  {
    Preamble + pages + Postamble
  }

  /**
   * The paper content the PDF yields: the template around the joined page
   * texts, or None when the reader or any page's extraction raises.
   */
  function LoadedContent(file: PdfFile): (r: Option<string>)
    ensures r.Some? <==> file.Pages? && forall k :: 0 <= k < |file.pages| ==> file.pages[k].Some?
  {
    if file.Unreadable? then None
    else
      match PageTexts(file.pages)
      case None => None
      case Some(texts) => Some(PaperPrompt(Joined(texts)))
  }
}
