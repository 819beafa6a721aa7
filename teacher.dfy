/**
 * The current paper teacher (paper_teacher.py): section slicing over the
 * cached paper content, the model call with its one retry, the outline
 * rendering, the page loop that caches the paper content, and the
 * flattening of the outline into the label list used for slicing.
 */
module Teacher {
  import opened PyBuiltins
  import opened Messages
  import opened Paper

  /** The exceptions `get_section_content` can raise. */
  datatype Error =
    | ValueError      // `section_list.index` did not find the label
    | AttributeError  // `self.paper_content` was never assigned

  /** The text `llm_response` returns in place of a reply when both calls raise. */
  const ErrorPrefix: string := "Gemini returned an error: "

  // ---------------------------------------------------------------------
  // Section slicing

  /**
   * `get_section_content(section_name, section_list)` over the object's
   * `paper_content` attribute (None while it was never assigned): the text
   * from the label's first occurrence up to the first occurrence of the
   * label that follows it in the list, with Python's `find` and slice
   * semantics.
   */
  function GetSectionContent(paperContent: Option<string>, sectionName: string, sectionList: seq<string>)
    : (r: Result<string, Error>)
    ensures sectionName !in sectionList ==> r == Failure(ValueError)
    ensures sectionName in sectionList && paperContent.None? ==> r == Failure(AttributeError)
    ensures sectionName in sectionList && paperContent.Some? ==>
      r.Success? && exists lo, hi :: PieceAt(r.value, paperContent.value, lo, hi)
  {
    match IndexOf(sectionList, sectionName)
    case None => Failure(ValueError)
    case Some(i) =>
      var endSection := if i + 1 < |sectionList| then Some(sectionList[i + 1]) else None;
      if paperContent.None? then Failure(AttributeError)
      else
        var text := paperContent.value;
        var startIndex := Find(text, sectionName);
        // `if end_section`: a missing or empty next label means "no end"
        var endIndex := if endSection.Some? && endSection.value != "" then Some(Find(text, endSection.value)) else None;
        Success(Slice(text, startIndex, endIndex))
  }

  /** `list.index` finds the first occurrence: a label absent from `pre` is found right after it. */
  lemma FirstIndexAfter(pre: seq<string>, name: string, post: seq<string>)
    requires name !in pre
    ensures IndexOf(pre + [name] + post, name) == Some(|pre|)
  {
    var xs := pre + [name] + post;
    assert xs[|pre|] == name;
  }

  /** The slice taken for the first occurrence of `name`, which is followed by `post` in the list. */
  lemma SliceAfterFirst(text: string, pre: seq<string>, name: string, post: seq<string>)
    requires name !in pre
    ensures GetSectionContent(Some(text), name, pre + [name] + post)
         == Success(Slice(text, Find(text, name), if post != [] && post[0] != "" then Some(Find(text, post[0])) else None))
  {
    FirstIndexAfter(pre, name, post);
    var xs := pre + [name] + post;
    assert |pre| + 1 < |xs| ==> xs[|pre| + 1] == post[0];
  }

  /**
   * The last label in the list is cut to the end of the text; when it does
   * not occur, `find`'s -1 is taken as an index and only the final
   * character remains.
   */
  lemma LastLabelRunsToEnd(text: string, rest: seq<string>, name: string)
    requires name !in rest
    ensures var a := Find(text, name);
      var r := GetSectionContent(Some(text), name, rest + [name]);
      (a >= 0 ==> r == Success(text[a..])) &&
      (a == -1 ==> r == Success(if text == "" then "" else text[|text| - 1..]))
  {
    var a := Find(text, name);
    SliceAfterFirst(text, rest, name, []);
    assert rest + [name] + [] == rest + [name];
    assert GetSectionContent(Some(text), name, rest + [name]) == Success(Slice(text, a, None));
    if a >= 0 {
      assert OccursAt(text, name, a);
      SliceToEnd(text, a);
    } else if text != "" {
      SliceMinusOne(text);
      assert Slice(text, a, None) == Slice(text, |text| - 1, None);
      SliceToEnd(text, |text| - 1);
    }
  }

  /**
   * With both labels found, the section is the text between their first
   * occurrences, and empty when the next label first occurs before it.
   */
  lemma BothLabelsFound(text: string, pre: seq<string>, name: string, next: string, post: seq<string>)
    requires name !in pre && next != ""
    requires Find(text, name) >= 0 && Find(text, next) >= 0
    ensures var a, b := Find(text, name), Find(text, next);
      GetSectionContent(Some(text), name, pre + [name, next] + post)
        == Success(if a <= b then text[a..b] else "")
  {
    var a, b := Find(text, name), Find(text, next);
    SliceAfterFirst(text, pre, name, [next] + post);
    assert pre + [name] + ([next] + post) == pre + [name, next] + post;
    assert GetSectionContent(Some(text), name, pre + [name, next] + post) == Success(Slice(text, a, Some(b)));
    assert OccursAt(text, name, a) && OccursAt(text, next, b);
    SliceBetween(text, a, b);
  }

  /** A start label that does not occur yields at most the text's final character. */
  lemma MissingStartLabel(text: string, name: string, sectionList: seq<string>)
    requires name in sectionList && Find(text, name) == -1
    ensures var r := GetSectionContent(Some(text), name, sectionList);
      r.Success? && |r.value| <= 1 && (r.value == "" || r.value == text[|text| - 1..])
  {
    var i := IndexOf(sectionList, name).value;
    var post := sectionList[i + 1..];
    SliceAfterFirst(text, sectionList[..i], name, post);
    assert sectionList == sectionList[..i] + [name] + post;
    var stop := if post != [] && post[0] != "" then Some(Find(text, post[0])) else None;
    assert GetSectionContent(Some(text), name, sectionList) == Success(Slice(text, -1, stop));
    if text != "" {
      SliceMinusOne(text);
      assert Slice(text, -1, stop) == "" || Slice(text, -1, stop) == text[|text| - 1..|text|];
    }
  }

  /**
   * A next label that does not occur makes `find` return -1, which as a
   * slice end cuts off the text's final character.
   */
  lemma MissingNextLabel(text: string, pre: seq<string>, name: string, next: string, post: seq<string>)
    requires name !in pre && next != "" && text != ""
    requires Find(text, next) == -1
    ensures var a := Find(text, name);
      GetSectionContent(Some(text), name, pre + [name, next] + post)
        == Success(if a == -1 then "" else text[a..|text| - 1])
  {
    var a := Find(text, name);
    SliceAfterFirst(text, pre, name, [next] + post);
    assert pre + [name] + ([next] + post) == pre + [name, next] + post;
    assert GetSectionContent(Some(text), name, pre + [name, next] + post) == Success(Slice(text, a, Some(-1)));
    SliceMinusOne(text);
    if a >= 0 {
      assert OccursAt(text, name, a);
      assert a < |text|;
      SliceBetween(text, a, |text| - 1);
    }
  }

  /**
   * Only the first occurrence of the label in the list matters, and of the
   * rest of the list only the label right after it.
   */
  lemma FirstDuplicateWins(paperContent: Option<string>, pre: seq<string>, name: string, post: seq<string>)
    requires name !in pre
    ensures GetSectionContent(paperContent, name, pre + [name] + post)
         == GetSectionContent(paperContent, name, [name] + (if post == [] then [] else [post[0]]))
  {
    FirstIndexAfter(pre, name, post);
    FirstIndexAfter([], name, if post == [] then [] else [post[0]]);
    assert [] + [name] + (if post == [] then [] else [post[0]]) == [name] + (if post == [] then [] else [post[0]]);
  }

  /** An empty next label counts as no next label: the section runs to the end. */
  lemma EmptyNextLabelRunsToEnd(paperContent: Option<string>, pre: seq<string>, name: string, post: seq<string>)
    requires name !in pre
    ensures GetSectionContent(paperContent, name, pre + [name, ""] + post)
         == GetSectionContent(paperContent, name, [name])
  {
    FirstIndexAfter(pre, name, [""] + post);
    assert pre + [name] + ([""] + post) == pre + [name, ""] + post;
    FirstIndexAfter([], name, []);
    assert [] + [name] + [] == [name];
  }

  // ---------------------------------------------------------------------
  // Slices of a whole label list

  predicate Distinct(labels: seq<string>) {
    forall i, j :: 0 <= i < j < |labels| ==> labels[i] != labels[j]
  }

  /** Every label is non-empty and occurs in the text, and first occurrences follow list order. */
  predicate InTextInOrder(text: string, labels: seq<string>) {
    (forall i :: 0 <= i < |labels| ==> labels[i] != "" && Find(text, labels[i]) >= 0) &&
    (forall i, j :: 0 <= i < j < |labels| ==> Find(text, labels[i]) <= Find(text, labels[j]))
  }

  /**
   * The sections of `labels[from..]`, each cut against the whole list,
   * concatenated; a label whose slicing fails contributes nothing.
   */
  function SlicesFrom(text: string, labels: seq<string>, from: nat): string
    requires from <= |labels|
    decreases |labels| - from
  {
    if from == |labels| then ""
    else
      var here := GetSectionContent(Some(text), labels[from], labels);
      (if here.Success? then here.value else "") + SlicesFrom(text, labels, from + 1)
  }

  /** In such a list, each section but the last ends exactly where the next label begins. */
  lemma SectionBeforeNext(text: string, labels: seq<string>, i: nat)
    requires Distinct(labels) && InTextInOrder(text, labels) && i + 1 < |labels|
    ensures var a, b := Find(text, labels[i]), Find(text, labels[i + 1]);
      0 <= a <= b <= |text| &&
      GetSectionContent(Some(text), labels[i], labels) == Success(text[a..b])
  {
    var pre := labels[..i];
    assert labels[i] !in pre;
    assert labels == pre + [labels[i], labels[i + 1]] + labels[i + 2..];
    BothLabelsFound(text, pre, labels[i], labels[i + 1], labels[i + 2..]);
  }

  /** In such a list, the last label's section runs to the end of the text. */
  lemma LastSection(text: string, labels: seq<string>)
    requires Distinct(labels) && InTextInOrder(text, labels) && labels != []
    ensures var a := Find(text, labels[|labels| - 1]);
      0 <= a <= |text| &&
      GetSectionContent(Some(text), labels[|labels| - 1], labels) == Success(text[a..])
  {
    var pre := labels[..|labels| - 1];
    assert labels[|labels| - 1] !in pre;
    assert labels == pre + [labels[|labels| - 1]];
    LastLabelRunsToEnd(text, pre, labels[|labels| - 1]);
  }

  lemma AdjacentSlices(text: string, a: int, b: int)
    requires 0 <= a <= b <= |text|
    ensures text[a..b] + text[b..] == text[a..]
  {
  }

  /** One step of `SlicesFrom`, for a label whose slicing succeeds. */
  lemma SlicesFromStep(text: string, labels: seq<string>, from: nat, piece: string)
    requires from < |labels|
    requires GetSectionContent(Some(text), labels[from], labels) == Success(piece)
    ensures SlicesFrom(text, labels, from) == piece + SlicesFrom(text, labels, from + 1)
  {
  }

  /**
   * With distinct labels found in the text in list order, the sections
   * from label `from` on, put together, are the text from that label's
   * first occurrence to the end.
   */
  lemma {:induction false} SectionsTileText(text: string, labels: seq<string>, from: nat)
    requires Distinct(labels) && InTextInOrder(text, labels) && from < |labels|
    ensures var a := Find(text, labels[from]);
      0 <= a <= |text| && SlicesFrom(text, labels, from) == text[a..]
    decreases |labels| - from
  {
    var a := Find(text, labels[from]);
    if from + 1 < |labels| {
      var b := Find(text, labels[from + 1]);
      SectionBeforeNext(text, labels, from);
      SlicesFromStep(text, labels, from, text[a..b]);
      SectionsTileText(text, labels, from + 1);
      AdjacentSlices(text, a, b);
    } else {
      LastSection(text, labels);
      SlicesFromStep(text, labels, from, text[a..]);
    }
  }

  /**
   * For the label list flattened from an outline: when its labels are
   * distinct and occur in the text in order, slicing every label and
   * putting the slices together gives back the text from the first
   * section's title on.
   */
  lemma OutlineSectionsTileText(text: string, outline: seq<Section>)
    requires outline != []
    requires Distinct(Flatten(outline)) && InTextInOrder(text, Flatten(outline))
    ensures var a := Find(text, outline[0].title);
      0 <= a <= |text| && SlicesFrom(text, Flatten(outline), 0) == text[a..]
  {
    assert Flatten(outline)[0] == outline[0].title;
    SectionsTileText(text, Flatten(outline), 0);
  }

  // ---------------------------------------------------------------------
  // Outline flattening (the `__main__` block)

  /** Builds the label list: each section, then `extend` with its subsections. */
  method FlattenOutline(sections: seq<Section>) returns (sectionList: seq<string>)
    ensures sectionList == Flatten(sections)
    ensures |sectionList| == |sections| + SubsectionCount(sections)
  {
    sectionList := [];
    for i := 0 to |sections|
      invariant sectionList == Flatten(sections[..i])
    {
      sectionList := sectionList + [sections[i].title];
      sectionList := sectionList + sections[i].subsections;
      FlattenAppend(sections[..i], [sections[i]]);
      assert sections[..i + 1] == sections[..i] + [sections[i]];
    }
    assert sections[..|sections|] == sections;
  }

  // ---------------------------------------------------------------------
  // The paper teacher object

  class PaperTicher {
    /** `self.paper_content`; None while the attribute was never assigned. */
    var paperContent: Option<string>

    constructor ()
      ensures paperContent == None
    {
      paperContent := None;
    }

    /**
     * `get_paper_content`: joins `"\n" + page` over the pages in order,
     * wraps the result in the prompt template and caches it; on any
     * exception returns None and leaves the cached content as it was.
     */
    method GetPaperContent(file: PdfFile) returns (r: Option<string>)
      modifies this
      ensures r == LoadedContent(file)
      ensures paperContent == if r.Some? then r else old(paperContent)
    {
      if file.Unreadable? {
        return None;
      }
      var pages := "";
      ghost var texts: seq<string> := [];
      for i := 0 to |file.pages|
        invariant |texts| == i
        invariant forall k :: 0 <= k < i ==> file.pages[k].Some? && texts[k] == file.pages[k].value
        invariant pages == Joined(texts)
        invariant paperContent == old(paperContent)
      {
        if file.pages[i].None? {
          return None;
        }
        JoinedSnoc(texts, file.pages[i].value);
        pages := pages + "\n" + file.pages[i].value;
        texts := texts + [file.pages[i].value];
      }
      assert PageTexts(file.pages).value == texts;
      paperContent := Some(PaperPrompt(pages));
      r := paperContent;
    }

    /**
     * `llm_response`: calls the model with the system entry put in front of
     * the caller's messages; if that raises, retries once without the last
     * entry, and if the retry raises too, returns the error text instead.
     * On every path the caller's list ends as it started. `calls` records
     * the lists the model was called with, in order.
     */
    method LlmResponse(messages: MessageList, systemPrompt: string, llm: seq<Message> -> Reply)
      returns (respond: string, calls: seq<seq<Message>>)
      modifies messages
      ensures messages.items == old(messages.items)
      ensures 1 <= |calls| <= 2
      ensures calls[0] == [Message(System, Some(systemPrompt))] + old(messages.items)
      ensures llm(calls[0]).Answer? ==> |calls| == 1 && respond == llm(calls[0]).content
      ensures llm(calls[0]).Raised? ==> |calls| == 2 && calls[1] == calls[0][..|calls[0]| - 1]
      ensures llm(calls[0]).Raised? && llm(calls[1]).Answer? ==> respond == llm(calls[1]).content
      ensures llm(calls[0]).Raised? && llm(calls[1]).Raised? ==> respond == ErrorPrefix + llm(calls[1]).message
    {
      ghost var entry := messages.items;
      var system := Message(System, Some(systemPrompt));
      messages.Insert(0, system);
      assert messages.items == [system] + entry;
      var scratch := messages.items;
      calls := [scratch];
      var first := llm(messages.items);
      if first.Raised? {
        var fileContent := messages.Pop();
        assert messages.items == scratch[..|scratch| - 1];
        calls := calls + [messages.items];
        var retry := llm(messages.items);
        messages.Append(fileContent);
        assert messages.items == scratch;
        if retry.Raised? {
          var _ := messages.PopAt(0);
          respond := ErrorPrefix + retry.message;
          return;
        }
        respond := retry.content;
      } else {
        respond := first.content;
      }
      var _ := messages.PopAt(0);
      assert messages.items == scratch[1..];
    }

    /**
     * `get_paper_section`: loads the paper content (which caches it when the
     * PDF reads cleanly) and has the model infer the outline from it. The
     * prompt-model-parser chain is the oracle `infer`, applied to the content
     * `get_paper_content` returned, None included.
     */
    method GetPaperSection(file: PdfFile, infer: Option<string> -> seq<Section>) returns (sections: seq<Section>)
      modifies this
      ensures sections == infer(LoadedContent(file))
      ensures paperContent == if LoadedContent(file).Some? then LoadedContent(file) else old(paperContent)
    {
      var content := GetPaperContent(file);
      sections := infer(content);
    }

    /**
     * `get_paper_structure`: infers the outline (reloading and re-caching the
     * paper content on the way), then writes for each section its heading
     * and a line for each of its subsections.
     */
    method GetPaperStructure(file: PdfFile, infer: Option<string> -> seq<Section>) returns (result: string)
      modifies this
      ensures result == Render(infer(LoadedContent(file)))
      ensures paperContent == if LoadedContent(file).Some? then LoadedContent(file) else old(paperContent)
    {
      var sections := GetPaperSection(file, infer);
      ghost var loaded := paperContent;
      result := "";
      for i := 0 to |sections|
        invariant result == Render(sections[..i])
        invariant paperContent == loaded
      {
        var subs := sections[i].subsections;
        result := result + ("## " + sections[i].title + "\n");
        ghost var before := result;
        assert before == Render(sections[..i]) + Heading(sections[i].title);
        for j := 0 to |subs|
          invariant result == before + SubsectionLines(subs[..j])
          invariant paperContent == loaded
        {
          SubsectionLinesSnoc(subs[..j], subs[j]);
          assert subs[..j + 1] == subs[..j] + [subs[j]];
          result := result + ("\n" + subs[j] + "\n");
        }
        assert subs[..|subs|] == subs;
        assert result == Render(sections[..i]) + SectionBlock(sections[i]);
        RenderSnoc(sections[..i], sections[i]);
        assert sections[..i + 1] == sections[..i] + [sections[i]];
      }
      assert sections[..|sections|] == sections;
    }
  }
}
