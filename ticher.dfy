/**
 * The earlier draft of the paper teacher (paper_ticher.py): the same
 * outline rendering and page loop, but a model call without retry or
 * cleanup, a system prompt that comes out as None, and paper content that
 * is returned without being cached.
 */
module Ticher {
  import opened PyBuiltins
  import opened Messages
  import opened Paper

  /**
   * `get_system_prompt` binds the prompt text to a local and has no
   * `return`, so what it gives back is None.
   */
  function GetSystemPrompt(): Option<string>
  {
    None
  }

  /** The entry `llm_response` puts in front of the messages. */
  function PromptEntry(): (m: Message)
    ensures m.role == User && m.content.None?
  {
    Message(User, GetSystemPrompt())
  }

  /**
   * `llm_response`: one model call on the prompt entry followed by the
   * caller's messages. On success the entry is popped again and the
   * content returned; an exception propagates (Failure) and leaves the
   * entry at the front of the caller's list. `call` is the list the model
   * was called with.
   */
  method LlmResponse(messages: MessageList, llm: seq<Message> -> Reply)
    returns (r: Result<string, string>, call: seq<Message>)
    modifies messages
    ensures call == [PromptEntry()] + old(messages.items)
    ensures llm(call).Answer? ==> r == Success(llm(call).content) && messages.items == old(messages.items)
    ensures llm(call).Raised? ==> r == Failure(llm(call).message) && messages.items == call
  {
    messages.Insert(0, PromptEntry());
    call := messages.items;
    var reply := llm(messages.items);
    if reply.Raised? {
      return Failure(reply.message), call;
    }
    var _ := messages.PopAt(0);
    r := Success(reply.content);
  }

  /**
   * `get_paper_structure` over the inferred outline: for each section its
   * heading, then a line for each of its subsections.
   */
  method GetPaperStructure(sections: seq<Section>) returns (result: string)
    ensures result == Render(sections)
  {
    result := "";
    for i := 0 to |sections|
      invariant result == Render(sections[..i])
    {
      var subs := sections[i].subsections;
      result := result + ("## " + sections[i].title + "\n");
      ghost var before := result;
      assert before == Render(sections[..i]) + Heading(sections[i].title);
      for j := 0 to |subs|
        invariant result == before + SubsectionLines(subs[..j])
      {
        SubsectionLinesSnoc(subs[..j], subs[j]);
        assert subs[..j + 1] == subs[..j] + [subs[j]];
        result := result + ("\n" + subs[j] + "\n");
      }
      assert subs[..|subs|] == subs;
      assert result == Render(sections[..i]) + SectionBlock(sections[i]);
      RenderSnoc(sections[..i], sections[i]);
      assert sections[..i + 1] == sections[..i] + [sections[i]];
    }
    assert sections[..|sections|] == sections;
  }

  /**
   * `get_paper_content`: joins `"\n" + page` over the pages in order and
   * wraps the result in the prompt template; on any exception returns None.
   * Nothing is cached.
   */
  method GetPaperContent(file: PdfFile) returns (r: Option<string>)
    ensures r == LoadedContent(file)
  {
    if file.Unreadable? {
      return None;
    }
    var pages := "";
    ghost var texts: seq<string> := [];
    for i := 0 to |file.pages|
      invariant |texts| == i
      invariant forall k :: 0 <= k < i ==> file.pages[k].Some? && texts[k] == file.pages[k].value
      invariant pages == Joined(texts)
    {
      if file.pages[i].None? {
        return None;
      }
      JoinedSnoc(texts, file.pages[i].value);
      pages := pages + "\n" + file.pages[i].value;
      texts := texts + [file.pages[i].value];
    }
    assert PageTexts(file.pages).value == texts;
    r := Some(PaperPrompt(pages));
  }
}
