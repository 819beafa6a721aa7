# Paper teacher — a Dafny model

The paper teacher is a chat assistant for academic papers. It reads a PDF's
pages into one text blob, asks a language model for the paper's outline (an
ordered mapping from section titles to subsection titles), and explains any
section the user picks. This project models the deterministic logic around
the model and PDF calls, for both versions of the program:

- `paper_teacher.py`, the current version. Module `Teacher` holds:
  - `get_section_content`, which slices the cached paper text between a label's first occurrence and the next label's first occurrence;
  - `llm_response`, which wraps the model call in list bookkeeping and retries once;
  - `get_paper_section`, which reloads (and re-caches) the paper content and has the model infer the outline from it;
  - `get_paper_structure`, which renders that outline as Markdown;
  - the page loop of `get_paper_content`, which also caches the result on the object;
  - the `__main__` loop that flattens the outline into the label list used for slicing.
- `paper_ticher.py`, the earlier draft. Module `Ticher` holds:
  - `llm_response`, with no retry and no cleanup;
  - `get_system_prompt`, which returns None;
  - the same rendering and page loop, without caching.

Shared pieces:

- `PyBuiltins` gives the CPython meaning of the built-ins the slicer relies on:
  - `str.find` returns -1 when the text is absent;
  - `list.index` raises ValueError when the item is absent;
  - `s[a:b]` counts negative bounds from the end and clamps out-of-range bounds.
- `Messages` models the caller's message list as a class whose `items` field is updated in place by `insert`, `append`, `pop()` and `pop(0)`.
- `Paper` holds the specification functions of the text shapes:
  - `Render`, the Markdown outline;
  - `Flatten`, the label list;
  - `Joined`, the pages put together;
  - `PaperPrompt`, the content template;
  - `LoadedContent`, the whole of `get_paper_content`.
  It also holds the lemmas about these functions.

Inputs that the program gets from code outside this model are parameters here:

- The language model is an oracle `llm: seq<Message> -> Reply`. A call returns an answer's content or raises with a message. The methods return the lists the model was called with, so their contracts can say what each call received.
- The PDF is a `PdfFile`:
  - `Unreadable` means `PdfReader` raises;
  - otherwise it is a sequence of pages, each holding the page text, or None when `extract_text` raises.
- The outline the prompt-model-parser chain of `get_paper_section` infers is an oracle `infer: Option<string> -> seq<Section>` applied to the loaded content, giving the outline in dictionary order. The earlier draft's `get_paper_structure` caches nothing, so there the outline itself is the input.
- The current version's system-prompt text is a constant string in the source. Here it is the parameter `systemPrompt`.

## Where the code departs from the intended design (the model follows the code)

- The response generator was meant to append the document text as an entry of its own and strip it again, leaving the caller's transcript one user turn longer. In the code, `llm_response` appends no document entry of its own. For the retry it pops the last entry of the list as it stands after the system entry was inserted, and appends that entry back afterwards. That is the caller's last entry, or the system entry itself when the caller's list is empty, in which case the retry is sent an empty list. On every path the list comes back exactly as it was passed in (`Teacher.PaperTicher.LlmResponse`).
- The result for a label missing from the text was meant to be left undefined. In the code, `find` returns -1 and that -1 is used as a slice index:
  - a missing start label yields the text's final character, or nothing;
  - a missing next label cuts the final character off the section (`MissingStartLabel`, `MissingNextLabel`).
- The caller was meant to guarantee that the label is in the list. The code raises ValueError when it is not, and the model keeps that case as `Failure(ValueError)`.
- If the paper content was never loaded, the code raises AttributeError. The model keeps that case as `Failure(AttributeError)`. ValueError is checked first, because `list.index` runs before the attribute is read.

## Model

| member | source | states |
|---|---|---|
| PyBuiltins.Find | paper_teacher.py:108-109 | `str.find`: the result is -1 exactly when the needle occurs nowhere; otherwise the needle occurs at the result and at no earlier index. The empty needle is found at 0. |
| PyBuiltins.IndexOf | paper_teacher.py:103 | `list.index`: None (ValueError) exactly when the item is absent. Otherwise the index holds the item and no earlier element equals it. |
| PyBuiltins.SliceBound | paper_teacher.py:110 | A slice bound inside 0..n stays as it is. A negative bound within range counts from the end. Every result lies within 0..n. |
| PyBuiltins.Slice | paper_teacher.py:110 | `s[start:stop]` is always one contiguous piece of `s` and never longer than `s`. |
| PyBuiltins.SliceBetween | paper_teacher.py:110 | With both bounds inside the text, the slice is the text between them, or empty when the end comes before the start. |
| PyBuiltins.SliceToEnd | paper_teacher.py:110 | A slice with no end, from a start inside the text, runs to the end of the text. |
| PyBuiltins.SliceMinusOne | paper_teacher.py:108-110 | The -1 that `find` returns for "not found" acts as a slice bound at the last position of a non-empty text. |
| Messages.MessageList.Insert | paper_teacher.py:136 | `list.insert(i, m)`: `m` is placed at the normalised index and the other entries keep their order. |
| Messages.MessageList.Append | paper_teacher.py:144 | `list.append(m)` adds `m` at the end. |
| Messages.MessageList.Pop | paper_teacher.py:140 | `list.pop()` returns the last entry and removes it. |
| Messages.MessageList.PopAt | paper_teacher.py:148 | `list.pop(i)` returns entry i and removes only that entry. |
| Paper.Render | paper_teacher.py:173-179 | The rendering is empty exactly when the outline is empty. |
| Paper.SubsectionLinesAppend | paper_teacher.py:177-178 | The subsection lines of two lists put together are the lines of the first list followed by those of the second. |
| Paper.SubsectionLineAt | paper_teacher.py:177-178 | Subsection j appears as `"\n" + sub + "\n"`, after the lines of all earlier subsections. |
| Paper.RenderAppend | paper_teacher.py:175-178 | Rendering distributes over putting outlines together, so sections render in outline order. |
| Paper.RenderSectionAt | paper_teacher.py:175-178 | Section k's block (`"## " + title + "\n"`, then its subsection lines) lies between the blocks of the earlier and of the later sections. |
| Paper.Flatten | paper_teacher.py:222-225 | The flat label list has one entry per section plus one per subsection. |
| Paper.FlattenAppend | paper_teacher.py:223-225 | Flattening distributes over putting outlines together. |
| Paper.FlattenSectionAt | paper_teacher.py:223-225 | Section k's title sits at index k plus the number of subsections before it, and its own subsections follow it in order. |
| Paper.JoinedAppend | paper_teacher.py:93-94 | Joining pages distributes over putting page lists together. |
| Paper.JoinedPageAt | paper_teacher.py:93-94 | Page k's text follows a newline, after the text of every earlier page. |
| Paper.PageTexts | paper_teacher.py:93-94 | The texts of all pages are produced exactly when no page's extraction raises. The i-th text is page i's text. |
| Paper.PaperPrompt | paper_teacher.py:85-96 | The content is the fixed preamble, then the joined pages verbatim, then the fixed postamble. |
| Paper.LoadedContent | paper_teacher.py:90-100 | There is content exactly when the reader opens the file and every page's extraction succeeds. |
| Teacher.GetSectionContent | paper_teacher.py:102-111 | A label not in the list gives ValueError, and content never loaded gives AttributeError. Otherwise the result is a contiguous piece of the paper text. |
| Teacher.FirstIndexAfter | paper_teacher.py:103 | A label absent from the entries before it is found at its own position. |
| Teacher.SliceAfterFirst | paper_teacher.py:103-110 | The section is the slice from the label's `find` position to the `find` position of the label right after its first occurrence. The end is open when no label follows or the next label is empty. |
| Teacher.LastLabelRunsToEnd | paper_teacher.py:104-110 | For the last label, the section runs from the label's first occurrence to the end of the text. If the label does not occur, the section is the final character, or empty for an empty text. |
| Teacher.BothLabelsFound | paper_teacher.py:108-110 | With both labels found, the section is `text[start..end]`. It is empty when the next label first occurs before the start. |
| Teacher.MissingStartLabel | paper_teacher.py:108-110 | A start label that does not occur yields at most the text's final character. |
| Teacher.MissingNextLabel | paper_teacher.py:109-110 | A next label that does not occur cuts the final character off the section. |
| Teacher.FirstDuplicateWins | paper_teacher.py:103-105 | Only the label's first occurrence in the list and the label right after it affect the result. |
| Teacher.EmptyNextLabelRunsToEnd | paper_teacher.py:105-109 | An empty next label counts as no next label: the result is that of a list holding only the chosen label. |
| Teacher.SectionBeforeNext | paper_teacher.py:102-111 | Take distinct, non-empty labels found in the text in list order. Each section but the last is exactly the text from its label's first occurrence to the next label's first occurrence. |
| Teacher.LastSection | paper_teacher.py:102-111 | Under the same conditions, the last label's section runs from its first occurrence to the end of the text. |
| Teacher.SectionsTileText | paper_teacher.py:102-111 | Under the same conditions, the sections from label k on, put together, are exactly the text from label k's first occurrence to the end. |
| Teacher.OutlineSectionsTileText | paper_teacher.py:222-225 | For the label list flattened from an outline, slicing every label and putting the slices together gives back the text from the first section title on. |
| Teacher.FlattenOutline | paper_teacher.py:222-225 | The `__main__` loop builds exactly the flattened outline, of length #sections + #subsections. |
| Teacher.PaperTicher.GetPaperContent | paper_teacher.py:84-100 | Returns the formatted joined pages, or None on any exception. It caches the result in `paperContent` on success and leaves the field as it was on failure. |
| Teacher.PaperTicher.LlmResponse | paper_teacher.py:135-151 | The caller's list ends exactly as it started on all three paths. The first call receives `[system entry] + messages`. The reply is the first call's answer when there is one. Otherwise there is exactly one more call, on that list without its last entry, and the reply is its answer or `"Gemini returned an error: " + message`. |
| Teacher.PaperTicher.GetPaperSection | paper_teacher.py:79-82 | Returns the outline inferred from `LoadedContent(file)` (None included). Loading the content re-caches it in `paperContent` when the PDF reads cleanly and leaves the field as it was otherwise. |
| Teacher.PaperTicher.GetPaperStructure | paper_teacher.py:171-179 | Returns `Render` of the outline inferred from the freshly loaded content: each section's heading, then its subsection lines, in order; an empty outline gives `""`. The reload re-caches `paperContent` exactly as `get_paper_content` does. |
| Ticher.PromptEntry | paper_ticher.py:36-46 | The entry put in front of the messages has role user and content None, because `get_system_prompt` returns nothing. |
| Ticher.LlmResponse | paper_ticher.py:113-117 | There is exactly one call, on `[prompt entry] + messages`. On success it returns the content and the list is as it was. On failure the exception's message comes back as `Failure` and the prompt entry stays at index 0. |
| Ticher.GetPaperStructure | paper_ticher.py:134-142 | Returns `Render(outline)`, the same rendering as the current version. |
| Ticher.GetPaperContent | paper_ticher.py:79-94 | Returns the formatted joined pages, or None on any exception. Nothing is cached. |

## Left out

- Model client construction (`get_llm_model`, `_get_azure_openai_llm`, `set_llm_model`) reads environment variables and calls foreign constructors. The model is an oracle parameter instead.
- `get_paper_section` pipes a prompt template into a foreign model and a JSON parser. That chain is the oracle `infer`; an exception it raises (a reply the parser rejects) is not modelled, nor is a reply without a `sections` key. The dictionary's distinct keys are not required: rendering and flattening do not depend on them.
- The `__main__` block's own call of `get_paper_section`, which caches the content before the slicing, is not modelled as one method: its flattening loop is `Teacher.FlattenOutline` over the outline, and the slicing is `Teacher.GetSectionContent` over the cached content.
- `PdfReader` text extraction is foreign. Its outcome is the `PdfFile` input, and `set_paper_path` with it.
- The constant prompt texts (`get_system_prompt` in the current version, `get_initial_prompt`) are left out, as is the `get_abstract` wrapper, which only builds a two-entry list and calls `llm_response`.
- The `print` calls that log exceptions and the outline are left out: they are output only.
- The model oracle answers a given message list the same way every time. This costs no generality here: the two calls of one `llm_response` always receive lists of different lengths.
- Exception messages are opaque strings. Every exception raised by `invoke(...).content` is folded into `Raised`.
- Messages.MessageList.Pop and Messages.MessageList.PopAt require an entry to exist rather than modelling `IndexError`. `llm_response` only pops right after its own insert, so the list is never empty there, and the verifier checks this at each call.
- chat_gui.py is not part of this model: the Streamlit widgets, the session state, the empty-subsection fallback and the single-label `sections_list` are UI glue.
