# AWS_RAG request handler, modelled in Dafny

The repository is a Django view (`ar/views.py`). It answers a question about
AWS EC2 in two ways: once with retrieval-augmented generation (RAG), once
without. The RAG path retrieves two chunks of the EC2 user guide from a FAISS
index and writes a prompt around them. Both answers go through a hosted chat
model, OpenCC's simplified-to-traditional conversion and Python-Markdown. A
chain of string patches then fixes the HTML.

This project models the deterministic steps between those foreign calls:

- `Retrieval`: how `query_knowledge_base` picks its two references from the
  search result and copies each into a record.
- `Prompt`: the prompt text `use_prompt_template` builds.
- `LlmRequest`: the model and message content `openai_ask` sends, depending on
  whether an image URL is present.
- `PyStrings`: Python's `str.replace` (`ReplaceAll`), scanning left to right
  with no overlaps, with the laws the patches rely on.
- `MarkdownPatches`: the replace before rendering, the four patches after it,
  and the anchored `re.sub`.
- `Views`: `main` with its foreign services passed in as parameters. These are
  the search result, the chat reply, `s2t` and `md.convert`.

Everything is pure, so the model uses datatypes, functions and lemmas. The
search result is an arbitrary sequence of `(document, score)` pairs. Scores and
metadata values are opaque type parameters that are only copied.

Three behaviours of `query_knowledge_base` (ar/views.py:41-70) are easy to
miss, and the model keeps each one:

- The search result can have any number of entries. The code uses index 1
  for the first reference and index 0 for the second. With one entry, the
  `except` at lines 45-46 falls back to index 0, so index 0 is used twice.
- The page number is `metadata.get("page")` (lines 51 and 62). It is `None`
  when the key is absent, so the model gives it an `Option` type.
- With an empty result, `docs_and_scores[0]` at line 46 raises `IndexError`,
  and nothing catches it. The model returns `Failure(IndexError)`.

## Model

| member | source | states |
|---|---|---|
| `Retrieval.QueryKnowledgeBase` | ar/views.py:41-70 | fails exactly when the search result is empty; with two or more hits the first reference is built from index 1 and the second from index 0; with one hit both come from index 0 |
| `Retrieval.ToReference` | ar/views.py:48-68 | the record copies the hit's score and page content; "source" and "number" hold the metadata's "source" and "page" values, or None exactly when that key is absent |
| `Retrieval.Get` | ar/views.py:50-51 | `dict.get`: a value exactly when the key is present, and then the stored one |
| `Retrieval.SelectionIgnoresTail` | ar/views.py:43-58 | entries past index 1 are never read: appending to a result of two or more hits does not change the references |
| `Retrieval.ReferencesCoincide` | ar/views.py:43-58 | the two references are equal exactly when there is one hit or the first two hits give equal records |
| `Prompt.FillTemplate` | ar/views.py:83-85 | the filled template starts with the system text, holds the first content at a fixed offset and the second content after it, ends with the question, and has the summed length of its pieces |
| `Prompt.ComposePrompt` | ar/views.py:73-86 | the prompt starts with `SYS_PROMPT`, carries the first reference's content before the second's, and ends with the user's question |
| `Prompt.FillTemplateInjective` | ar/views.py:83-85 | for contents of equal lengths, equal prompts come from equal contents and equal questions |
| `LlmRequest.BuildRequest` | ar/views.py:98-119 | one message with role "user"; a truthy URL gives "gpt-4o" with a text part then an image_url part, otherwise "gpt-3.5-turbo" with the bare question; the question and the truthy URL can be read back unchanged |
| `LlmRequest.BuildRequestInjective` | ar/views.py:98-119 | requests built from different questions, or from URLs that differ when truthy, differ |
| `PyStrings.Truthy` | ar/views.py:98 | `None` and the empty string are falsy; every other string is truthy |
| `PyStrings.ReplaceAll` | ar/views.py:156-160 | `str.replace` with the pattern as its own replacement changes nothing; with a non-empty pattern, a replacement no longer than the pattern never lengthens the text, and one no shorter never shortens it |
| `PyStrings.ReplaceAbsent` | ar/views.py:158 | `str.replace` returns text without the pattern unchanged |
| `PyStrings.ReplaceSkipsPrefix` | ar/views.py:156 | `str.replace` scans left to right: a prefix where the pattern starts nowhere is copied and the scan resumes after it |
| `PyStrings.ReplaceFirstOccurrence` | ar/views.py:156 | the first occurrence is replaced, the text before it is copied, and the rest is processed on its own, so occurrences never overlap |
| `PyStrings.ReplaceLeavesNoOccurrence` | ar/views.py:159 | with a non-empty replacement that shares no character with the pattern, no occurrence of the pattern remains |
| `MarkdownPatches.PreRender` | ar/views.py:156 | no `"   - "` remains before rendering, and text without one is unchanged |
| `MarkdownPatches.UnescapeBreaks` | ar/views.py:159 | no `&lt;br&gt;` remains after the unescape, and HTML without one is unchanged |
| `MarkdownPatches.WrapCode` | ar/views.py:158 | the code wrap only ever adds text |
| `MarkdownPatches.StripListMarker` | ar/views.py:160 | the strip never lengthens the HTML, and HTML without `- <pre><code>` is unchanged |
| `MarkdownPatches.WrapCodeIdentity` | ar/views.py:158 | the code wrap is the identity on HTML holding neither `<code>` nor `</code>` |
| `PyStrings.OutputPrefixIsInputPrefix` | ar/views.py:159 | with a non-empty replacement, a prefix of the output that avoids the replacement's first character is a prefix of the input |
| `MarkdownPatches.OpenTagFirstPass` | ar/views.py:158 | after text holding no `<code>`, the first replace of the wrap turns the opening tag into `<pre><code>` and copies that text |
| `MarkdownPatches.OpenTagSecondPass` | ar/views.py:158 | the second replace of the wrap finds no `</code>` inside `<pre><code>` or in the text before it, when that text holds none |
| `MarkdownPatches.CloseTagFirstPass` | ar/views.py:158 | after text holding no `<code>`, the first replace of the wrap leaves a closing tag alone |
| `MarkdownPatches.WrapOpenTag` | ar/views.py:158 | after text holding neither tag (other HTML tags are allowed), `<code>` becomes `<pre><code>` and the rest is wrapped on its own |
| `MarkdownPatches.WrapCloseTag` | ar/views.py:158 | after text holding neither tag (other HTML tags are allowed), `</code>` becomes `</code></pre>` and the rest is wrapped on its own |
| `MarkdownPatches.WrapParagraphCode` | ar/views.py:158 | `<p><code>x</code></p>`, with x holding neither tag, becomes `<p><pre><code>x</code></pre></p>` |
| `MarkdownPatches.PatchOrderMatters` | ar/views.py:158-160 | on `- <code>…`, wrapping then stripping removes the list marker; stripping then wrapping leaves `- <pre><code>` |
| `MarkdownPatches.LazyBacktick` | ar/views.py:161 | the lazy `(.*?)` then a backtick ends at the first backtick reachable without a newline, or there is no such backtick |
| `MarkdownPatches.PatchInlineCode` | ar/views.py:161 | the `re.sub` changes its input exactly when it starts with "- `" and a backtick follows before any newline; it then deletes just that first backtick and keeps every other character in place |
| `MarkdownPatches.RenderAnswer` | ar/views.py:156-161 | when the converted HTML holds no code tag, no `&lt;br&gt;`, no `- <pre><code>` and no inline-code match, the post-processing returns it unchanged |
| `Views.HandleRequest` | ar/views.py:124-174 | a falsy question renders the bare form without requests; an empty search result fails before any request; otherwise the RAG request carries the composed prompt and the baseline request the raw question, both with the same model and image, and each rendered answer is the post-processed conversion of its reply |
| `Views.ImageRequestsUseVisionModel` | ar/views.py:139-146 | with an image URL and two or more hits, both requests use "gpt-4o" and the RAG prompt puts the index 1 hit's content first |

## Left out

- `generate_embed` (ar/views.py:20-28) is not modelled: it loads PDFs, builds embeddings and writes the FAISS index to disk.
- `image_upload` (ar/views.py:31-38) is not modelled: it uploads to Google Cloud Storage and signs a URL that expires by the wall clock. Its result is the `cloudUrl` parameter of `HandleRequest`.
- `FAISS.load_local` and `similarity_search_with_score` (ar/views.py:42, 90) are not modelled. The search result is the `hits` parameter, of any length. The model does not decide how many entries the index returns.
- The OpenAI client call and the reading of its reply (ar/views.py:97, 112-121) are not modelled. The reply is the `ask` oracle, applied to the request built.
- OpenCC `s2t` (ar/views.py:142-146) is not modelled. It is the `s2t` oracle, so idempotence on traditional text is not stated.
- `markdown.Markdown.convert` (ar/views.py:149-157, 164) is the pure `convert` oracle. The one `md` instance is shared by both calls and may carry state between them, which a pure function does not capture.
- Saving the uploaded file (ar/views.py:130-139) is not modelled: it creates directories, writes chunks and picks a uuid file name.
- Loading and setting environment variables at import time (ar/views.py:15-17), the Django request and `render` (ar/views.py:125, 170-174) are not modelled.
- Exceptions raised by foreign services (a failed upload, a failed API call, a missing index) are not modelled. Only the `IndexError` from an empty search result is.
- Scores are floats in the source. The model only copies them and does no arithmetic on them.
- The determinism of the prompt in its three inputs is not stated as a lemma: every Dafny function is deterministic.
- `Retrieval.ToReference`: a metadata entry that is present with the value `None` gives `Some` of that value, where `metadata.get` gives `None`. So the model can tell apart a missing key and a key holding `None`, which Python does not (this also affects `Retrieval.ReferencesCoincide`).
