# KW-GraduSafe notice analyser: model of the link finder, the text joiner and the chat session

The application reads a Kwangwoon University notice page, lists the PDF
attachments linked from it, downloads one, extracts its text and answers
questions about that text through a chat. This project models the parts of
`app.py` that are logic rather than UI, network or library calls, and proves
what they guarantee:

- `PdfLinks` (links.dfy): `get_pdf_links` after parsing. A page is the
  sequence of its anchors with an `href`, each as the target and the already
  stripped visible text. An anchor is kept when its lower-cased target ends in
  `.pdf`. Its target is made absolute by a three-way rule: a target beginning
  with `http` is kept, one beginning with `/` is put behind
  `https://www.kw.ac.kr`, anything else behind
  `https://www.kw.ac.kr/kw_service/`. The label is the anchor text, or
  `이름 없는 PDF` when the text is empty. The loop is a method proved equal to
  the specification function `Select`. Lemmas characterise `Select` without the
  loop: one entry per `.pdf` anchor, in page order, duplicates kept. They also
  show that every produced URL starts with `http` and still ends in `.pdf`,
  and that every label is non-empty.
- `PdfText` (pages.dfy): the loop of `download_and_parse_pdf` that appends
  the text of every document `load_and_split` returns, in order. The source
  calls these documents pages; they come from a text splitter and need not be
  whole PDF pages, and "page" below means one of them. The loop is proved
  equal to `Concat`. Lemmas show that nothing is inserted between pages, that
  page k sits right after the pages before it, and that the text is empty
  exactly when every page is.
- `ChatSession` (session.dfy): the session state kept between reruns of the
  page, as a class `Session`. Its fields are the links found, the document
  text, the document name and the chat history. `Valid()` is the invariant:
  a history exists only with a document, it opens with the greeting for that
  document's name, and every assistant reply directly follows a user question.

Behaviour of `app.py` worth knowing when reading the model:

- The reply role is the literal `"ai"` (`Role.Ai`).
- The session has no operation that clears it.
- The question is appended at line 180, before the call at line 185 that
  produces the answer. That call is not guarded, so a raised call leaves the
  question in the history with no reply. `Session.Ask` models this with
  `answer == None`.
- The scheme test is the literal prefix `http`, so `httpdocs/a.pdf` is kept
  as it is and `HTTP://...` is treated as a bare relative path
  (`AbsoluteUrlBareHttpQuirk`, `AbsoluteUrlUpperCaseQuirk`).

The rows below are stated against these reference functions, which define
what the source computes and carry no contract of their own:
`PdfLinks.IsPdfHref` (the test of app.py:49), `PdfLinks.Entry` (the entry
built at app.py:51-61), `PdfLinks.Select` (the list `pdf_list` of
app.py:46-61), `PdfLinks.Origins` (the positions of the anchors that list is
built from), `PdfText.Concat` (the value of `full_text` after app.py:80-82),
`PdfText.TotalLength` (the total length of the pages) and
`ChatSession.Greeting` (the greeting of app.py:163).

## Model

| member | source | states |
|---|---|---|
| `PdfLinks.GetPdfLinks` | app.py:39-65 | a failed fetch or parse gives the empty list; otherwise the loop's result is exactly `Select` of the page's anchors |
| `PdfLinks.Lower` | app.py:49 | lower-casing keeps the length, leaves no upper-case ASCII letter and leaves every other character as it is |
| `PdfLinks.LowerIdempotent` | app.py:49 | lower-casing an already lower-cased target changes nothing |
| `PdfLinks.LowerAppend` | app.py:49 | lower-casing a concatenation is concatenating the lower-cased parts, so a target's lower-cased suffix is the suffix of the lower-cased URL |
| `PdfLinks.PdfHrefByCharacters` | app.py:49 | the `.pdf` test holds iff the target has at least four characters and they end in '.', then p, d, f in either case |
| `PdfLinks.AbsoluteUrl` | app.py:51-56 | the URL always starts with `http` and ends with the original target; it equals the target iff the target starts with `http`; any other target ends up under `https://www.kw.ac.kr/` |
| `PdfLinks.Label` | app.py:59 | the label is never empty, and it equals the anchor text iff that text is non-empty |
| `PdfLinks.OriginsExact` | app.py:48-49 | the positions of selected anchors are strictly increasing and in range, and an anchor's position is among them iff its target passes the `.pdf` test |
| `PdfLinks.SelectAtOrigins` | app.py:46-61 | the result has one entry per selected position, and entry k is the label and URL built from the anchor at the k-th selected position |
| `PdfLinks.SelectCharacterised` | app.py:46-61 | combined characterisation: as many entries as `.pdf` anchors, in page order, duplicates kept, each built from its anchor |
| `PdfLinks.SelectAppend` | app.py:48-61 | selection over two runs of anchors is the concatenation of the two selections, so order is kept and nothing is deduplicated |
| `PdfLinks.SelectEmptyIff` | app.py:137-138 | the result is empty (the "no PDF found" message) iff no anchor has a `.pdf` target |
| `PdfLinks.PdfSuffixKept` | app.py:49-56 | a prefix put in front of a `.pdf` target leaves a `.pdf` target |
| `PdfLinks.AbsoluteUrlKeepsPdf` | app.py:49-56 | normalisation neither creates nor destroys a `.pdf` suffix |
| `PdfLinks.SelectedLinksWellFormed` | app.py:49-61 | every produced link has a URL starting with `http` that ends in `.pdf` in any case, and a non-empty label |
| `PdfLinks.AbsoluteUrlFullExample` | app.py:52 | `http://x.org/a.pdf` is kept unchanged |
| `PdfLinks.AbsoluteUrlRootRelativeExample` | app.py:53-54 | `/docs/file.pdf` becomes `https://www.kw.ac.kr/docs/file.pdf` |
| `PdfLinks.AbsoluteUrlBareExample` | app.py:55-56 | `file.pdf` becomes `https://www.kw.ac.kr/kw_service/file.pdf` |
| `PdfLinks.AbsoluteUrlBareHttpQuirk` | app.py:52 | a relative `httpdocs/a.pdf` is kept as it is, because only the prefix `http` is tested |
| `PdfLinks.AbsoluteUrlUpperCaseQuirk` | app.py:52-56 | `HTTP://x/a.pdf` is prefixed with the service path, because the prefix test is case-sensitive |
| `PdfLinks.SelectExample` | app.py:46-61 | a page with `/a/b.pdf` "Notice 1", `c.PDF` without text and `x.html` yields the first two links, the second with the placeholder label |
| `PdfText.DownloadAndParsePdf` | app.py:68-89 | a failed download or read gives `None`; otherwise the loop's text is `Concat` of the pages |
| `PdfText.ConcatAppend` | app.py:80-82 | joining two runs of pages is joining each and concatenating the results |
| `PdfText.ConcatLength` | app.py:80-82 | the text is exactly as long as all pages together: no separator is added between the documents `load_and_split` returns |
| `PdfText.PageAt` | app.py:80-82 | page k appears in the text at the offset equal to the length of the pages before it |
| `PdfText.ConcatEmptyIff` | app.py:80-82 | the text is empty iff every page is empty |
| `ChatSession.Session.constructor` | app.py:119-123 | a new session has no links, no document, no name and an empty history, and satisfies the invariant |
| `ChatSession.Session.Search` | app.py:131-142 | the links found are kept iff a URL was given and the list is non-empty; the document and history are unchanged |
| `ChatSession.Session.Load` | app.py:145-163 | loading happens iff an API key is given and the extracted text is present and non-empty; then the text and name are replaced and the history is exactly the greeting, whatever its previous length; otherwise nothing changes |
| `ChatSession.Session.Ask` | app.py:166-187 | a question counts iff a document is loaded and the query is non-empty; then the history grows by the user entry and, if the call returned, the assistant's answer, with earlier entries unchanged; the invariant is kept |
| `ChatSession.Conversation` | app.py:152-187 | search, load and two questions leave the greeting followed by the two exchanges in order |

## Left out

- The Streamlit UI: sidebar, inputs, buttons, spinners, chat rendering and the messages from `st.error`, `st.warning`, `st.success` and `st.info` (app.py:13-33 and 116-187 apart from the state updates). It is presentation only.
- The HTTP requests and their User-Agent header (app.py:42-43, 70). They are network I/O. Their outcome is a parameter of the model.
- HTML parsing with BeautifulSoup (app.py:44, 48), including the whitespace rule of `get_text(strip=True)`. It is a library call, so anchors arrive as `(href, stripped text)` pairs.
- The temporary file, PyPDFLoader's `load_and_split` and `os.remove` (app.py:72-78, 85). They are filesystem work and a library call; the documents `load_and_split` returns arrive as a sequence of strings, in order.
- `ask_gemini` (app.py:92-111): the environment variable, the prompt template and the model call. It is an external service; its answer is a parameter of `Session.Ask`, and `None` stands for a raised call.
- The exception handlers (app.py:63-65, 87-89): only their outcome is modelled, the empty list or `None`, and not the error message.
- PdfLinks.Lower: folds only the ASCII letters A-Z, while Python's `str.lower` folds every script. For the `.pdf` suffix test the two agree, because no character other than `.`, `P`, `D` and `F` and their lower-case forms lower-cases to `.`, `p`, `d` or `f`.
- The selection box (app.py:145-150) is not modelled; `Session.Load` instead requires the chosen link to be one of the links found, which is what the box guarantees.
