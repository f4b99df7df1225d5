# dof-chat core in Dafny

A model of the core of dof-chat, a chat demo that answers questions about
Mexico's Diario Oficial de la Federación (DOF). The model covers five parts:

- **Retrieval.** The vector chunk search (`VectorDb`) finds ranked chunks in a
  DuckDB store. It falls back to fixed mock data behind a circuit breaker
  that only ever opens. The DuckDB connection cache is modelled in
  `Database`.
- **Answering.** The mock pipeline (`RagService`) retrieves chunks, writes a
  templated answer and groups the chunks into document sources by type.
- **Rendering.** The renderer (`ContextRenderer`) turns the sources into a
  nested accordion of components. It also turns chunk Markdown into
  components, using Python's `re.split` (`RegexSplit`) and `html.escape`
  (`HtmlEscape`).
- **The browser client** (`ChatClient`).
  - The validator accepts the accordion HTML only when it holds the three
    required markers and matches none of six dangerous patterns.
  - The sanitiser walks the parsed tree. It strips inline event handlers and
    unsafe links.
  - The bot-message decision shows either the accordion or the escaped
    source list.
  - The submit cycle covers `handleSubmit`: the blank-input guard, the
    loading message and the re-enabled controls.
- **Sign-in** (`Auth`): the `authenticate_user` ladder and the
  `require_login` guard.

The request and response records (`Schemas`) and the settings the core reads
(`Settings`) are shared. The modules `Optional`, `Strings` and `Seqs` hold
`Option`/`Result`, string helpers (split, join, trim, decimal numerals,
substring search, ASCII lower-casing) and sequence helpers (first-seen
deduplication).

Everything outside the program becomes a parameter of the function that
uses it:

| outside input | modelled as |
|---|---|
| database file and `SELECT 1` probe | `Database.Env` |
| ranked query rows | `VectorDb.Store` |
| clock | a number |
| Air's `.render()` | `Node -> Option<string>`, `None` when it raises |
| browser's HTML parser | `string -> seq<Node>` |
| `new URL(...).protocol` | `string -> Option<string>`, `None` when it throws |
| bcrypt `checkpw` | `(string, string) -> Option<bool>`, `None` when it raises |

## Model

| member | source | states |
|---|---|---|
| VectorDb.NewService | services/vector_db_service.py:23-30 | A new service starts healthy (breaker closed) with no cached connection. |
| VectorDb.EffectiveLimit | services/vector_db_service.py:52 | `top_k or max_chunks`: a missing top_k or a zero top_k both mean the configured default `max_chunks` (5); any other value is used as given; with the default setting the limit is always positive. |
| VectorDb.MockData | services/vector_db_service.py:103-131 | The mock payload is the first min(3, k) fixed chunks and the first min(2, k) fixed documents, in their fixed order. |
| VectorDb.MockChunksReferToMockDocuments | services/vector_db_service.py:117-131 | Every mock chunk's document id names a document in the same mock payload, whatever the limit. |
| VectorDb.Assemble | services/vector_db_service.py:79-96 | One chunk per row, in row order. There are documents iff there are rows, and the first document is built from the first row. |
| VectorDb.AssembleRows | services/vector_db_service.py:79-96 | The row loop with its `seen_docs` set builds exactly the functional result: one chunk per row, and one document per first occurrence of a document id. |
| VectorDb.LiveChunks | services/vector_db_service.py:83-86 | Live chunks match the rows one for one and in row order; a missing text or header becomes the empty string. |
| VectorDb.LiveDocumentsDistinct | services/vector_db_service.py:88-93 | No two live documents share an id. |
| VectorDb.LiveDocumentsFirstRows | services/vector_db_service.py:88-93 | Each live document is built from the first row carrying its id, and documents follow the order of those first rows. |
| VectorDb.LiveDocumentIds | services/vector_db_service.py:79-96 | The live documents carry exactly the set of document ids of the rows, so every chunk's parent document is in the result. |
| VectorDb.FewerDocumentsThanChunks | services/vector_db_service.py:79-96 | A live result never has more documents than chunks. |
| VectorDb.Search | services/vector_db_service.py:32-101 | Force-mock and an open breaker both serve mocks and leave the service unchanged. Otherwise it connects. A connect or query failure opens the breaker and serves mocks. A success serves the first k ranked rows assembled. |
| VectorDb.LiveLimit | services/vector_db_service.py:63-77 | A live answer has at most k chunks and at most k documents, and its chunks come from the first k ranked rows. |
| VectorDb.ZeroTopKMeansDefault | services/vector_db_service.py:52 | A search with top_k = 0 is the same call as a search with no top_k and as a search with top_k = 5, the configured default. |
| VectorDb.OpenBreakerStaysOpen | services/vector_db_service.py:60-61 | Once the breaker is open, any sequence of later calls leaves the service unchanged and each call is answered with the mock payload for its own limit. |
| VectorDb.FailureTripsForGood | services/vector_db_service.py:98-101 | One failing live call opens the breaker for good: it and every later call are answered from the mocks. |
| VectorDb.HealthNeverRecovers | services/vector_db_service.py:23-101 | Over any run of calls the service can only go from healthy to unhealthy, never back. |
| VectorDb.UnreachableStoreServesMocks | services/vector_db_service.py:52-101 | When the database file is missing, the first call with top_k = 3 is answered with the three mock chunks and two mock documents, and so is every later call. |
| Database.NewManager | database.py:13-20 | An empty or missing path falls back to the configured database path; no connection is cached. |
| Database.Connect | database.py:22-47 | A missing file fails before the cache is looked at. A cached connection is reused only when the `SELECT 1` probe returns the row `(1,)`. Otherwise a new connection is opened and cached. A success always leaves the returned connection cached. |
| Database.Close | database.py:82-86 | Closing drops the cached connection and keeps the path; with nothing cached it changes nothing. |
| Database.TestConnection | database.py:88-113 | Never raises. It reports success exactly when `connect` succeeds, with the database path. On failure it reports the connect error's message. |
| Database.NewManagerDefaults | database.py:13-47 | A missing and an empty path both give the configured path. A fresh manager's first connect never consults the probe. On a missing file it reports the fallback path in its message. |
| Database.CloseIdempotent | database.py:82-86 | Closing twice is closing once. |
| Database.MissingFileBeatsCache | database.py:28-30 | A missing file fails the call even when a healthy connection is cached, and the cache is kept. |
| Database.ConnectThenReuse | database.py:33-47 | After a successful connect, a second connect whose probe passes returns the same connection and state. |
| Database.FailedProbeReopens | database.py:36-45 | A probe that raises or returns anything but `(1,)` behaves exactly like having no cached connection. |
| RagService.Initialize | rag_service.py:42-64 | After initialise the service is initialised. A second call is a no-op. A first call tests the database connection, whatever that test reports. |
| RagService.InitializeIdempotent | rag_service.py:44-45 | A second initialise changes nothing, whatever the database does then. |
| RagService.InitializeDespiteDatabaseError | rag_service.py:54-61 | A failed connection test does not stop initialisation. |
| RagService.SearchChunks | rag_service.py:93-134 | Returns the first min(3, k) of the three predefined chunks, in order; only a missing top_k takes the default. |
| RagService.SearchChunksMonotone | rag_service.py:134 | A smaller request is a prefix of a larger one. |
| RagService.SearchChunksZeroAndDefault | rag_service.py:103-104 | top_k = 0 gives no chunks; a missing top_k gives all three under the default `max_chunks` of 5. |
| RagService.GenerateAnswer | rag_service.py:145-185 | `.strip()` changes nothing. The answer starts with the found template exactly when there are chunks, and with the not-found template exactly when there are none. |
| RagService.AnswerLines | rag_service.py:166-182 | Read line by line, the found answer is: the introduction quoting the query, an empty line, the count line, one bullet per chunk naming its type and header, and the closing lines. |
| RagService.CountLineDetermines | rag_service.py:173 | Different chunk counts give different count lines. |
| RagService.MetaFor | rag_service.py:283-302 | LEY and REGLAMENTO have their own title, url and publication date. Any other type gets the NORMA title, url and date. |
| RagService.MetaForEntries | rag_service.py:283-302 | Every type other than LEY and REGLAMENTO gets exactly the NORMA entry. The three entries differ in title, date and url. |
| RagService.CreateDocumentSources | rag_service.py:261-316 | No chunks give no sources. Each source holds exactly the chunks of the type it is tagged with and carries that type's title and url. Its age row reads "date (Reciente) 🟢" with that type's date. |
| RagService.SourcesByType | rag_service.py:274-314 | There is one source per distinct document type, in order of each type's first chunk. Each source holds exactly that type's chunks, in input order, with the metadata of its type. |
| RagService.SourcesHaveDistinctTypes | rag_service.py:274-279 | No two sources carry the same document type. |
| RagService.SourcesCoverTypes | rag_service.py:274-279 | Every chunk's document type has a source. |
| RagService.GroupingIsPermutation | rag_service.py:274-279 | The groups together hold every input chunk exactly as often as the input does. |
| RagService.SourceHeaders | rag_service.py:237 | The plain source list has no empty entry and is never longer than the chunk list. |
| RagService.SourceHeadersContents | rag_service.py:237 | A header is listed exactly when some chunk has it and it is non-empty. Headers keep chunk order, and the list of a concatenation is the concatenation of the lists. |
| RagService.ContextHtml | rag_service.py:219-234 | A successful render is the context HTML unchanged; when rendering raises, the context HTML is the empty string. |
| RagService.Query | rag_service.py:187-259 | Query always initialises first. Any failure yields the apology with empty context and no sources. Otherwise the answer comes from the default chunks, the sources are their non-empty headers, and the context HTML is the rendering of their container under the id `q<seconds>`. |
| RagService.Respond | rag_service.py:205-246 | A query that does not fail answers from the default chunks, renders their sources' container under the id `q<seconds>` into the context HTML, and lists the chunks' non-empty headers. |
| RagService.QueryOfMockChunks | rag_service.py:187-259 | A successful query counts three documents on the answer's third line and lists the three predefined headers in order. Its context HTML renders a container tagged with the query id whose summary announces three documents and which holds the LEY, REGLAMENTO and NORMA sections, in that order and with those titles. |
| ContextRenderer.InlineFormatting | utils/context_renderer.py:235-268 | The empty line gives no components. A whitespace-only line stays as one raw text. Any other line gives at least one component. |
| ContextRenderer.InlineFormattingLossless | utils/context_renderer.py:235-268 | Decoding the components and putting back the `**` and `*` marks gives the line back: inline formatting loses no text. |
| ContextRenderer.InlineMarkup | utils/context_renderer.py:249-266 | The `Strong` components of a line hold, in order, the escaped captures of the bold split. The `Em` components hold the escaped italic captures of the text between the bold matches. |
| ContextRenderer.PlainLine | utils/context_renderer.py:249-268 | A non-empty line without `*` is its escaped text alone. |
| ContextRenderer.BoldLine | utils/context_renderer.py:250-266 | A line that is `**x**`, for x without stars or line breaks, becomes a single `Strong` holding x escaped. |
| ContextRenderer.HeadingLevel | utils/context_renderer.py:215-222 | The level is the longest `#`-run prefix of 1 to 4 marks followed by a space. Level 0 means no such prefix. |
| ContextRenderer.LineComponents | utils/context_renderer.py:213-226 | A `#### ` line becomes one H4 holding the rest of the line escaped. A line without a heading prefix gets the inline formatting. |
| ContextRenderer.LineComponentsLossless | utils/context_renderer.py:213-226 | Every line, heading or not, reads back from its components. |
| ContextRenderer.MarkdownAsWritten | utils/context_renderer.py:198-232 | The Markdown conversion as written: empty text gives one empty text component. |
| ContextRenderer.MarkdownAsWrittenReadsBack | utils/context_renderer.py:198-232 | For every text, the as-written components read back to the lines in order. Each line is followed by a newline exactly when it differs from the last line. |
| ContextRenderer.JoinAsWrittenVersusJoin | utils/context_renderer.py:224-230 | When no earlier line repeats the last one, the as-written read-back is the lines joined by newlines. Otherwise it is strictly shorter. |
| ContextRenderer.MarkdownAsWrittenLosslessIff | utils/context_renderer.py:198-232 | The as-written components read back to the text exactly when no earlier line repeats the last line. |
| ContextRenderer.MarkdownAsWrittenDropsBreak | utils/context_renderer.py:229-230 | As written, "a\na" loses its line break (it reads back as "aa"). The positional rule reads back as "a\na". |
| ContextRenderer.MarkdownAgreesWithoutRepeatedLastLine | utils/context_renderer.py:229-230 | When no earlier line repeats the last one, the as-written conversion equals the corrected one. |
| ContextRenderer.MarkdownComponents | utils/context_renderer.py:198-232 | The corrected conversion, with a line break after every line but the final one: empty text gives one empty text component. |
| ContextRenderer.MarkdownLossless | utils/context_renderer.py:198-232 | With the corrected rule, the components read back to the whole text. |
| ContextRenderer.FormatChunkCollapsible | utils/context_renderer.py:159-195 | A fragment is a `chunk-details` accordion: a summary titled "Fragmento i", plus " - header" when there is a header, and the chunk text converted by the Markdown loop as written. |
| ContextRenderer.FragmentContentReadsBack | utils/context_renderer.py:159-232 | When no earlier line of a chunk repeats its last line, the fragment shows the corrected conversion and reads back to the chunk text. |
| ContextRenderer.FragmentTitleRoundTrip | utils/context_renderer.py:176-178 | A fragment title reads back as its number and its header. |
| ContextRenderer.AgeText | utils/context_renderer.py:271-289 | With both age fields: date (or "Fecha no especificada"), description and emoji. Else with a date: date and "❓". Else "Fecha no disponible ❓". |
| ContextRenderer.AgeTextShape | utils/context_renderer.py:271-289 | The age row starts with the date, or with "Fecha no " when there is none. It ends with the emoji when both age fields are set and with " ❓" otherwise. For an emoji that does not end in "❓", a final "❓" appears exactly when the description is missing. |
| ContextRenderer.FormatDocumentSection | utils/context_renderer.py:96-156 | A document section is an accordion whose summary shows the title (or the default). Its content has 1 + [url present] + n rows for n chunks. |
| ContextRenderer.DocumentSectionLayout | utils/context_renderer.py:96-156 | A document section holds the age row, then the link row exactly when the url is non-empty, then one fragment per chunk numbered from 1 in order. |
| ContextRenderer.DocumentSummary | utils/context_renderer.py:104-144 | The summary shows the title, or "Documento sin título" for an empty one, and the number of fragments. |
| ContextRenderer.RenderSourcesContent | utils/context_renderer.py:85-93 | One document section per source, numbered from 1, in order. |
| ContextRenderer.RenderEmbeddedSources | utils/context_renderer.py:45-82 | No sources gives an empty container; otherwise the `embedded-sources-container` accordion. |
| ContextRenderer.RenderedStructure | utils/context_renderer.py:45-93 | A non-empty source list renders one section per source in order, each titled with its document title. The count announced in the summary reads back as the number of sources. |
| RegexSplit.FindMatch | utils/context_renderer.py:41-42 | Finds the leftmost match of the bold or italic pattern at or after a position; no match starts before it. |
| RegexSplit.ReSplit | utils/context_renderer.py:250-255 | `re.split` with one capture group gives an odd number of parts, with the captures at the odd indices. |
| RegexSplit.RejoinReSplit | utils/context_renderer.py:250-255 | `re.split` with one capture group loses no text: putting the delimiters back around the captures gives the input. |
| RegexSplit.CapturesShape | utils/context_renderer.py:41-42 | Italic captures are non-empty and star-free; bold captures hold no line break. |
| HtmlEscape.Escape | utils/context_renderer.py:260-266 | `html.escape` leaves no `<`, `>` or quotes, and leaves text without special characters unchanged. |
| HtmlEscape.UnescapeEscape | utils/context_renderer.py:260-266 | Escaping loses nothing: the escaped text decodes back to the original. |
| Schemas.ValidateChatQuery | schemas.py:93-105 | A chat text is accepted iff it has 1 to 1000 characters. The empty text is refused as too short, a longer text as too long. |
| Schemas.ChunkDataDefaults | schemas.py:14-32 | A chunk built from its text alone has an empty header and the type "DOCUMENTO". |
| Schemas.DocumentSourceDefaults | schemas.py:35-69 | A source built from its title alone has no fragments, no metadata, no url and no dates. |
| Schemas.HealthCheckDefaults | schemas.py:125-134 | The default health document reports status "ok", service "dof-chat" and version "0.1.0". |
| Schemas.EnrichedChatResponseDefaults | schemas.py:72-90 | A response built from its answer alone has no context HTML and no sources. |
| ChatClient.Test | static/js/chat.js:7-14 | Running a pattern's test finds a match exactly when one exists. The literal patterns match ASCII case-insensitively. `on\w+\s*=` backtracks over the word run. |
| ChatClient.HandlerAtIff | static/js/chat.js:10 | The greedy scan for `on\w+\s*=` at one index succeeds iff some split of the text there fits the pattern. |
| ChatClient.IsValidAndSafe | static/js/chat.js:131-143 | Accepts exactly the non-empty strings that contain all three required markers and match none of the six dangerous patterns. |
| ChatClient.DangerIgnoresCase | static/js/chat.js:7-14 | Two texts equal up to ASCII case match the same dangerous patterns. |
| ChatClient.SanitizeHref | static/js/chat.js:180-198 | Only `href` can go. It stays iff it is empty, starts with `/` or `#`, or parses to http: or https:. Every other attribute is kept unchanged. |
| ChatClient.CleanAttributes | static/js/chat.js:169-176 | After one visit no listed handler remains, and any link is allowed. Only the handlers and a rejected link were removed. |
| ChatClient.SanitizeNode | static/js/chat.js:157-178 | Text is kept. An element keeps its tag and its number of children; its attributes come out clean and lost only handlers and a rejected link. |
| ChatClient.SanitizeClean | static/js/chat.js:157-178 | Every element of a sanitised subtree has clean attributes. |
| ChatClient.SanitizeKeeps | static/js/chat.js:157-178 | Sanitising changes nothing but attributes: the same shape, tags and text, and each element lost only handlers and a rejected link. |
| ChatClient.SanitizeIdempotent | static/js/chat.js:157-178 | Sanitising changes a subtree iff it is not clean, and a second pass changes nothing. |
| ChatClient.SanitizeElement | static/js/chat.js:157-178 | The walker does not visit the root, so the root's attributes stay. Every child subtree comes out clean and otherwise intact. |
| ChatClient.SetSafeHtml | static/js/chat.js:145-155 | Each parsed node comes out clean and otherwise intact. |
| ChatClient.EscapeHtml | static/js/chat.js:200-204 | The escaped text holds no `<` or `>`. |
| ChatClient.UnescapeEscapeHtml | static/js/chat.js:200-204 | Decoding the four entities `escapeHtml` writes gives the original text back. |
| ChatClient.NormalizeEscape | static/js/chat.js:200-204 | Escaping touches neither CR nor LF, so it commutes with the parser's newline normalisation. |
| ChatClient.ParsedEscapedText | static/js/chat.js:200-204 | The browser shows an escaped source title as the title with CR LF and lone CR turned into LF and NUL dropped. A title without CR or NUL is shown as itself. |
| ChatClient.CrLfShownAsLf | static/js/chat.js:200-204 | A CR LF pair in a title is shown as one LF. |
| ChatClient.NulNotShown | static/js/chat.js:200-204 | A NUL in a title is not shown. |
| ChatClient.AddBotResponse | static/js/chat.js:100-129 | The answer is shown as text. The accordion is shown iff the context HTML is non-blank and passes the validator, and it is sanitised. Otherwise, non-empty sources are listed after "Fuentes:", escaped and joined with `<br>`. |
| ChatClient.SourcesListTags | static/js/chat.js:124-129 | In the source list every `<` opens a `<br>`: a title's markup never reaches the page as markup. |
| ChatClient.RemoveMessage | static/js/chat.js:206-208 | The removed entry is a message carrying the id, and no earlier message carries it, so it is the first one. Everything else stays in order. An unknown id changes nothing. |
| ChatClient.RemoveLoadingKeepsUser | static/js/chat.js:206-208 | With the user's message above the loading message, removing the loading id leaves exactly the user's message. |
| ChatClient.Submit | static/js/chat.js:49-57 | A blank input sends nothing and changes nothing. Otherwise the message sent is `Trim` of the input: non-empty and without whitespace at either end. The input is cleared, the controls are disabled, and the user and loading messages are appended. |
| Strings.Trim | static/js/chat.js:50 | The result is empty iff the input is all whitespace. Otherwise it starts and ends with a non-whitespace character. It is the slice of the input between an all-whitespace prefix and an all-whitespace suffix. |
| Strings.TrimIsTheSlice | static/js/chat.js:50 | Any non-empty slice with no whitespace at either end and only whitespace before and after it is exactly what `trim()` returns, so `Trim`'s result is determined. |
| ChatClient.Complete | static/js/chat.js:59-70 | Settling a request re-enables the controls and keeps the input. The window loses the loading message and gains the bot message on success, or the error message on failure. |
| ChatClient.CompleteRemovesLoading | static/js/chat.js:59-70 | With distinct message ids, no message carrying the loading message's id is left above the reply. |
| ChatClient.SubmitNumbered | static/js/chat.js:49-57 | Message ids stay fresh and increasing in window order across a submit. |
| ChatClient.CompleteNumbered | static/js/chat.js:59-70 | Message ids stay fresh and increasing across the settling of a request, whatever the outcome. |
| ChatClient.SubmitThenComplete | static/js/chat.js:49-70 | A full exchange appends exactly the user message and the reply (the loading message is gone), re-enables the controls, and leaves the input empty. |
| ChatClient.SubmittedTextIsNeverTooShort | static/js/chat.js:50-51 | A submitted text always has at least one character, so the server never refuses it as too short. |
| Auth.Lookup | routers/auth.py:71-77 | Finds no user iff no row matches the identifier (username or email); otherwise the first matching row. |
| Auth.AuthenticateUser | routers/auth.py:56-88 | The ladder as written: not_found, then the password check (with a missing hash checked as ""), then inactive, then success. It raises iff checkpw raises. On success exactly one of user and reason is present. |
| Auth.MissingHashRaises | routers/auth.py:82 | As written, a user without a password hash makes the call raise when checkpw refuses the empty hash. |
| Auth.AuthenticateUserChecked | routers/auth.py:79-88 | Corrected: a missing hash is answered invalid_password without calling checkpw. Otherwise the ladder is unchanged, and a success always has a hash. |
| Auth.RequireLogin | routers/auth.py:167-188 | Passes iff the request has a session whose "user" entry is truthy, and returns that entry. Otherwise it redirects with 307 to /login. |
| Auth.NoSessionRedirects | routers/auth.py:179-186 | A missing session, a missing user entry and an empty user entry are all redirected alike. |

## Left out

- The embedding computation (`embed_query`, a seeded random vector) is not modelled. Nothing in the core depends on its values.
- The SQL cosine ranking is left out. The store hands the service its rows already ranked.
- Schema mismatch in the vector service:
  - `services/vector_db_service.py` imports a `Document` record that `schemas.py` does not define.
  - It passes a `document_id` that `ChunkData` does not declare.
  - The model gives the service its own chunk and document records, with the fields the service sets.
- The process-wide singletons (`get_vector_db_service`, `get_rag_service`, `get_database_manager`) and any threading are left out. Each service is a value passed along.
- `execute_query` in database.py is left out; the core does not call it.
- Logging is left out everywhere.
- Settings.MaxChunks and Settings.DatabasePath are config.py's defaults (5 and "dof_db/db.duckdb"). `Settings` is a pydantic `BaseSettings`, so the environment or `.env` can override them, and the model does not cover that. In particular, VectorDb.EffectiveLimit is positive and RagService.SearchChunksZeroAndDefault returns all three chunks for a missing top_k only under the default; a `max_chunks` of 0 or below 3 would change both.
- Timestamps: the clock is a parameter, and creation times are opaque values.
- `RagService.Query` collapses every failure after initialisation into one flag of the environment. It does not model which step raised.
- Air's `.render()` of the component tree is a parameter. Components are modelled as a tree, not serialised to HTML.
- The browser side is abstracted:
  - The DOM, `fetch`, focus and scrolling are left out.
  - The parsed HTML is a tree of elements with lower-cased attribute names, as the HTML parser produces.
  - The final `innerHTML` serialise-and-reparse is taken to give back the same tree.
- Random message ids (`crypto.randomUUID`) are modelled as a counter, so ids are fresh by construction.
- The bcrypt internals are left out. So are `get_password_hash` and `generate_csrf_token`, which the ladder does not use.
- `hasattr(request, "session")` is modelled as an optional session.
- `if context_component:` in `query` is taken to hold for every component that `render_embedded_sources` returns. An Air tag is assumed truthy, so the model always renders.
- RagService.QueryOfMockChunks states which component the context HTML renders, not the HTML string: `.render()` is a parameter.
- ChatClient.ParsedText models how the browser parses only markup without tags, the output of `escapeHtml`. Named references other than the four `escapeHtml` writes are not decoded.
- VectorDb.EffectiveLimit treats top_k = 0 as the default, because of Python's `or`. RagService.SearchChunks treats only a missing top_k as the default. Both behaviours follow the code. The model does not unify them.

## Findings

| source | as written | input that shows it | evidently intended | confidence | as-written member | corrected member |
|---|---|---|---|---|---|---|
| utils/context_renderer.py:229-230 | a `Br` follows a line when `line != lines[-1]`, which compares values, not positions | the text "a\na": its first line equals the last, so no break is emitted and the lines run together as "aa" | a break after every line except the final one | not executed | ContextRenderer.MarkdownAsWrittenDropsBreak | ContextRenderer.MarkdownLossless |
| routers/auth.py:82 | a missing password hash is checked as `""` | a user row whose `password_hash` is NULL: `bcrypt.checkpw` raises on the empty hash instead of returning false | answer "invalid_password" | not executed | Auth.MissingHashRaises | Auth.AuthenticateUserChecked |
