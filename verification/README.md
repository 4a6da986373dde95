# Researcher Pro in Dafny

A Dafny model of the deterministic core of Researcher Pro (PubMedSearchBot), a voice research
assistant. The user talks to a real-time speech assistant. The assistant can call a PubMed
search tool served by a small Python backend. The client also keeps bookmarks and a search
history, exports citations, and installs a service worker.

The model has five parts, each a module of pure functions over immutable datatypes:

- `VoiceSession` (`voice_session.dfy`): the `useVoiceBot` hook as a state machine.
  - `Step(session, event)` returns the next session and the effects, in order: messages sent
    on the data channel, capture and connection requests, handles closed, and tool requests
    posted to the backend.
  - `Run` folds `Step` over a list of events.
  - The status is `idle | listening | thinking | speaking`. The session also holds the
    `isInitializing` guard, the held handles, and the call ids of tool fetches still in flight.
- `PubMed` and `FullText` (`pubmed.dfy`, `full_text.dfy`): the pure parts of the backend's
  `proxy_pubmed` and `get_full_text`. Each starts from already-parsed inputs: the id list, the
  summary, abstract and MeSH maps, the converter records, and the (title, content) section
  pairs. `Papers` (`papers.dfy`) holds the paper record the two sides share.
- `CitationExport` (`citation_export.dfy`): `formatCitation` for APA, MLA and BibTeX.
- `ResearcherStorage` (`researcher_storage.dfy`): bookmarks and search history as sequence
  functions. What was stored and the clock readings are parameters.
- `ServiceWorker` (`service_worker.dfy`): the fetch routing decision, the cache-first policy,
  install and activate, with the cache storage as a map value.

`Strings` (`strings.dfy`) gives the host-language string built-ins their exact semantics
(case mapping ASCII only, see Left out):

- Python's `str.join`, `split()[0]`, `strip()` and the two `re.sub` patterns the backend uses;
- JavaScript's `split`, `trim` and `toLowerCase`.

`Wrappers` (`wrappers.dfy`) holds `Option` and `Result`.

Python exceptions become `Result` failures. For example, `pubdate.split()[0]` on a
whitespace-only date raises `IndexError` and aborts the whole search request. The model
returns `Failure(PubdateIndexError(uid))` for the first such record.

The model follows the hook as written:

- There is no `negotiating` status. The guard flag plays that role, and the status becomes
  `thinking` as soon as capture succeeds.
- There is no wake-phrase gate and no barge-in flag. `input_audio_buffer.speech_started` always
  sets `listening` and sends `response.cancel`, whatever the prior status.
- A tool answer does not set `listening`. The status stays `thinking` until the assistant's
  own events move it.
- A failed tool fetch delivers nothing back to the assistant. The error is caught and logged.
- Only `search_pubmed` is dispatched. A `get_full_text` call is ignored like any other name.
- `stopSession` does not clear the remote audio element.

## Model

| member | source | states |
|---|---|---|
| `VoiceSession.Classify` | client/src/hooks/useVoiceBot.ts:71-88 | each of the four recognised `type` strings maps to its own inbound kind, in both directions; any other type is kept as `Other` |
| `VoiceSession.Closes` | client/src/hooks/useVoiceBot.ts:16-19 | teardown closes each held handle once, in the order data channel, audio context, peer connection: one close per held handle, the channel's first and the peer connection's last, and a handle is closed exactly when it is held |
| `VoiceSession.StopSession` | client/src/hooks/useVoiceBot.ts:16-25 | from any state: idle, guard cleared, no audio context, peer connection or data channel, no call in flight, remote audio element untouched, and the held handles closed |
| `VoiceSession.StartSession` | client/src/hooks/useVoiceBot.ts:27-128 | a no-op while the guard is set or the status is listening, thinking or speaking; otherwise capture is requested first. A capture failure or a connection failure ends exactly as `stopSession` does; full success gives `thinking` with all handles held and exactly `[capture, connect]`. The guard is false on every exit path |
| `VoiceSession.OnMessage` | client/src/hooks/useVoiceBot.ts:65-116 | audio delta gives speaking; response done gives listening; speech started gives listening plus one `response.cancel`. `search_pubmed` gives thinking and posts the parsed arguments unchanged, recording the call id; unparseable arguments give thinking and send nothing. Other names, other types and malformed payloads change nothing and send nothing. Handles are never touched |
| `VoiceSession.OnToolResult` | client/src/hooks/useVoiceBot.ts:93-111 | an answer for an in-flight call sends the output tagged with the same call id, then `response.create`, in that order, and retires that one call id; a failed fetch sends nothing; an unknown call id changes nothing |
| `VoiceSession.Step` | client/src/hooks/useVoiceBot.ts:27-67 | only a start acquires handles or asks for capture or a connection; channel events without a held data channel have no effect |
| `VoiceSession.ChannelEvents` | client/src/hooks/useVoiceBot.ts:52-63 | in a settled session the channel opening while live sends exactly one greeting and gives listening; while idle no channel event has any effect |
| `VoiceSession.StepSettled` | client/src/hooks/useVoiceBot.ts:16-128 | every event keeps the resource invariant: idle exactly when no data channel is held; nothing but the audio element held while idle; all three handles held otherwise; guard clear |
| `VoiceSession.RunSettled` | client/src/hooks/useVoiceBot.ts:16-128 | every session reachable from the initial one satisfies that invariant |
| `VoiceSession.StartWhileLive` | client/src/hooks/useVoiceBot.ts:29 | starting while a session is live acquires nothing and changes nothing |
| `VoiceSession.StepCorrelation` | client/src/hooks/useVoiceBot.ts:87-111 | one event's tool outputs plus the calls still in flight never exceed the calls in flight before plus the call that event requests (as multisets of call ids) |
| `VoiceSession.RunAccounts` | client/src/hooks/useVoiceBot.ts:87-111 | the same accounting over any run of events |
| `VoiceSession.RunCorrelation` | client/src/hooks/useVoiceBot.ts:87-111 | from the initial session, every tool output carries the call id of a requested `search_pubmed` call, and no id is answered more often than it was requested |
| `VoiceSession.ToolCallScenario` | client/src/hooks/useVoiceBot.test.tsx:60-94 | start, channel open, `search_pubmed` call `call_123`, answer: the effects are exactly capture, connect, greeting, POST of the arguments, output tagged `call_123`, `response.create` |
| `PubMed.AuthorNames` | server/server.py:208 | the names of the author entries that have one, none invented; all of them when every entry has a name |
| `PubMed.AuthorNamesAppend` | server/server.py:208 | taking names distributes over concatenation, so the names keep entry order and multiplicity |
| `PubMed.AuthorNamesOne` | server/server.py:208 | a single entry contributes its name exactly when it has one |
| `PubMed.AuthorSegment` | server/server.py:211-213 | up to three names are joined by `", "`; beyond three, the first three joined and then `" et al."` |
| `PubMed.Year` | server/server.py:216 | `N/A` for a missing or empty date; the first whitespace-separated word otherwise; the IndexError exactly when the date is whitespace only |
| `PubMed.VolumeSegment` | server/server.py:225-231 | empty exactly when the volume is empty; otherwise `year;volume`, then `(issue)` only for a non-empty issue, then `:pages` only for non-empty pages, then `.` |
| `PubMed.Citation` | server/server.py:222-231 | the author segment with a full stop, the title, then the journal with a full stop, separated by single spaces; the volume part follows after one more space only when non-empty |
| `PubMed.BuildPaper` | server/server.py:205-243 | a record fails exactly when its publication date aborts, and the failure names that id |
| `PubMed.BuildPaperFields` | server/server.py:233-242 | the id and link of the request; title `No Title`, journal `Unknown`, abstract `Abstract not available.` and MeSH terms `[]` when absent; all author names joined; the citation starts with the fixed head, has a volume part exactly when there is a volume, and then ends with one space and the `year;volume(issue):pages.` part of the record's own year, with nothing between the two (the length is exactly head, space and volume part) |
| `PubMed.Kept` | server/server.py:202-205 | every kept id is a search id with a summary, every such id is kept, and no more ids than searched |
| `PubMed.KeptAppend` | server/server.py:202-205 | keeping distributes over concatenation, so the kept ids stay in search order |
| `PubMed.KeptOne` | server/server.py:203-204 | a single id is kept exactly when it has a summary |
| `PubMed.FormatPapers` | server/server.py:144-245 | an empty id list gives an empty list; on success there is one record per kept id, in order, each the record built for that id |
| `PubMed.BuildAll` | server/server.py:202-243 | the build result of each kept id, in order, failing exactly for the records whose date aborts |
| `PubMed.FormatPapersAbortFails` | server/server.py:216 | any kept record whose date aborts makes the whole request fail |
| `PubMed.FormatPapersFirstError` | server/server.py:201-216 | a failing request carries the id of the first kept record that aborts, and no earlier kept record aborts |
| `PubMed.Collect` | server/server.py:201-245 | the loop succeeds exactly when every record does, with the values in order; otherwise it carries the first failure |
| `FullText.CleanText` | server/server.py:314-315 | cleaned text has no whitespace at either end, no whitespace other than single spaces, and no two spaces in a row |
| `FullText.CleanTextWords` | server/server.py:314-315 | cleaned text is exactly the whitespace-separated words of the text with tags replaced by spaces, joined by single spaces |
| `FullText.CleanTitle` | server/server.py:302-303 | `Title not found` when there is no title; no tag is left in a cleaned title; a tag-free title is only stripped |
| `FullText.Put` | server/server.py:318 | dict assignment keeps keys unique; it overwrites an existing key in place or appends a new key at the end; every other key's value is unchanged |
| `FullText.KeptContent` | server/server.py:317-318 | a section is kept exactly when its cleaned text exceeds 100 characters; kept text is a prefix of the cleaned text: the whole text when it has at most 3000 characters, exactly its first 3000 otherwise |
| `FullText.CollectSections` | server/server.py:312-318 | the dict has unique keys and every value is 101 to 3000 characters long |
| `FullText.CollectSectionsLookup` | server/server.py:312-318 | the value under a title is that of the last long-enough section with that stripped title |
| `FullText.CollectSectionsKeys` | server/server.py:312-318 | the keys are in first-insertion order: the distinct stripped titles of the long-enough sections at their first appearance, later repeats overwriting the value but not moving the key |
| `FullText.CollectSectionsEmpty` | server/server.py:317-321 | the dict is empty exactly when no section is long enough |
| `FullText.WithAbstract` | server/server.py:321-326 | the cleaned abstract is added under `Abstract` only when no section survived |
| `FullText.Blocks` | server/server.py:331-332 | one block per section, in dict order, with the upper-cased name |
| `FullText.LayoutRendered` | server/server.py:329-340 | `full_text` is the title line followed, for each section, by a blank line, the upper-cased name with a colon, a newline and the content |
| `FullText.GetFullText` | server/server.py:276-342 | not in PMC exactly when there is no conversion record or the first lacks `pmcid`, echoing the pmid with the fixed messages; otherwise the PMC link, the cleaned title, unique section keys and the `TITLE:` layout |
| `FullText.FoundSections` | server/server.py:312-326 | when some raw section is long enough, a found article's sections are exactly the collected dict, each value of 101 to 3000 characters and each title holding its last long-enough section; otherwise the cleaned abstract alone, or nothing |
| `Strings.Split` | client/src/components/CitationExport.tsx:12 | the pieces are free of the separator, at least one, and joining them back with the separator gives the input |
| `Strings.SplitJoin` | client/src/components/CitationExport.tsx:12 | splitting a join of separator-free pieces gives back those pieces |
| `Strings.PyFirstWord` | server/server.py:216 | the first whitespace-delimited word: non-empty, whitespace-free, found after the leading whitespace and ended by whitespace or the end; absent exactly when the text is all whitespace |
| `Strings.PyStrip` | server/server.py:303 | the text between the leading and trailing whitespace runs, empty exactly when the text is all whitespace |
| `Strings.JsTrim` | client/src/components/CitationExport.tsx:12 | the text between the leading and trailing JavaScript whitespace runs |
| `Strings.CollapseSingleSpaced` | server/server.py:315 | after collapsing, no two spaces are adjacent |
| `Strings.CollapseKeepsText` | server/server.py:315 | collapsing keeps every non-whitespace character, in order |
| `Strings.StripTags` | server/server.py:314 | tag-free text is unchanged; with a replacement free of `<` and `>` no tag is left, and no `>` appears that was not there |
| `Strings.StripTagsIdempotent` | server/server.py:314 | removing tags twice is removing them once |
| `Strings.Words` | server/server.py:216 | `split()`: non-empty, whitespace-free words, none exactly when the text is all whitespace |
| `Strings.WordsFirst` | server/server.py:216 | `split()[0]` is the first of the words |
| `Strings.NatToStringRoundTrip` | client/src/hooks/useResearcherStorage.ts:69 | the decimal rendering of the clock reads back as the same number |
| `CitationExport.AuthorList` | client/src/components/CitationExport.tsx:12 | one trimmed author per comma-separated piece, at least one |
| `CitationExport.FirstAuthor` | client/src/components/CitationExport.tsx:13 | the first author, or `Unknown` when it is empty; never empty |
| `CitationExport.CitationYear` | client/src/components/CitationExport.tsx:14 | the text before the first space of the date, or `n.d.` when that is empty or the date is missing; never empty and space-free |
| `CitationExport.ApaAuthors` | client/src/components/CitationExport.tsx:19-21 | beyond two authors the first with ` et al.`; one author alone; two joined by ` & ` |
| `CitationExport.BibKey` | client/src/components/CitationExport.tsx:30 | the lower-cased first word of the first author followed by the year, with no space |
| `CitationExport.FormatCitation` | client/src/components/CitationExport.tsx:11-37 | every character is pinned: APA is the author part, the parenthesised year and `. `, then the title, then `. `, the journal and `.`; MLA is the first author, `. ` and the quoted title, then the journal, then `, `, the year and `.`; BibTeX is the key line and the title line, then the raw author string, then the journal and year lines and the PubMed id line |
| `CitationExport.YearShown` | client/src/components/CitationExport.tsx:14-35 | the parenthesised year sits right after the APA author part, the MLA line ends with the year, and the BibTeX key ends with it |
| `CitationExport.EmptyAuthors` | client/src/components/CitationExport.tsx:12-26 | an empty author string gives an empty APA author part but `Unknown` under MLA |
| `CitationExport.AuthorListOfJoined` | client/src/components/CitationExport.tsx:12 | the backend's `", "`-joined author string splits and trims back into the same names |
| `CitationExport.BackendAuthorsCited` | client/src/components/CitationExport.tsx:12-26 | a backend paper is cited under its first name in MLA, and in APA beyond two names |
| `CitationExport.FirstAuthorOnly` | client/src/components/CitationExport.tsx:19-26 | MLA, and APA beyond two authors, depend only on the first author |
| `CitationExport.BibtexCarriesIdAndAuthors` | client/src/components/CitationExport.tsx:31-37 | papers with brace-free author strings that differ in authors or id get different BibTeX entries |
| `CitationExport.BibtexRecordDistinct` | client/src/components/CitationExport.tsx:31-37 | the author field and the id field are both recoverable from the entry |
| `ResearcherStorage.Initial` | client/src/hooks/useResearcherStorage.ts:20-29 | with nothing stored, bookmarks and history start empty |
| `ResearcherStorage.IsBookmarked` | client/src/hooks/useResearcherStorage.ts:62-64 | true exactly when some bookmark has the id |
| `ResearcherStorage.AddBookmark` | client/src/hooks/useResearcherStorage.ts:51-56 | unchanged when the id is present, otherwise the paper appended; the id is then bookmarked, and distinct ids stay distinct |
| `ResearcherStorage.RemoveBookmark` | client/src/hooks/useResearcherStorage.ts:58-60 | no entry with the id remains, every other entry stays, nothing is added, and an absent id changes nothing |
| `ResearcherStorage.RemoveAppend` | client/src/hooks/useResearcherStorage.ts:58-60 | removal distributes over concatenation: an order-preserving filter |
| `ResearcherStorage.RemoveSingle` | client/src/hooks/useResearcherStorage.ts:59 | a single bookmark is kept exactly when its id differs |
| `ResearcherStorage.RemoveIdempotent` | client/src/hooks/useResearcherStorage.ts:58-60 | removing twice is removing once |
| `ResearcherStorage.AddThenRemove` | client/src/hooks/useResearcherStorage.ts:51-60 | removing a freshly added bookmark restores the list |
| `ResearcherStorage.AddAllDistinct` | client/src/hooks/useResearcherStorage.ts:51-56 | adding papers one by one from empty never duplicates an id, and every added id is bookmarked |
| `ResearcherStorage.AddToHistory` | client/src/hooks/useResearcherStorage.ts:67-79 | the new entry first, then the previous entries in order, at most 20 in all |
| `ResearcherStorage.RecordMostRecentFirst` | client/src/hooks/useResearcherStorage.ts:67-79 | after any run of searches the history holds the most recent ones, newest first, never more than 20 |
| `ResearcherStorage.ClearHistory` | client/src/hooks/useResearcherStorage.ts:81-83 | the history is empty |
| `ServiceWorker.HandleFetch` | client/public/sw.js:39-72 | a request passes through exactly when it is not intercepted; non-GET always passes through; a hit is served; a miss serves the network answer unchanged, stored exactly when its status is 200 |
| `ServiceWorker.RawPrefixBypass` | client/public/sw.js:46-50 | the prefix test is on the raw path: `/apiary` and `/sessions/1` also bypass |
| `ServiceWorker.CacheHitIgnoresNetwork` | client/public/sw.js:54-57 | a cache hit does not depend on the network |
| `ServiceWorker.AfterFetch` | client/public/sw.js:58-68 | only a stored answer changes the storage, and only the current cache, under that request |
| `ServiceWorker.StoredOnlyOk` | client/public/sw.js:58-68 | whenever the storage changes, the request was intercepted, missed, and answered with status 200, and that answer is what was stored |
| `ServiceWorker.Install` | client/public/sw.js:2-18 | the current cache exists afterwards and gains exactly the five asset requests with their responses, every other entry already in it keeping its response; other caches are untouched; when a fetch fails or any answer is not ok, `addAll` rejects and the cache gains nothing |
| `ServiceWorker.Fetched` | client/public/sw.js:3-17 | the five asset requests, each with its own response |
| `ServiceWorker.StaleCaches` | client/public/sw.js:27-33 | exactly the listed names other than `researcher-pro-v1` |
| `ServiceWorker.Activate` | client/public/sw.js:24-36 | the caches left are exactly the stored ones named as the current cache, which is kept unchanged; nothing is created |
| `ServiceWorker.ActivateDeletesStale` | client/public/sw.js:27-33 | a cache survives activation exactly when it is not among the stale names |

## Left out

- The awaits inside `startSession` are not interleaved with other events.
  - `StartSession` runs to completion in one step, with the outcomes of capture and
    connection as parameters.
  - Events arriving mid-start, such as a stop between the two awaits, are not modelled.
  - The stale `status` closure of the `useCallback` and unmount cleanup are React mechanics,
    also not modelled.
- The tool fetch is split into the posting of the request and a later `ToolResult` or
  `ToolFailed` event. Responses are the `Json` values they carry, and their order is the
  event order.
  - A fetch answered after a stop sends nothing. In the hook, sending on the closed channel
    throws and is caught.
  - The model drops the call id at stop, which has the same observable outcome.
- JSON parsing and serialisation are abstract. A parsed message arrives already classified,
  and unparseable text is the `Malformed` event or absent arguments.
- WebRTC, `getUserMedia`, `AudioContext`, the voice-activity model, sound cues and the UI
  components are outside the model.
  - Capture and connection are opaque success or failure results.
  - Console logging and `dc.onerror`, which only logs, have no effect in the model.
- The HTTP calls of the backend, and its regular-expression scanning of the eFetch and PMC XML
  for abstracts, MeSH terms, titles and sections, are outside the model.
  - The scanned results are inputs.
  - Only the two tag-removal and whitespace `re.sub` patterns are modelled.
- The session-creation endpoint and its prompt are not part of this model.
- Python `None` values inside the eSummary JSON, such as `"title": null`, are not
  distinguished from present strings.
- Missing `volume`, `issue` and `pages` keys are modelled as empty strings, which the code
  treats identically.
- The `"uids"` key that eSummary puts beside the records is not modelled: an id equal to
  `"uids"` is not expected.
- Case mapping (`upper()`, `toLowerCase()`) covers ASCII letters only. Other characters are
  unchanged, unlike Python and JavaScript, which map all of Unicode.
- `localStorage` reads and writes, and JSON (de)serialisation of the lists, are outside the
  model.
  - What was stored is an `Option` parameter.
  - An empty stored string reads as nothing stored, as in the hook.
  - `Date.now()` readings are parameters.
  - The float `speechRate` setting is not part of this model.
- The unreachable `default` branch of `formatCitation`, which returns `paper.citation ||
  paper.title`, is not modelled. The format type admits only the three cases.
- The service worker's `caches` and `fetch` APIs are not modelled: the lookup result and
  the network answer are parameters.
  - `caches.match` looks in every cache. The model takes its result as given.
  - `skipWaiting`, `clients.claim` and the asynchrony of `cache.put` are not modelled.
- StripTags: states that no tag is left and that tag-free text is unchanged. It does not state
  which characters between tags survive. `CleanTitle` and `CleanTextWords` inherit this for text
  that holds tags.
- A `Request` is a method, a host and a path. The scheme, the port and the query string, which
  `caches.match` and `cache.put` also key on, are not modelled.
