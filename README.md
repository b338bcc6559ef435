# Active Reading App: the analysis pipeline and the concept-graph layout, in Dafny

The app takes an uploaded paper and runs it through a pipeline. The pipeline:

- extracts and cleans the paper's text;
- asks an LLM for the key concepts, then for the relationships between them;
- keeps the resulting graph in an in-memory store.

The client lays the graph out by hierarchy level and pairs it with note-taking cards. This project models that core and proves properties of it:

| module | file | models |
|---|---|---|
| `Wrappers` | `wrappers.dfy` | `Option` and `Result`; the `Err` case stands for a thrown `Error` and carries its message |
| `JsValues` | `js_values.dfy` | the JavaScript values JSON.parse produces, plus `undefined`; truthiness; property reads, with the TypeError raised on null and undefined; `String()`; `trim()` with ECMAScript's whitespace set |
| `Types` | `types.dfy` | `IdeaNode`, `IdeaEdge` and `PaperAnalysis` from `server/src/types/index.ts` |
| `PdfText` | `pdf_text.dfy` | `extractText` once the PDF is decoded: the clean-up chain and the 60 000-character cap; `getFilePath` over a directory listing |
| `LlmService` | `llm_service.dfy` | `runPrompt` as a loop over attempts, with the OpenRouter and the Gemini answer shapes; `extractJSON` with its three tiers |
| `AnalysisService` | `analysis_service.dfy` | `extractConcepts`, the concept list of the relationship prompt, `generateRelationships`, and the store as a class (`analyzePaper`, `getAnalysis`) |
| `GraphLevels` | `graph_levels.dfy` | `calculateLevel`, with one specification function and one class that holds the `levels` and `visited` maps it mutates |
| `GraphLayout` | `graph_layout.dfy` | the level buckets, the 32-bit FNV-1a jitter, the position formulas, and the re-render that keeps dragged positions |
| `AnalysisPage` | `analysis_page.dfy` | `handleNotesChange`, `completedCount`, `progressPercent` and the card shown for the highlighted concept |

Effects become inputs:

- The LLM is a pair of oracles, `conceptLlm` and `relationLlm`. Each is a function from the variable part of its prompt to an `LlmResponse`: the paper text for concepts, the concept list for relationships.
- The HTTP outcome of each of the three attempts is a parameter of `RunPrompt`. The method returns the requests it sent and the back-off waits, in milliseconds.
- `JSON.parse`, `parseInt` and `uuid.v4` are function parameters. The `j`-th concept gets `uuid(j)`.

Some behaviours of the code differ from what a quick reading suggests. The model follows the code:

- **Newline collapsing never fires.** The first `replace(/\s+/g, ' ')` already turns every newline into a space, so the `\n{3,}` replacement has nothing left to do. Cleaned text therefore has no newlines at all (`PdfText.CleanupSkipsNewlines`, `PdfText.CleanupNormalForm`).
- **The OpenRouter model is hard-coded.** The request always names `google/gemini-2.5-flash-lite`, whatever `OPENROUTER_MODEL` says.
- **A found but unparseable span is an error.** When `extractJSON` finds a fenced block or a brace span that does not parse, it fails at once and never tries the whole text.
- **The brace span is greedy.** It runs from the first `{` to the last `}`, not to the first balanced close.
- **The jitter range is asymmetric.** It is `[-18, 17.964]`, not `[-18, 18]`, because `(h % 1000) / 1000` never reaches 1.
- **Rounding reaches 100% early.** `Math.round` shows 100% from 199.5/200, so 199 completed of 200 already turns the bar green (`AnalysisPage.AlmostDoneShowsComplete`).

The hierarchy level is proved to be the longest-path depth when the graph has no cycle, identified by a rank that every edge increases (`GraphLevels.AcyclicLevels`). With a cycle, a node met again while its own level is still being computed counts as 0. For the cycle a → b → a this gives a = 2 and b = 1, so one edge points upwards (`GraphLevels.TwoCycle`).

## Model

| member | source | states |
|---|---|---|
| Types.Ids | active-reading-app/server/src/types/index.ts:1-7 | the node ids, in node order, one per node |
| JsValues.Get | active-reading-app/server/src/services/analysis.service.ts:69 | a property read fails exactly on null and undefined; an object yields its field or undefined, any other value undefined |
| JsValues.OptGet | active-reading-app/server/src/services/llm.service.ts:70 | optional chaining: undefined on null or undefined, otherwise the plain property read |
| JsValues.First | active-reading-app/server/src/services/llm.service.ts:160 | `v[0]` fails exactly on null and undefined; an array yields its first item or undefined |
| JsValues.NatToString | active-reading-app/server/src/services/analysis.service.ts:94 | the decimal form of an index is non-empty, all digits, with no leading zero |
| JsValues.DecimalRoundTrip | active-reading-app/server/src/services/analysis.service.ts:94 | reading the decimal form of `n` back gives `n` |
| JsValues.JsString | active-reading-app/server/src/services/llm.service.ts:77 | `String(v)` of a string is the string itself |
| JsValues.Trim | active-reading-app/server/src/services/pdf.service.ts:25 | `trim()` never lengthens the text |
| JsValues.TrimSlice | active-reading-app/server/src/services/pdf.service.ts:25 | `trim()` returns a slice of the input with only whitespace cut at both ends, and the result neither starts nor ends with whitespace |
| JsValues.TrimEmptyIff | active-reading-app/client/src/pages/Analysis.tsx:47 | a string trims to "" exactly when it is all whitespace |
| PdfText.CollapseWhitespace | active-reading-app/server/src/services/pdf.service.ts:23 | every whitespace run becomes one space: the result is single-spaced, no longer, empty iff the input is, and starts with whitespace iff the input does |
| PdfText.CollapseWord | active-reading-app/server/src/services/pdf.service.ts:23 | a character other than whitespace is copied as it is |
| PdfText.CollapseRun | active-reading-app/server/src/services/pdf.service.ts:23 | a whole whitespace run, of any length and any whitespace characters, becomes exactly one space |
| PdfText.TabBecomesSpace | active-reading-app/server/src/services/pdf.service.ts:23 | a tab between two letters becomes one space, not nothing |
| PdfText.CollapseKeepsText | active-reading-app/server/src/services/pdf.service.ts:23 | every non-whitespace character survives, in order: only the whitespace runs change |
| PdfText.CollapseSingleSpaced | active-reading-app/server/src/services/pdf.service.ts:23 | single-spaced text is a fixed point of the whitespace replacement |
| PdfText.CollapseNewlineRuns | active-reading-app/server/src/services/pdf.service.ts:24 | the result has no three newlines in a row, is empty iff the input is, and starts with a newline iff the input does |
| PdfText.CollapseNewlinesKeepText | active-reading-app/server/src/services/pdf.service.ts:24 | every character other than a newline survives, in order: only the newline runs change |
| PdfText.CollapseNewlinesNoop | active-reading-app/server/src/services/pdf.service.ts:24 | text without newlines is left unchanged |
| PdfText.CleanupSkipsNewlines | active-reading-app/server/src/services/pdf.service.ts:22-25 | after the whitespace step the newline step does nothing, so clean-up is the trimmed collapse |
| PdfText.CleanupNormalForm | active-reading-app/server/src/services/pdf.service.ts:22-25 | cleaned text is single-spaced, has no newline, has no whitespace at either end, and is no longer than the input |
| PdfText.CleanupIdempotent | active-reading-app/server/src/services/pdf.service.ts:22-25 | cleaning clean text changes nothing |
| PdfText.Cleanup | active-reading-app/server/src/services/pdf.service.ts:22-25 | the cleaned text is never longer than the raw text |
| PdfText.TrimKeepsText | active-reading-app/server/src/services/pdf.service.ts:25 | `trim()` cuts only whitespace, so every other character survives, in order |
| PdfText.CleanupKeepsText | active-reading-app/server/src/services/pdf.service.ts:22-25 | clean-up keeps every non-whitespace character of the text, in order |
| PdfText.CollapseWords | active-reading-app/server/src/services/pdf.service.ts:23 | text without whitespace passes through the whitespace step unchanged |
| PdfText.CleanupJoinsWords | active-reading-app/server/src/services/pdf.service.ts:22-25 | two words with any whitespace run between them clean to the words joined by one space |
| PdfText.ExtractText | active-reading-app/server/src/services/pdf.service.ts:12-42 | a decoding error becomes "Failed to extract PDF: " plus its message; otherwise the cleaned text, or its first 60 000 characters plus the truncation marker; never longer than the cap plus the marker |
| PdfText.FindUpload | active-reading-app/server/src/services/pdf.service.ts:46 | the first listing entry that starts with the upload id, or none when no entry does |
| PdfText.StartsWith | active-reading-app/server/src/services/pdf.service.ts:46 | `f.startsWith(uploadId)`: the id is a prefix of the entry |
| PdfText.JoinPath | active-reading-app/server/src/services/pdf.service.ts:52 | the path is the directory, one "/", then the file name, and nothing else |
| PdfText.GetFilePath | active-reading-app/server/src/services/pdf.service.ts:44-53 | "Upload not found" exactly when no entry starts with the id; otherwise the directory joined with the first such entry |
| LlmService.EnvOr | active-reading-app/server/src/services/llm.service.ts:24-27 | `process.env[name] \|\| fallback`: a set, non-empty variable wins, and the fallback applies otherwise |
| LlmService.LoadConfig | active-reading-app/server/src/services/llm.service.ts:23-28 | the OpenRouter branch is configured iff `OPENROUTER_API_KEY` is set and non-empty; the Gemini branch iff both `GEMINI_API_KEY` and `GEMINI_API_URL` are; the model names are never empty |
| LlmService.Configured | active-reading-app/server/src/services/llm.service.ts:40-41 | the guard of each branch: the Gemini key and URL both non-empty, or (line 104) the OpenRouter key non-empty |
| LlmService.Messages | active-reading-app/server/src/services/llm.service.ts:115-119 | the user message comes last; a system message comes first exactly when the system prompt is non-empty |
| LlmService.RequestFor | active-reading-app/server/src/services/llm.service.ts:141-157 | OpenRouter requests go to the fixed URL with the fixed model, Gemini requests to the configured URL and model; all carry the messages, temperature 0.3, 4000 tokens and the 60 s timeout |
| LlmService.OpenRouterAttempt | active-reading-app/server/src/services/llm.service.ts:158-186 | an attempt returns content only when it is truthy; a network error is thrown with its own message |
| LlmService.JoinParts | active-reading-app/server/src/services/llm.service.ts:77 | parts without text join to "" |
| LlmService.GeminiContent | active-reading-app/server/src/services/llm.service.ts:67-86 | truthy choices content takes priority; otherwise an array output content gives its parts' texts joined, a non-empty string output content is the content, and other truthy output content gives its `.text` when that is truthy, else null; with neither, a string body is the content and anything else gives null |
| LlmService.ChoicesContent | active-reading-app/server/src/services/llm.service.ts:70-71 | `data.choices?.[0]?.message?.content`: undefined when there are no choices, otherwise the first choice's message content |
| LlmService.OutputContent | active-reading-app/server/src/services/llm.service.ts:72-74 | `data.output[0]?.content`: undefined unless the output is a non-empty array, otherwise the first entry's content |
| LlmService.GeminiAttempt | active-reading-app/server/src/services/llm.service.ts:59-90 | content only when truthy; a network error is thrown with its own message |
| LlmService.Attempt | active-reading-app/server/src/services/llm.service.ts:40-186 | whichever endpoint is used, an attempt returns content only when it is truthy, and a network error is thrown with its message |
| LlmService.ChoicesTakePriority | active-reading-app/server/src/services/llm.service.ts:70-71 | a choices-shaped body yields its message content, whatever other fields it has |
| LlmService.OutputPartsJoined | active-reading-app/server/src/services/llm.service.ts:72-78 | without choices, an output array of parts yields the concatenated part texts |
| LlmService.FinalError | active-reading-app/server/src/services/llm.service.ts:94 | the reported error is never empty: the thrown message, or the default one |
| LlmService.RunPrompt | active-reading-app/server/src/services/llm.service.ts:39-207 | unconfigured endpoint: failure with its message and no request; otherwise 1 to 3 identical requests, the k-th wait is 1000·k ms, every attempt before the last threw, success carries the truthy content of the last attempt, failure comes only after 3 thrown attempts with the last message, and success happens iff some attempt yields content |
| LlmService.Find | active-reading-app/server/src/services/llm.service.ts:211 | the first occurrence at or after `from`, or none |
| LlmService.LastIndexOf | active-reading-app/server/src/services/llm.service.ts:212 | the last index of the character, or none |
| LlmService.FenceMatch | active-reading-app/server/src/services/llm.service.ts:211 | the match of the fence pattern; its contract is stated by `FenceMatchShape` |
| LlmService.FenceMatchShape | active-reading-app/server/src/services/llm.service.ts:211 | the match starts at the first "```json", ends at the first "```" after the opener (the lazy body: no closer inside it), sits at that place in the text, and is the opener, an optional newline, the body, an optional newline and the closer |
| LlmService.BraceMatch | active-reading-app/server/src/services/llm.service.ts:212 | a found span starts with `{` and ends with `}` |
| LlmService.BraceMatchSpan | active-reading-app/server/src/services/llm.service.ts:212 | a span is found iff some `{` comes before some `}`; it then runs from the first `{` to the last `}` |
| LlmService.FenceSelection | active-reading-app/server/src/services/llm.service.ts:216 | `jsonMatch[1] \|\| jsonMatch[0]`: the body when it is non-empty, else the whole match |
| LlmService.ExtractJson | active-reading-app/server/src/services/llm.service.ts:209-229 | a fenced block, else the brace span, is parsed, and "Invalid JSON in LLM response" if it does not parse; with neither, the whole text is parsed, and "No valid JSON found in response" if that fails |
| LlmService.ExtractJsonValue | active-reading-app/server/src/services/analysis.service.ts:68 | extraction applies to string data; other data raises |
| LlmService.FencedBodyExtracted | active-reading-app/server/src/services/llm.service.ts:211-216 | a json fence after prose without backticks yields exactly its body |
| LlmService.EmptyFenceParsesWholeMatch | active-reading-app/server/src/services/llm.service.ts:216 | an empty fence makes `jsonMatch[1] \|\| jsonMatch[0]` send the whole fenced text to the parser |
| LlmService.BraceSpanExtracted | active-reading-app/server/src/services/llm.service.ts:212-216 | without backticks, the span from the first `{` to the last `}` is parsed |
| LlmService.WholeTextParsed | active-reading-app/server/src/services/llm.service.ts:223-228 | with no fence and no brace, the whole text is parsed |
| AnalysisService.ConceptNode | active-reading-app/server/src/services/analysis.service.ts:71-76 | fails exactly on a null or undefined concept; keeps the given id and no notes; string fields take their value, or "Untitled Concept", "" and `quote` as defaults |
| AnalysisService.ListField | active-reading-app/server/src/services/analysis.service.ts:69 | `parsed.concepts \|\| parsed.ideas \|\| []`: fails on null or undefined; a truthy first field decides alone (its items when it is an array, an error otherwise); a falsy first field hands over to the second, decided the same way; both falsy give [] |
| AnalysisService.FirstFieldDecides | active-reading-app/server/src/services/analysis.service.ts:69 | a truthy first field that is not an array is an error even when the second field is an array |
| AnalysisService.FalsyFirstFallsThrough | active-reading-app/server/src/services/analysis.service.ts:69 | a falsy first field hands over to the second field's array |
| AnalysisService.ParsedList | active-reading-app/server/src/services/analysis.service.ts:68-69 | a list is found exactly when the completion succeeded, its JSON was extracted and the field read succeeded, and it is then exactly that field's items |
| AnalysisService.CompletionFailure | active-reading-app/server/src/services/analysis.service.ts:64 | the thrown message names the completion's error, or "undefined" for a success without data |
| AnalysisService.ConceptNodes | active-reading-app/server/src/services/analysis.service.ts:71-76 | fails iff some item is null or undefined; otherwise node j is built from item j with id `uuid(j)` |
| AnalysisService.ExtractConcepts | active-reading-app/server/src/services/analysis.service.ts:33-82 | a failed or empty completion gives "Failed to extract concepts: " plus its error; otherwise it succeeds exactly when the JSON is extracted, the list field is read and no concept is null or undefined, and then gives one node per listed concept, in order; every other failure gives the one parse error |
| AnalysisService.ConceptsFromCompletion | active-reading-app/server/src/services/analysis.service.ts:66-76 | a good completion whose list holds no null or undefined concept yields exactly one node per concept, the j-th built from the j-th concept with id uuid(j) |
| AnalysisService.ExtractedIdsDistinct | active-reading-app/server/src/services/analysis.service.ts:72 | with an injective id supply the extracted concepts have pairwise distinct ids |
| AnalysisService.JoinLines | active-reading-app/server/src/services/analysis.service.ts:95 | joining no lines gives "" |
| AnalysisService.ConceptLine | active-reading-app/server/src/services/analysis.service.ts:94 | the text of one concept line; what it holds is stated by `ConceptsListIndices` |
| AnalysisService.ConceptLines | active-reading-app/server/src/services/analysis.service.ts:93-94 | line i is `i: "title" - description` of node i |
| AnalysisService.ConceptsList | active-reading-app/server/src/services/analysis.service.ts:93-95 | the concept lines joined by newlines; `SplitJoin` and `ConceptsListIndices` state what it holds |
| AnalysisService.NewlineIndex | active-reading-app/server/src/services/analysis.service.ts:95 | the first newline, or none when there is no newline |
| AnalysisService.SplitJoin | active-reading-app/server/src/services/analysis.service.ts:93-95 | splitting the joined lines on newlines gives them back when no line has a newline |
| AnalysisService.LeadingDigitsOf | active-reading-app/server/src/services/analysis.service.ts:94 | the leading digits of digits followed by a non-digit are those digits |
| AnalysisService.ConceptsListIndices | active-reading-app/server/src/services/analysis.service.ts:93-95 | the concept list has one line per node, and each line reads back as its own index |
| AnalysisService.FilterValid | active-reading-app/server/src/services/analysis.service.ts:137-147 | every kept candidate has indices that parse, are in range and differ; never more than given |
| AnalysisService.ValidCandidate | active-reading-app/server/src/services/analysis.service.ts:137-147 | the filter's test: both indices parse, lie in range and differ |
| AnalysisService.FilterValidMembers | active-reading-app/server/src/services/analysis.service.ts:137-147 | keeps exactly the candidates whose indices parse, are in range and differ |
| AnalysisService.FilterValidAppend | active-reading-app/server/src/services/analysis.service.ts:137-147 | filtering keeps candidate order: it distributes over concatenation |
| AnalysisService.CandidateEdge | active-reading-app/server/src/services/analysis.service.ts:148-152 | the edge runs from the node at the parsed `from` index to the node at the parsed `to` index (two different nodes), carrying the truthy label, or "relates to" |
| AnalysisService.Relationships | active-reading-app/server/src/services/analysis.service.ts:136-152 | one edge per valid candidate, in candidate order, never more than there are candidates; edge k runs from `nodes[parseInt(from)]` to `nodes[parseInt(to)]` of the k-th valid candidate and carries its label or "relates to" |
| AnalysisService.RelationshipsAppend | active-reading-app/server/src/services/analysis.service.ts:136-152 | edge order is candidate order |
| AnalysisService.RelationshipsSingle | active-reading-app/server/src/services/analysis.service.ts:136-152 | one candidate yields its edge when valid and nothing otherwise |
| AnalysisService.DefaultRelationLabel | active-reading-app/server/src/services/analysis.service.ts:151 | a missing or empty label becomes "relates to" |
| AnalysisService.RelationCandidates | active-reading-app/server/src/services/analysis.service.ts:125-134 | no candidates when the completion failed or was empty; otherwise candidates exactly when the JSON is extracted, the list field is read and no candidate is null or undefined, and then exactly that list |
| AnalysisService.GenerateRelationships | active-reading-app/server/src/services/analysis.service.ts:84-158 | with fewer than two nodes, no completion and no edges; otherwise the prompt is the concept list, a failed completion or parse gives no edges, and the edges are exactly the valid candidates, each joining two different nodes |
| AnalysisService.RelationsFromCompletion | active-reading-app/server/src/services/analysis.service.ts:125-152 | a good completion whose list holds no null or undefined candidate gives exactly the edges of its valid candidates |
| AnalysisService.FailedRelationsGiveNoEdges | active-reading-app/server/src/services/analysis.service.ts:127-157 | a failed completion, JSON that is not extracted or a field read that fails gives no edges |
| AnalysisService.GeneratedEdgesWithin | active-reading-app/server/src/services/analysis.service.ts:149-150 | every generated edge joins ids of the analysed nodes |
| AnalysisService.Analyses.constructor | active-reading-app/server/src/services/analysis.service.ts:9 | the store starts empty |
| AnalysisService.Analyses.GetAnalysis | active-reading-app/server/src/services/analysis.service.ts:160-162 | the stored analysis exactly when the id is stored, with its own upload id |
| AnalysisService.Analyses.AnalyzePaper | active-reading-app/server/src/services/analysis.service.ts:11-31 | errors iff concept extraction does, with its message and the store unchanged; otherwise stores and returns (uploadId, nodes, generated edges, text), overwriting any earlier entry; other ids are untouched; every entry keeps its own id, its text and edges within its nodes |
| GraphLevels.Sources | active-reading-app/client/src/components/Graph.tsx:55 | every edge source is in the set |
| GraphLevels.Parents | active-reading-app/client/src/components/Graph.tsx:55 | `p` is a parent iff some edge runs from `p` to the id; no parents iff no incoming edge |
| GraphLevels.Calc | active-reading-app/client/src/components/Graph.tsx:50-66 | visited ids stay visited; an id being computed returns 0 and changes nothing; any other id ends stored with the returned level |
| GraphLevels.MaxOfParents | active-reading-app/client/src/components/Graph.tsx:60-62 | the parents are computed in order; visited ids stay visited, and the result is at least the accumulator |
| GraphLevels.CalcFrame | active-reading-app/client/src/components/Graph.tsx:50-66 | a call keeps every stored level and visited id, leaves the set of ids being computed as it was, and keeps "a stored level is 0 iff the id has no incoming edge" |
| GraphLevels.MaxFrame | active-reading-app/client/src/components/Graph.tsx:60-62 | the same for computing a list of parents |
| GraphLevels.MaxOfParentsStep | active-reading-app/client/src/components/Graph.tsx:60-62 | the first parent is computed first, and the rest start from the memo it leaves |
| GraphLevels.LevelsFor | active-reading-app/client/src/components/Graph.tsx:68 | the forEach keeps stored levels and stores every id it visits |
| GraphLevels.ComputedLevels | active-reading-app/client/src/components/Graph.tsx:47-68 | every node has a level, and a level is 0 iff the id has no incoming edge |
| GraphLevels.StoreAfterParents | active-reading-app/client/src/components/Graph.tsx:63 | once every parent is stored at or below the maximum, storing the id one above the maximum keeps every level a longest-path depth |
| GraphLevels.CalcAcyclic | active-reading-app/client/src/components/Graph.tsx:50-66 | with no cycle, the id ends stored and every stored level is a longest-path depth |
| GraphLevels.MaxAcyclic | active-reading-app/client/src/components/Graph.tsx:60-62 | with no cycle, every parent ends stored at or below the maximum, and the maximum is one of their levels or the accumulator |
| GraphLevels.AcyclicLevels | active-reading-app/client/src/components/Graph.tsx:47-68 | with no cycle, each level is one more than the highest parent (0 for roots), and every edge goes strictly down a level |
| GraphLevels.TwoCycle | active-reading-app/client/src/components/Graph.tsx:52 | on the cycle a → b → a the cycle breaker gives a = 2 and b = 1 |
| GraphLevels.LevelTable.constructor | active-reading-app/client/src/components/Graph.tsx:47-48 | both maps start empty |
| GraphLevels.LevelTable.CalculateLevel | active-reading-app/client/src/components/Graph.tsx:50-66 | the returned level and the new `levels`/`visited` are exactly what `Calc` prescribes from the old maps |
| GraphLevels.LevelTable.MaxParentLevel | active-reading-app/client/src/components/Graph.tsx:60-62 | the maximum and the new maps are what `MaxOfParents` prescribes |
| GraphLevels.ComputeLevels | active-reading-app/client/src/components/Graph.tsx:47-68 | the levels are `ComputedLevels`, every node has one, and a level is 0 iff the node has no incoming edge |
| GraphLayout.LevelOf | active-reading-app/client/src/components/Graph.tsx:73 | the stored level, or 0 |
| GraphLayout.IdsAtLevel | active-reading-app/client/src/components/Graph.tsx:72-78 | no more ids than given; the first one, if any, is an input id of level `l` |
| GraphLayout.IdsAtLevelMembers | active-reading-app/client/src/components/Graph.tsx:72-78 | exactly the ids of level `l` |
| GraphLayout.IdsAtLevelAppend | active-reading-app/client/src/components/Graph.tsx:72-78 | bucketing keeps input order: it distributes over concatenation |
| GraphLayout.BucketsOf | active-reading-app/client/src/components/Graph.tsx:71-78 | the buckets after pushing each id onto its level's list; `BucketsOfContents` states what they hold |
| GraphLayout.BucketsOfContents | active-reading-app/client/src/components/Graph.tsx:71-78 | each bucket is the ids of its level, in input order, and non-empty; every id's level has a bucket |
| GraphLayout.Buckets | active-reading-app/client/src/components/Graph.tsx:71-78 | each bucket is non-empty and holds exactly its level's node ids, in input order; every node's level has a bucket |
| GraphLayout.BucketsContents | active-reading-app/client/src/components/Graph.tsx:71-78 | every node is in its level's bucket, and nothing else is in any bucket |
| GraphLayout.ExactlyOneBucket | active-reading-app/client/src/components/Graph.tsx:71-78 | a node is in a bucket iff the bucket is its level's |
| GraphLayout.BucketByLevel | active-reading-app/client/src/components/Graph.tsx:71-78 | the loop builds exactly `Buckets` |
| GraphLayout.FnvStep | active-reading-app/client/src/components/Graph.tsx:84-85 | the hash stays a 32-bit unsigned value |
| GraphLayout.Fnv1a | active-reading-app/client/src/components/Graph.tsx:82-86 | the hash stays a 32-bit unsigned value |
| GraphLayout.JitterScaleBounds | active-reading-app/client/src/components/Graph.tsx:87-88 | the scaled hash lies in [-maxJitter, 0.998·maxJitter] |
| GraphLayout.Jitter | active-reading-app/client/src/components/Graph.tsx:80-89 | the jitter of an id lies in [-maxJitter, 0.998·maxJitter] |
| GraphLayout.JitterForId | active-reading-app/client/src/components/Graph.tsx:80-89 | the hashing loop computes exactly `Jitter` |
| GraphLayout.IndexOf | active-reading-app/client/src/components/Graph.tsx:94 | the first index of the id, or -1 exactly when the id is absent |
| GraphLayout.PositionFor | active-reading-app/client/src/components/Graph.tsx:94-107 | a bucketed id's `x` is (i − (n−1)/2)·250 for its index i in its level's bucket of n, so within the centred span; `y` is level·150 plus 40/250 of `x` plus the jitter |
| GraphLayout.InitialPositions | active-reading-app/client/src/components/Graph.tsx:91-108 | one position per node, in node order |
| GraphLayout.PlaceNode | active-reading-app/client/src/components/Graph.tsx:92-107 | one node's computed position is its preferred position |
| GraphLayout.InitialLayout | active-reading-app/client/src/components/Graph.tsx:47-108 | the render's positions are the preferred positions over the computed levels and buckets |
| GraphLayout.ColumnsMirror | active-reading-app/client/src/components/Graph.tsx:108 | the columns of a level mirror each other around 0 |
| GraphLayout.SumOffsetsClosed | active-reading-app/client/src/components/Graph.tsx:108 | the closed form of a sum of centred offsets |
| GraphLayout.LevelColumnsCentered | active-reading-app/client/src/components/Graph.tsx:108 | with distinct ids, the x-coordinates of every level sum to 0 |
| GraphLayout.IdsAtLevelDistinct | active-reading-app/client/src/components/Graph.tsx:72-78 | the bucket of distinct ids holds distinct ids |
| GraphLayout.FindIndex | active-reading-app/client/src/components/Graph.tsx:155 | the first flow node with the id, or -1 exactly when there is none |
| GraphLayout.FindPosition | active-reading-app/client/src/components/Graph.tsx:155 | the position of the first flow node with the id, or none exactly when there is none |
| GraphLayout.RerenderPositions | active-reading-app/client/src/components/Graph.tsx:150-168 | one position per node; what each one is is stated by `RerenderKeepsShown` and `RerenderAfterDrag` |
| GraphLayout.Flow | active-reading-app/client/src/components/Graph.tsx:150-168 | one flow node per node |
| GraphLayout.RerenderKeepsShown | active-reading-app/client/src/components/Graph.tsx:150-168 | a shown node keeps the position of its first flow node; any other node gets the preferred position |
| GraphLayout.RerenderAfterDrag | active-reading-app/client/src/components/Graph.tsx:150-168 | with distinct ids, after one node is dragged a re-render shows exactly the dragged layout |
| AnalysisPage.HandleNotesChange | active-reading-app/client/src/pages/Analysis.tsx:31-35 | same length; every node keeps its other fields; nodes with the id get the new notes and the others keep theirs |
| AnalysisPage.NotesKeepIds | active-reading-app/client/src/pages/Analysis.tsx:32-34 | the ids and their order are unchanged |
| AnalysisPage.NotesLeaveOthers | active-reading-app/client/src/pages/Analysis.tsx:33 | a node with another id is untouched |
| AnalysisPage.NotesLastWins | active-reading-app/client/src/pages/Analysis.tsx:31-35 | two edits of one card keep only the last text |
| AnalysisPage.NotesCommute | active-reading-app/client/src/pages/Analysis.tsx:31-35 | edits of two different cards commute |
| AnalysisPage.Completed | active-reading-app/client/src/pages/Analysis.tsx:47 | the filter's test; `CompletedIsTrimmed` shows it is `userNotes?.trim()` being truthy |
| AnalysisPage.CompletedIsTrimmed | active-reading-app/client/src/pages/Analysis.tsx:47 | a node counts as completed iff it has notes whose `trim()` is not empty |
| AnalysisPage.CompletedNodes | active-reading-app/client/src/pages/Analysis.tsx:47 | never more nodes than the list has |
| AnalysisPage.CompletedNodesMembers | active-reading-app/client/src/pages/Analysis.tsx:47 | a node is kept iff it is in the list and completed |
| AnalysisPage.CompletedNodesAll | active-reading-app/client/src/pages/Analysis.tsx:47 | every node is kept iff every node is completed |
| AnalysisPage.CompletedNodesAppend | active-reading-app/client/src/pages/Analysis.tsx:47 | the filter distributes over concatenation and keeps order |
| AnalysisPage.CompletedCount | active-reading-app/client/src/pages/Analysis.tsx:47 | at most the number of nodes, and equal to it exactly when every node is completed |
| AnalysisPage.CompletedCountAppend | active-reading-app/client/src/pages/Analysis.tsx:47 | the count distributes over concatenation |
| AnalysisPage.NotesChangeFilter | active-reading-app/client/src/pages/Analysis.tsx:31-47 | notes that are not all whitespace never lower the number of completed nodes; all-whitespace notes never raise it |
| AnalysisPage.NotesChangeCount | active-reading-app/client/src/pages/Analysis.tsx:31-47 | non-blank notes never lower the count, and blank ones never raise it |
| AnalysisPage.RoundHalfUp | active-reading-app/client/src/pages/Analysis.tsx:49 | the integer nearest num/den, halves rounded up |
| AnalysisPage.ProgressPercent | active-reading-app/client/src/pages/Analysis.tsx:49 | 0 without nodes; otherwise 100·completed/total rounded half up |
| AnalysisPage.ProgressBounds | active-reading-app/client/src/pages/Analysis.tsx:49 | within [0, 100]; 0 when nothing is done and 100 when everything is |
| AnalysisPage.PageProgressBounds | active-reading-app/client/src/pages/Analysis.tsx:47-49 | the page's percentage lies in [0, 100] |
| AnalysisPage.AlmostDoneShowsComplete | active-reading-app/client/src/pages/Analysis.tsx:49 | 199 completed of 200 already shows 100% |
| AnalysisPage.FindNode | active-reading-app/client/src/pages/Analysis.tsx:186 | the first node with the id, or none exactly when no node has it |
| AnalysisPage.SelectedNode | active-reading-app/client/src/pages/Analysis.tsx:184-187 | no card while nothing (or the falsy empty id) is highlighted; otherwise the first node with that id |
| AnalysisPage.SelectedShowsNotes | active-reading-app/client/src/pages/Analysis.tsx:184-191 | after notes are typed into the shown card, the same card is shown with the new notes |
| AnalysisPage.FindAfterNotes | active-reading-app/client/src/pages/Analysis.tsx:31-35 | a note edit does not change which node the id finds, only its notes |

## Left out

- Reading the PDF, pdf-parse, listing the uploads directory, the HTTP POST, timers and `console` output are external. Their results are inputs: a decoded `Result<string>`, a directory listing, an `HttpOutcome` per attempt, and the list of waits.
- The wording of the prompts is left out. The completions are oracles on the variable part of each prompt (the paper text, the concept list).
- `LlmService.LoadConfig` reads the environment once. The source reads `GEMINI_MODEL` again for every Gemini request.
- `AnalysisService.ConceptNode`: a truthy field that is not a string is stored as its `String()` form; the source stores the raw value.
- `AnalysisService.CandidateEdge`: the same applies to a non-string relation label.
- JSON numbers are integers in the model, so `parseInt`, fractional numbers and `String()` of a fraction are not modelled. `parseInt` is a parameter.
- PdfText.ExtractText: the cap counts characters, while the source's `length` and `substring` count UTF-16 code units. A text with characters outside the Basic Multilingual Plane is cut at a different place, and the place may fall inside a surrogate pair.
- AnalysisService.Analyses.AnalyzePaper: the j-th concept of every analysis gets `uuid(j)`. The id supply is a function of the position only, so ids may repeat across analyses; a real `uuid.v4` does not repeat. `ExtractedIdsDistinct` gives distinct ids within one analysis when the supply is injective.
- `GraphLayout.FnvStep` takes the code of one `char`. JavaScript's `charCodeAt` reads UTF-16 code units, so for characters outside the Basic Multilingual Plane the source hashes two units. `length` is likewise the UTF-16 length.
- Positions use exact reals. `Math.round` and IEEE-754 rounding of the quotients are exact rational arithmetic in the model.
- `path.join` normalisation is left out: `PdfText.JoinPath` concatenates the directory, "/" and the file name.
- The `inDegree` and `children` maps of the graph component are left out: they are built but never read.
- Styling, ReactFlow edges, highlighting and scrolling are left out. The React state setters are the values the model computes.
- Concurrency is left out. Two analyses of the same upload id that overlap in time are not modelled; `AnalyzePaper` runs to completion.
- The upload and analyze routes, `cleanup` of the PDF service, `App.tsx`, `IdeaCard.tsx` and `Upload.tsx` are not part of this model.
