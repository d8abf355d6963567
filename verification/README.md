# CASSIAN ingestion and retrieval core, in Dafny

A model of the server-side core of CASSIAN, a service that ingests a source
repository (a GitHub URL, a ZIP upload or a pasted text) and answers
questions about it. It covers:

- the filter that decides which files of a checked-out repository are read;
- the semantic chunker that cuts each file into bounded pieces;
- the keyword relevance selector that picks the chunks sent with a question;
- the in-memory repository store with one-hour expiry and a 50-entry cap;
- the rule table of the global assistant and its hand-off to the model;
- the data plumbing of the summariser (grouping, batching, fallbacks);
- the acquisition helpers (repository names, zip-slip guard, cleanup guard);
- the three API routes (`/api/upload`, `/api/chat`, `/api/assistant-chat`),
  as functions from a request to a status code, a body and, for uploads, a
  log of disk effects.

Everything outside the process is a parameter:

- the generative model is a function from a request to a `Reply`;
- the filesystem is a tree of entries (`FileParser.Entry`), or an ordered
  log of `RepoLoader.Effect`s (make a directory, write a file, remove a
  tree) for the writes;
- the clock is an explicit `now`;
- the uuid of a new repository is a given `repoId`;
- `new URL`, `path.join`, the ZIP reader, UTF-8 decoding and the regular
  expressions of the assistant rules and of the summary parser are oracles.

Modules follow the source files:

| module | file | source |
|---|---|---|
| `Wrappers` | wrappers.dfy | `Option` / `Result` |
| `Text` | text.dfy | string helpers: trim, lower-case, split, join, prefix tests, a total order standing for `localeCompare` |
| `Partition` | partition.dfy | the greedy partition shared by the chunker and the batcher, and its uniqueness |
| `Sorting` | sorting.dfy | an insertion sort, and the fact that a sorted permutation under a strict total order is unique |
| `Types` | types.dfy | types/index.ts, request fields and API responses |
| `FileParser` | file_parser.dfy | services/fileParser.ts: walk, list, per-file accept decision |
| `Chunker` | chunker.dfy | services/fileParser.ts: `boundaryScore`, `chunkContent`, `chunkFiles` |
| `ChatService` | chat_service.dfy | services/chatService.ts |
| `RepoStore` | repo_store.dfy | services/repoStore.ts |
| `AssistantService` | assistant_service.dfy | services/assistantService.ts |
| `AiSummarizer` | ai_summarizer.dfy | services/aiSummarizer.ts |
| `RepoLoader` | repo_loader.dfy | services/repoLoader.ts |
| `ChatRoute`, `AssistantRoute`, `UploadRoute` | chat_route.dfy, assistant_route.dfy, upload_route.dfy | app/api/*/route.ts |

The chunker is stated twice:

- as a function over the greedy partition of the lines;
- as the source's imperative loop (`Chunker.ChunkContentLoop`), proved
  equal to the function.

The loader and the upload route take a `RepoLoader.Version`. `AsWritten`
runs `extractZip` and `cleanupRepo` as the source writes them; this is the
model of `loadRepo` and of the route. `Corrected` runs the two repaired
helpers of the "## Findings" section, so that the intended properties can
be stated about the same route.

The store is a value `Store`. Every operation takes `now` and returns the
new store, together with what it read.

Where the system's written description and its code disagree, the model
follows the code:

- Chunks re-joined with "\n" reproduce the file; plain concatenation does
  not, because the newline between two chunks is dropped.
- A chunk made of one line longer than 1500 characters is emitted whole, so
  only chunks of two or more lines are bounded by 1500.
- The chat service calls the model once: an empty answer becomes "I could
  not generate an answer…" and an exception becomes "I'm unable to reach
  the AI service…". There is no retry cascade in services/chatService.ts.
- Empty input is not a row of the assistant's rule table; `matchRule` checks
  for it before the table.

## Model

| member | source | states |
|---|---|---|
| FileParser.IsIgnoredFile | services/fileParser.ts:60-62 | definition (the body is the source's test): a basename is ignored when it matches the log pattern or the env pattern |
| FileParser.IsBinaryExtension | services/fileParser.ts:67-69 | definition: membership in the binary-extension set |
| FileParser.LooksLikeBinary | services/fileParser.ts:75-81 | a buffer looks binary exactly when a zero byte lies at an index below min(length, 8192) |
| FileParser.ExtName | services/fileParser.ts:177 | a name has an extension exactly when it is not ".." and holds a '.' after its first character; the extension then runs from the last such '.' to the end |
| FileParser.ExtNameExamples | services/fileParser.ts:177 | "a.ts" has extension ".ts", "x.tar.gz" has ".gz" (only the last extension), ".gitignore" has none |
| FileParser.ExtensionToLanguage | services/fileParser.ts:86-112 | a supported extension maps to its entry in the language table; every other extension maps to "plaintext" |
| FileParser.LanguagesCoverSupported | services/fileParser.ts:22-33 | the language table has an entry for exactly the supported extensions |
| FileParser.SupportedNotBinary | services/fileParser.ts:22-46 | no supported extension is also a binary extension, so the order of those two tests does not matter |
| FileParser.ParseFile | services/fileParser.ts:176-230 | a file is kept exactly when its basename is not ignored, its extension is not binary and is empty or supported, its size is in 1..512000, it can be read, and it has no NUL byte in its first 8 KB; a kept file carries its relative path, the extension, the table language for it, the decoded bytes and the size |
| FileParser.AcceptedLanguage | services/fileParser.ts:181-195 | a kept file has either no extension and language "plaintext", or a supported extension and that extension's table language |
| FileParser.ReadmeIsMarkdown | services/fileParser.ts:180-186 | a kept README, LICENSE or CHANGELOG without an extension, in any case, is read as ".md" / "markdown" |
| FileParser.ReadmeExtension | services/fileParser.ts:180-184 | README, LICENSE and CHANGELOG in any case have no dot, so their extension becomes ".md" |
| FileParser.ExtensionlessIsPlaintext | services/fileParser.ts:180-186 | any other kept file without an extension keeps "" and is "plaintext" |
| FileParser.Walk | services/fileParser.ts:120-145 | every file the walk yields lies strictly below the walked directory, and no path segment below it is an ignored directory name |
| FileParser.WalkInto | services/fileParser.ts:136-138 | the same for the recursive walk into a non-ignored sub-directory; its completeness is part of FileParser.WalkReaches |
| FileParser.WalkReaches | services/fileParser.ts:114-145 | the walk yields a file exactly when the listing leads to it: a regular file whose name is not an ignored directory name, directly or inside readable, non-ignored sub-directories; nothing is missed and nothing else is yielded |
| FileParser.WalkSkipsIgnored | services/fileParser.ts:120-145 | no walked file's relative path passes through node_modules, .git, dist, build, .next, __pycache__ or .venv |
| FileParser.ListPaths | services/fileParser.ts:152-163 | a path is listed exactly when some walked file with a non-ignored basename has that relative path |
| FileParser.ListPathsAppend | services/fileParser.ts:152-163 | the listing keeps the walk's order and its repeats: the listing of two runs joined is the two listings joined |
| FileParser.ParseAll | services/fileParser.ts:172-232 | a parsed file is in the result exactly when some walked file is kept as it |
| FileParser.ParseAllAppend | services/fileParser.ts:172-232 | parsing keeps the walk's order and its repeats: the parse of two runs joined is the two parses joined |
| FileParser.ParsedAreListed | services/fileParser.ts:152-232 | every parsed file's path is also in the file listing |
| FileParser.ListFiles | services/fileParser.ts:152-163 | definition: `listFiles` is the listing of the walk from the root; its properties are stated by FileParser.ListPaths and FileParser.ListFilesComplete |
| FileParser.ListFilesComplete | services/fileParser.ts:149-163 | a relative path is listed exactly when the root leads to a file with that path whose basename is not ignored |
| FileParser.ParseFiles | services/fileParser.ts:172-232 | definition: `parseFiles` is the parse of the walk from the root; its properties are stated by FileParser.ParseAll and FileParser.ParseFilesComplete |
| FileParser.ParseFilesComplete | services/fileParser.ts:166-232 | a parsed file is returned exactly when the root leads to a file that the per-file decision accepts as it |
| Chunker.BoundaryScore | services/fileParser.ts:240-261 | the score is at most 7; a positive score r means boundary pattern 7-r matches the line without leading blanks and no stronger one does; 0 means none matches |
| Chunker.BlankLineScoresOne | services/fileParser.ts:247-257 | a line scores exactly 1 when it is empty or all whitespace |
| Chunker.LineGroups | services/fileParser.ts:279-319 | the lines of a long file are cut into the greedy partition of its "\n"-split lines under the flush rule |
| Text.SplitOnJoin | services/fileParser.ts:279 | joining the "\n"-split lines with "\n" gives back the content, so the line split loses nothing |
| Text.SplitOnCount | services/fileParser.ts:279 | a content has one more line than it has newlines |
| Partition.GreedyPartitionUnique | services/fileParser.ts:285-317 | there is only one greedy partition of a sequence under a split rule, so the chunking is determined by the flush rule |
| Chunker.ChunkContent | services/fileParser.ts:274-320 | the result is never empty; a content of at most 1500 characters, including "", is one chunk; joining the chunks with "\n" gives the content back; a chunk of more than one line has at most 1500 characters, and fewer than 1500 once the content was split |
| Chunker.CohesiveBounded | services/fileParser.ts:287-297 | a group of two or more lines has a counted length (each line plus its newline) of at most 1500 |
| Chunker.NoBoundaryInsidePiece | services/fileParser.ts:300-311 | inside a chunk, a line that follows a counted length of 1200 or more is not a boundary, and that counted length is below 1500 |
| Chunker.PieceEndsAtSplit | services/fileParser.ts:290-311 | a chunk ends only where the next line would push it past 1500, or where it has reached 1200 and the next line scores above 0; the boundary line opens the next chunk |
| Chunker.GroupLoop | services/fileParser.ts:282-317 | the source's line loop, with its flush-before and flush-after tests, computes the joined greedy partition |
| Chunker.LoopEnd | services/fileParser.ts:315-320 | after the last line, pushing the non-empty remainder gives exactly the joined greedy partition |
| Chunker.ChunkContentLoop | services/fileParser.ts:274-320 | the imperative `chunkContent` computes exactly `ChunkContent` |
| Chunker.FileChunks | services/fileParser.ts:329-340 | a file yields one chunk per piece, numbered 0..k-1, carrying the file's path and language |
| Chunker.ChunkFiles | services/fileParser.ts:326-344 | definition: each file's pieces in file order; its properties are stated by Chunker.ChunkFilesCount and Chunker.ChunkFilesLayout |
| Chunker.ChunkFilesCount | services/fileParser.ts:326-344 | the number of chunks is the sum of the files' piece counts |
| Chunker.ChunkFilesLayout | services/fileParser.ts:326-344 | piece k of file j sits at the position after the pieces of the earlier files, with index k, the file's path and its language |
| Partition.FlattenAt | services/fileParser.ts:326-344 | in groups laid end to end, item k of group j sits right after the items of the earlier groups |
| Text.CountOccurrences | services/chatService.ts:53 | the number of non-overlapping occurrences is positive exactly when the token occurs in the text |
| Text.CountOccurrencesFit | services/chatService.ts:53 | the counted occurrences, laid end to end, fit in the text |
| Text.GreedyIsDisjoint | services/chatService.ts:53 | the left-to-right scan finds exactly as many occurrences as the count, and no two of them overlap |
| Text.CountOccurrencesMaximal | services/chatService.ts:53 | no set of non-overlapping occurrences of the token is larger than the count, so the count is the greatest such number |
| Text.CountOccurrencesExample | services/chatService.ts:53 | "aa" is counted twice in "aaaa", not three times: overlapping occurrences count once |
| ChatService.Tokenise | services/chatService.ts:30-35 | every token is at least two characters long and made of [a-z0-9_] |
| ChatService.TokeniseSplit | services/chatService.ts:30-35 | tokenising around a separator gives the tokens of the left part followed by those of the right part, so order and duplicates are kept |
| ChatService.TokeniseWord | services/chatService.ts:30-35 | a single run of word characters tokenises to its lower-case form when it has two or more characters, and to nothing otherwise |
| ChatService.TokenScore | services/chatService.ts:51-60 | one token adds at most 8 (at most 5 content hits plus 3 for the path), and adds 0 exactly when it occurs in neither the content nor the path |
| ChatService.TokensScore | services/chatService.ts:51-60 | the tokens add at most 8 each, and 0 exactly when none occurs in the content or the path |
| ChatService.PhraseBonus | services/chatService.ts:62-66 | definition: the phrase bonus applies when the trimmed lower-case question has more than 3 characters and occurs in the lower-case content |
| ChatService.ScoreChunk | services/chatService.ts:45-69 | the score is at most 8 per token plus 10; it is at least 10 when the trimmed lower-case question of over 3 characters occurs in the content; it is 0 exactly when no token occurs and there is no phrase bonus |
| ChatService.Before | services/chatService.ts:88-91 | definition of the sort's order: higher score first, then the smaller path, then the earlier input position, which stands for the stability of `Array.prototype.sort` |
| ChatService.RankBy | services/chatService.ts:82-91 | the ranking is a permutation of the scored chunks, ordered by score descending, then file path, then input position (a stable sort) |
| Sorting.SortedUnique | services/chatService.ts:88-91 | two sorted permutations of the same elements under a strict total order are equal, so the ranking does not depend on how it is sorted |
| ChatService.RankedMembers | services/chatService.ts:79-85 | every ranked entry is an input chunk carrying its own relevance score for the question |
| ChatService.SelectRelevantChunks | services/chatService.ts:75-110 | the selection is a prefix of the ranking: the loop only stops and never skips |
| ChatService.SelectionBounds | services/chatService.ts:97-107 | at most 30 chunks of at most 60000 characters in total are selected, and a zero-score chunk appears only among the first five |
| ChatService.SelectionMinimum | services/chatService.ts:99-103 | when every chunk has at most 12000 characters, at least min(5, number of chunks) are selected |
| ChatService.SelectionIsLongestAdmittedPrefix | services/chatService.ts:97-107 | the selection's length is exactly the first ranked position the count, character or zero-score test refuses |
| ChatService.NotFoundMessage | services/chatService.ts:158-160 | the missing-repository message contains "not found" |
| ChatService.AnswerOf | services/chatService.ts:169-188 | a model exception gives the fixed unable-to-reach answer; blank model text gives the fixed could-not-generate answer; any other text is trimmed |
| ChatService.AskQuestion | services/chatService.ts:151-196 | the question fails with a "not found" error exactly when the store has no live chunks for the id; otherwise it answers with the id, the question and the number of selected chunks, and the store is the one the lookup leaves |
| RepoStore.EmptyStore | services/repoStore.ts:25 | the store starts valid and empty |
| RepoStore.DropExpired | services/repoStore.ts:31-36 | the expiry pass keeps exactly the entries not older than one hour |
| RepoStore.OldestFirst | services/repoStore.ts:40-42 | the capacity pass sorts a permutation of the entries by stored time, ties in map order |
| RepoStore.RemoveIds | services/repoStore.ts:43-46 | deleting a set of ids keeps exactly the entries whose id is outside the set |
| RepoStore.VictimIff | services/repoStore.ts:40-44 | an entry is deleted by the capacity pass exactly when it is among the first size-50 entries of that sort |
| RepoStore.CapacityCount | services/repoStore.ts:39-47 | over the cap, the capacity pass leaves exactly 50 entries |
| RepoStore.CapEntriesOver | services/repoStore.ts:39-47 | over the cap, the capacity pass deletes exactly the victims of the sort |
| RepoStore.CapacityOldest | services/repoStore.ts:39-47 | every entry the capacity pass deletes was stored no later than every entry it keeps |
| RepoStore.Evict | services/repoStore.ts:30-48 | definition: the expiry pass followed by the capacity pass; its properties are stated by RepoStore.EvictBounds and RepoStore.EvictKeepsFresh |
| RepoStore.EvictBounds | services/repoStore.ts:30-48 | after eviction the store has at most 50 entries, all of them earlier entries that have not expired |
| RepoStore.EvictKeepsFresh | services/repoStore.ts:30-48 | when the live entries fit under the cap, eviction keeps every one of them |
| RepoStore.Put | services/repoStore.ts:60-66 | `store.set` holds the new entry and changes no entry with another id |
| RepoStore.PutUnique | services/repoStore.ts:60 | ids stay unique after a set |
| RepoStore.Lookup | services/repoStore.ts:73 | a lookup finds an entry with the id, or reports that there is none |
| RepoStore.Delete | services/repoStore.ts:77 | a delete removes exactly the entries with that id |
| RepoStore.Get | services/repoStore.ts:72-97 | an absent id reads nothing and leaves the store alone; an entry older than one hour reads nothing and is deleted; a live entry is returned and the store is unchanged |
| RepoStore.GetChunks | services/repoStore.ts:72-82 | definition: the chunks of RepoStore.Get's entry, if any, with the store it leaves |
| RepoStore.GetSummary | services/repoStore.ts:87-97 | definition: the summary of RepoStore.Get's entry, if any, with the store it leaves |
| RepoStore.HasRepo | services/repoStore.ts:102-104 | `hasRepo` holds exactly when `getChunks` finds chunks, with the same effect on the store |
| RepoStore.Save | services/repoStore.ts:53-67 | definition: evict, then `store.set` of the entry stamped with `now`; its properties are stated by RepoStore.SaveBounds, RepoStore.SaveThenGet and RepoStore.SaveKeepsOthers |
| RepoStore.SaveBounds | services/repoStore.ts:53-67 | a save keeps ids unique, and because it evicts first the store has at most 51 entries afterwards |
| RepoStore.SaveThenGet | services/repoStore.ts:53-82 | reading the chunks and the summary of a just-saved id at the same time returns what was saved |
| RepoStore.SaveKeepsOthers | services/repoStore.ts:30-67 | a save changes another id's entry only through eviction |
| RepoStore.ExpiryBoundary | services/repoStore.ts:76-79 | an entry exactly one hour old is still returned; one millisecond later it is gone and deleted |
| AssistantService.AnyPattern | services/assistantService.ts:317-322 | a rule fires exactly when one of its patterns matches |
| AssistantService.FirstRule | services/assistantService.ts:316-325 | no answer exactly when no rule fires; otherwise the answer of the first rule in table order that fires |
| AssistantService.FirstRuleAt | services/assistantService.ts:316-323 | when rule k fires and no earlier rule does, the answer is rule k's |
| AssistantService.MatchRule | services/assistantService.ts:309-326 | a blank question gets the empty-message answer; any other question gets no answer exactly when no rule fires on the trimmed text; every answer is non-empty |
| AssistantService.RuleAnswersNonEmpty | services/assistantService.ts:17-305 | every canned answer in the table is non-empty, so a table hit is never mistaken for a miss |
| AssistantService.AskAssistant | services/assistantService.ts:356-385 | the response echoes the untrimmed question; the model is called exactly when no rule answers, once and with the fixed fallback; a rule answer is tagged "rule-based"; otherwise the model's text and name are returned |
| AssistantService.RuleBasedIffTableHit | services/assistantService.ts:358-366 | when the model never calls itself "rule-based", the tag is "rule-based" exactly when the rule tier answered |
| AssistantService.BlankQuestion | services/assistantService.ts:310-314 | a blank question gets the empty-message answer, tagged "rule-based", with no model call |
| AssistantService.NoRuleMeansBackend | services/assistantService.ts:371-384 | with no rule firing, the answer is the model's text |
| AssistantService.AnsweredByRule | services/assistantService.ts:309-366 | a question without surrounding blanks whose first firing rule is k gets rule k's answer, tagged "rule-based", with no model call |
| AssistantService.CaspianIsEasterEgg | services/assistantService.ts:19-28 | "caspian" gets the Narnia answer from the first rule |
| AssistantService.IdentityBeforeFeatures | services/assistantService.ts:41-53 | "what does cassian do" gets the identity answer, because that rule comes before the features rule |
| AiSummarizer.GroupIndex | services/aiSummarizer.ts:76 | the group of a path, if there is one |
| AiSummarizer.AddChunk | services/aiSummarizer.ts:75-82 | definition of one loop step: the content is appended to its path's group, or a new group is added at the end with the chunk's language; its properties are stated by AiSummarizer.GroupChunksByFileSpec |
| AiSummarizer.GroupChunksByFile | services/aiSummarizer.ts:72-85 | there are no more groups than chunks, and at least one group when there is a chunk |
| AiSummarizer.GroupChunksByFileSpec | services/aiSummarizer.ts:72-85 | one group per distinct path, in first-appearance order, each holding its path's contents in input order and the language of its first chunk |
| AiSummarizer.GroupsCoverOnce | services/aiSummarizer.ts:72-85 | every group's path occurs in the chunks, every chunk's path has a group, and no path has two groups |
| AiSummarizer.GroupPathsDistinct | services/aiSummarizer.ts:72-85 | no two groups share a path |
| AiSummarizer.ClosesBatch | services/aiSummarizer.ts:155-158 | definition of the close-batch test: 15 groups already, or a non-empty batch that the next group would push past 60000 characters |
| AiSummarizer.Batches | services/aiSummarizer.ts:148-169 | the batches are the greedy partition of the groups under the close-batch test |
| AiSummarizer.BatchesCover | services/aiSummarizer.ts:148-169 | the batches, concatenated, are the groups in order, and no batch is empty |
| AiSummarizer.BatchSize | services/aiSummarizer.ts:156 | every batch has at most 15 groups |
| AiSummarizer.BatchCharLimit | services/aiSummarizer.ts:155-158 | a batch of two or more groups has at most 60000 content characters; only a single group can exceed that |
| AiSummarizer.CallGemini | services/aiSummarizer.ts:33-52 | an exception gives the fallback; non-blank text is trimmed and non-empty; blank text gives the fallback |
| AiSummarizer.ParseBatch | services/aiSummarizer.ts:117-137 | one summary per batch entry, in order, with path and language copied and a non-empty text that is "Source file at <path>" exactly when nothing usable was matched; a usable match gives its trimmed capture as the summary |
| AiSummarizer.SummariseBatches | services/aiSummarizer.ts:171-186 | the batches yield one summary per group |
| AiSummarizer.SummariseBatchesAt | services/aiSummarizer.ts:171-186 | the i-th summary belongs to the i-th group of the concatenated batches, with its path and language and a non-empty text |
| AiSummarizer.SummariseAllFiles | services/aiSummarizer.ts:142-189 | one summary per group |
| AiSummarizer.SummariseAllFilesAt | services/aiSummarizer.ts:142-189 | the i-th summary belongs to the i-th group, with its path and language and a non-empty text |
| AiSummarizer.Limited | services/aiSummarizer.ts:200 | the overview and architecture prompts see a prefix of at most 80 summaries, all of them when there are 80 or fewer |
| AiSummarizer.SummarizeRepo | services/aiSummarizer.ts:254-280 | the summary carries the id and time, one file summary per group and so no more than there are chunks, and an overview and architecture from the model over the first 80 summaries, falling back to the fixed texts |
| AiSummarizer.SummaryPerDistinctPath | services/aiSummarizer.ts:254-280 | every file summary names a chunked path and has a non-empty text, every chunked path has a summary, and no path has two |
| AiSummarizer.FileSummaryPerPath | services/aiSummarizer.ts:142-189 | summarising the grouped chunks gives every chunked path exactly one summary, with a non-empty text |
| RepoLoader.StripGitSuffix | services/repoLoader.ts:29 | stripping ".git" or ".git/" leaves a prefix of the URL |
| RepoLoader.GitSuffixStripped | services/repoLoader.ts:29 | a trailing ".git" or ".git/" is stripped |
| RepoLoader.NoGitSuffix | services/repoLoader.ts:29 | a URL not ending in ".git" keeps its name |
| RepoLoader.StripTrailingSlashes | services/repoLoader.ts:29 | trailing slashes are removed, and only they |
| RepoLoader.LastSegment | services/repoLoader.ts:30 | the last segment holds no "/" |
| RepoLoader.LastOfBase | services/repoLoader.ts:29-30 | the last segment of "…/name" is the name |
| RepoLoader.RepoNameFromUrl | services/repoLoader.ts:28-32 | a repository name is never empty and holds no "/" |
| RepoLoader.RepoNameOfGitHubUrl | services/repoLoader.ts:23-32 | "https://github.com/owner/name", with or without ".git" or ".git/", is named "name" |
| RepoLoader.RepoNameFromZip | services/repoLoader.ts:38-40 | a zip name is never empty, and unless it is "unknown-repo" it is a prefix of the file name |
| RepoLoader.ZipNameRoundTrip | services/repoLoader.ts:34-40 | "name" plus ".zip" in any case is named "name", and a name without that suffix is kept as it is |
| RepoLoader.TextExtension | services/repoLoader.ts:57-67 | the source's ordered test, each branch as an if-and-only-if: ".js" exactly when the text contains "function ", "const " or "import "; otherwise ".py" exactly when it contains "def " (and then never "import "); otherwise ".go" exactly when it contains "package " or "func "; otherwise ".java" exactly when it contains both "class " and "public "; otherwise ".txt" |
| RepoLoader.ImportAloneIsJavaScript | services/repoLoader.ts:59-62 | any text containing "import " is ".js", so the "import " test of the Python branch never decides |
| RepoLoader.CreateTextProject | services/repoLoader.ts:45-74 | a text project always loads into /tmp/repos/<id>, named after the project or "text-upload", and its last effect writes the text to "main" plus the chosen extension |
| RepoLoader.NonEmpty | services/repoLoader.ts:85 | `filter(Boolean)` keeps exactly the non-empty segments, and never more than there are |
| RepoLoader.NonEmptyCounts | services/repoLoader.ts:85 | every non-empty segment is kept as many times as it occurs and the empty ones are dropped, so a repeated segment counts twice towards the length |
| RepoLoader.IsValidGitHubUrl | services/repoLoader.ts:79-90 | definition: the URL parses, with protocol "https:", host "github.com" and at least two non-empty path segments; a parse failure is false |
| RepoLoader.OwnerAndRepoValid | services/repoLoader.ts:79-90 | an https URL on github.com whose path is "/owner/name" is valid |
| RepoLoader.CloneRepo | services/repoLoader.ts:95-112 | an invalid URL fails with the fixed message before any effect; a clone succeeds exactly when the URL is valid and the clone works, into /tmp/repos/<id> and named after the URL |
| RepoLoader.ExtractEntries | services/repoLoader.ts:135-149 | entries are written in order until the first one whose destination leaves the directory; that one's name is reported and nothing after it is touched |
| RepoLoader.ExtractFailsIffEscape | services/repoLoader.ts:135-141 | extraction stops exactly when some entry escapes the directory |
| RepoLoader.ExtractStaysWithin | services/repoLoader.ts:135-149 | every write of the extraction loop lands inside the repository directory |
| RepoLoader.ExtractZipAsWritten | services/repoLoader.ts:120-152 | `extractZip` creates the root and the repository directory first, and succeeds exactly when the archive reads and no entry escapes |
| RepoLoader.ExtractZipLeavesDirectory | services/repoLoader.ts:124-141 | an archive whose only entry is "../escape" fails with "Zip slip detected" and leaves the created directory behind |
| RepoLoader.ExtractZipAsWrittenLeaves | services/repoLoader.ts:124-141 | for every archive, an as-written extraction that throws leaves the directory it created, because it never removes anything |
| RepoLoader.ExtractZip | services/repoLoader.ts:120-152 | succeeds exactly when the as-written extraction does and is then identical to it; on failure it reports the same error and its last effect removes the repository directory |
| RepoLoader.ExtractZipCleansUp | services/repoLoader.ts:120-152 | a failed extraction leaves no directory behind |
| RepoLoader.ExtractZipStaysWithin | services/repoLoader.ts:120-152 | every effect of an extraction is the shared root or lies inside the repository directory |
| RepoLoader.LoadRepo | services/repoLoader.ts:157-172 | `loadRepo` when the version is `AsWritten` (the zip branch runs RepoLoader.ExtractZipAsWritten): an unknown source fails with "Unsupported upload source" and no effect; a successful load is at /tmp/repos/<id> with a non-empty name |
| RepoLoader.LoadRepoBySource | services/repoLoader.ts:162-168 | "github" succeeds exactly for a valid URL that clones and is named after it; "zip" succeeds exactly when no entry escapes and is named after the file, default "upload.zip"; "text" always succeeds, named after the file, default "text-upload" |
| RepoLoader.LoadStaysWithin | services/repoLoader.ts:157-172 | whatever the source, a load touches only the shared root and its own directory |
| RepoLoader.LoadRepoVersions | services/repoLoader.ts:124-141 | the as-written and the corrected load give the same result, and the same effects except that a failed zip load of the corrected one ends by removing /tmp/repos/<id> |
| RepoLoader.FailedZipLoadLeaves | services/repoLoader.ts:124-141 | as written, a zip load that throws has created /tmp/repos/<id> and never removes it |
| RepoLoader.FailedZipLoadCleansUp | services/repoLoader.ts:124-141 | with the corrected extraction, a zip load that throws leaves no directory behind |
| RepoLoader.CleanupRepoAsWritten | services/repoLoader.ts:177-183 | `cleanupRepo` as written removes any path that starts with "/tmp/repos" and refuses every other path |
| RepoLoader.CleanupAcceptsOutside | services/repoLoader.ts:177-183 | that guard lets "/tmp/repos-old" and "/tmp/repos/../etc" be removed |
| RepoLoader.CleanupAsWrittenAcceptsLoaded | services/repoLoader.ts:177-183 | the as-written guard accepts /tmp/repos/<id> for every id |
| RepoLoader.CleanupRepo | services/repoLoader.ts:177-183 | the cleanup removes a path exactly when it lies strictly below /tmp/repos with no "." or ".." segment, and removes nothing else |
| RepoLoader.Cleanup | services/repoLoader.ts:177-183 | the cleanup of either version removes exactly the given path when its guard accepts it (the prefix test as written, the below-root test corrected) and otherwise fails with the refusal and removes nothing |
| RepoLoader.CleanupAcceptsLoaded | services/repoLoader.ts:177-183 | the directory of any loaded repository, /tmp/repos/<id>, is removed |
| RepoLoader.CleanupRefusesOutside | services/repoLoader.ts:177-183 | the root itself, "/tmp/repos-old" and "/tmp/repos/../etc" are refused |
| ChatRoute.ErrorStatus | app/api/chat/route.ts:45-55 | an error is 404 exactly when its message contains "not found", and 500 otherwise |
| ChatRoute.Rejection | app/api/chat/route.ts:12-39 | a chat body is accepted exactly when repoId and question are non-empty strings and the trimmed question has 1..2000 characters |
| ChatRoute.Post | app/api/chat/route.ts:5-57 | the status is 200, 400, 404 or 500, and 200 exactly when the body is data; an unreadable body maps through the error status; a rejected body is 400 with its message and no store change; a 200 answers for the body's id and the trimmed question |
| ChatRoute.StatusOfValidQuestion | app/api/chat/route.ts:42-55 | a valid request is 404 exactly when the store has no live chunks for the id, and 200 exactly when it has |
| ChatRoute.BlankQuestionRejected | app/api/chat/route.ts:26-32 | a whitespace-only question is 400 "Question cannot be empty" and leaves the store alone |
| AssistantRoute.Post | app/api/assistant-chat/route.ts:5-46 | the status is 200, 400 or 500; 200 exactly when the question is a non-empty string of at most 2000 characters once trimmed, answered for the trimmed question; a missing or non-string question is 400; a longer one is 400 with the length message; an unreadable body is 500; no model call happens on an error |
| AssistantRoute.BlankQuestionAnswered | app/api/assistant-chat/route.ts:19-34 | a whitespace-only question is not rejected: it is answered 200 with the empty-message answer for "", without a model call |
| UploadRoute.ProcessRepo | app/api/upload/route.ts:11-40 | for either version of the loader (`AsWritten` is `processRepo`), processing fails exactly when the load fails, with the load's error and no store change; a success reports the new id, its directory and the requested source |
| UploadRoute.ProcessRepoResult | app/api/upload/route.ts:16-39 | a success lists the files, counts files and chunks, reports the overview and architecture, and saves exactly those chunks and that summary |
| UploadRoute.Finish | app/api/upload/route.ts:113-125 | an error is 500 with its message and keeps the load's effects, adding no removal, because `localPath` was never assigned; a success is 200 followed by the version's cleanup of the repository directory (`cleanupRepo` as written under `AsWritten`) |
| UploadRoute.PostJson | app/api/upload/route.ts:51-68 | a JSON upload is 400 with no effect exactly when github_url is not a non-empty string; a 200 is a GitHub load under the new id, cleaned up afterwards |
| UploadRoute.PostForm | app/api/upload/route.ts:71-102 | under `AsWritten` the source's form branch: a form upload is 400 with no effect exactly when the file is missing, is not a Blob, or its name (default "upload.zip") does not end in ".zip" in any case; a 200 is a zip load under the new id, cleaned up afterwards |
| UploadRoute.Post | app/api/upload/route.ts:42-126 | under `AsWritten` the source's route: the status is 200, 400, 415 or 500; 415 exactly when the content type contains neither "application/json" nor "multipart/form-data"; 400 and 415 have no effect and no store change; JSON wins over multipart |
| UploadRoute.PostStaysWithin | app/api/upload/route.ts:42-126 | an upload touches only the shared root and its own repository directory |
| UploadRoute.ProcessStaysWithin | app/api/upload/route.ts:11-40 | a pipeline run and the cleanup after it touch only the shared root and the new repository's directory |
| UploadRoute.UploadThenChat | app/api/upload/route.ts:18-25 | after a 200 upload, the chat store returns exactly the uploaded chunks for the new id at the same time |
| UploadRoute.SuccessfulUploadCleansUp | app/api/upload/route.ts:121-125 | a 200 upload ends by removing its repository directory; as written for every id, corrected for ids that are one plain path segment |
| UploadRoute.FailedZipLeavesDirectory | app/api/upload/route.ts:94-99 | as written, a zip upload answered 500 leaves /tmp/repos/<id> behind: the extraction created it and threw before `localPath` was assigned, so the `finally` block removes nothing |
| UploadRoute.ZipSlipUploadLeavesDirectory | app/api/upload/route.ts:94-99 | as written, a zip upload whose only entry escapes is a 500 with the zip-slip message, and the directory stays on disk |
| UploadRoute.FailedZipLeavesNothing | services/repoLoader.ts:124-141 | the intended behaviour, with the corrected extraction of the Findings: a zip upload answered 500 leaves no directory behind |

## Left out

- Regular expressions of the assistant rules and of the summary parser are
  oracles (`test`, `find`). The table's order, answers and pattern texts are
  modelled; the regex engine is not.
- `toLowerCase` is ASCII-only here; JavaScript lower-cases all of Unicode.
- `localeCompare` in the ranking is replaced by the order of character
  codes (`Text.Less`), a strict total order; locale collation is not modelled.
- String lengths count Dafny characters; JavaScript counts UTF-16 code
  units. They differ only outside the Basic Multilingual Plane.
- UTF-8 decoding (`raw.toString("utf-8")`) is a parameter.
- The generative model, `getModel`, the API key check and the prompt texts
  (`buildChatPrompt`, `buildFileBatchPrompt`, `buildOverviewPrompt`,
  `buildArchitecturePrompt`, `buildAssistantPrompt`) are left out; a model
  call is a function from a request to an answer or an exception.
- `callGeminiWithFallback`, which the assistant imports, is not part of this
  model; it is a function returning a text and a model name.
- `sleep(500)` between batches and the `Promise.all` of the overview and
  architecture calls are left out; they change timing only.
- Logging (`console.log`, `console.error`) is left out.
- The filesystem, `simple-git`, AdmZip and `uuid` are replaced by the
  entry tree, the effect log, the archive's entry list and a given `repoId`.
  `new URL` and `path.join` are oracles.
- The relation between the files written by a load and the tree the parser
  walks is not modelled; the upload route takes the tree as given.
- The stages after a successful load (listing, parsing, chunking,
  summarising, saving) are modelled as not throwing. In the source they can
  only fail on filesystem errors, which the walker swallows.
- One `now` stands for every `Date.now()` of a save: the eviction pass and
  the stored time read the same clock.
- The "text" source is not reachable from the upload route, which only
  passes "github" or "zip"; the model covers it through `RepoLoader.LoadRepo`.
- In a GitHub upload the payload's archive view is unused, and in a zip
  upload its text view is unused.
- The React pages, components and contexts, the Firebase services, the
  project store and the health route are not part of this model.
- AssistantService.RuleBasedIffTableHit: holds only when the model's name is
  never "rule-based"; the source gives no guarantee on the name it receives.
- UploadRoute.SuccessfulUploadCleansUp: for the corrected version, states
  the final removal only for ids that are a single path segment other than
  "." and ".."; a uuid always is. As written it holds for every id.
- RepoLoader.LoadRepo: its own contract states the common facts; the
  per-source outcome is in RepoLoader.LoadRepoBySource.

## Findings

| source | as written | input that shows it | evidently intended | confidence | as-written member | corrected member |
|---|---|---|---|---|---|---|
| services/repoLoader.ts:177-183 | `cleanupRepo` accepts any path that starts with "/tmp/repos" as a string | "/tmp/repos-old" or "/tmp/repos/../etc" is removed | only paths strictly below /tmp/repos, without "." or ".." segments, are removed | high; not executed | RepoLoader.CleanupRepoAsWritten (shown by RepoLoader.CleanupAcceptsOutside) | RepoLoader.CleanupRepo (with RepoLoader.CleanupAcceptsLoaded and RepoLoader.CleanupRefusesOutside) |
| services/repoLoader.ts:124-141 | `extractZip` creates /tmp/repos/<id> and then throws on a zip-slip entry or a bad archive; the route never learns the path, so its `finally` does not clean up (app/api/upload/route.ts:94-99, 121-125) | an archive whose only entry is "../escape" | a failed extraction removes the directory it created | high; not executed | RepoLoader.ExtractZipAsWritten (shown by RepoLoader.ExtractZipLeavesDirectory, RepoLoader.ExtractZipAsWrittenLeaves and, at the route, UploadRoute.FailedZipLeavesDirectory and UploadRoute.ZipSlipUploadLeavesDirectory) | RepoLoader.ExtractZip (with RepoLoader.ExtractZipCleansUp, RepoLoader.FailedZipLoadCleansUp and UploadRoute.FailedZipLeavesNothing) |
