# BioBot (UI2) in Dafny

BioBot is a chat assistant for laboratory-automation scripts. It has three layers, and this
project models the part of each that decides what happens to text:

- **The retrieval-and-repair pipeline** (`UI2/main_rag.py`) does four things:
  - It cleans reStructuredText documentation and cuts it into labelled chunks.
  - It retries the embeddings service on rate limits.
  - It asks a language model for an Opentrons protocol and runs the script in the simulator. When
    the simulation fails, it feeds the error back in a repair prompt, up to `max_attempts` times.
  - It takes code out of a model reply.
- **The chat engine** (`UI2/engine.py`) does three things:
  - It picks the conversation window sent to the model: the first system message and the last
    nine others.
  - It appends the reply to the conversation, either whole or streamed.
  - It dispatches a user query on its classification.
- **The web application** (`UI2/app.py`) and **the chat page** (`UI2/static/script.js`) do the
  following:
  - They seed a new chat.
  - They hide system messages from the visible history.
  - They give a chat its automatic title.
  - They validate messages, renames and profile updates.
  - They split a streamed bot reply into text and fenced code blocks, escape it for HTML, and keep
    an unfinished code block buffered.

Everything the code relies on from the outside is a parameter of the model:

- the language model, the classifier and the embeddings service;
- the simulator;
- the nearest-neighbour search, which gives its result indices;
- the directory walk, which gives its documents in order.

Python's string primitives are modelled on `seq<char>` in `PyStr`:

- `str.isspace`, `strip`, `split()`, `splitlines`, `join`, `startswith`, `in`;
- decimal formatting.

The fenced-block pattern ```` ```(?:python)?\n(.*?)``` ```` is used by both the pipeline and the
page. It is modelled once, in `Fences`, as an explicit leftmost, shortest matcher.

Modules, in dependency order:

- `Wrappers` and `PyStr`: `py_str.dfy`.
- `Fences`: `fences.dfy`.
- `RstClean`: `rst_clean.dfy`.
- `RstChunker`: `rst_chunker.dfy`.
- `EmbeddingRetry`: `embedding_retry.dfy`.
- `CodeExtraction`: `code_extraction.dfy`.
- `CorrectionLoop`: `correction_loop.dfy`.
- `Engine`: `engine.dfy`.
- `ChatApp`: `chat_app.dfy`.
- `BotStream`: `bot_stream.dfy`.

Where the code and its written description differ, the model follows the code:

- **An empty reply keeps the previous error.** When the model returns an empty reply, the repair
  loop stops and reports the `last_error` of the previous failed attempt, not an empty error.
- **The chat-message check does not trim.** It refuses only a missing or empty message, so a
  message of spaces only is accepted.

## Model

| member | source | states |
|---|---|---|
| PyStr.Strip | UI2/main_rag.py:89 | `str.strip()`: empty exactly when the input is all whitespace; otherwise it begins and ends with a non-whitespace character and is no longer than the input |
| PyStr.StripMiddle | UI2/main_rag.py:89 | the stripped text is the input with its leading whitespace and an all-whitespace tail cut off |
| PyStr.LeadingSpaceUnique | UI2/main_rag.py:43 | the greedy `\s*` length is the only whitespace prefix followed by a non-whitespace character |
| PyStr.StartsWithSlice | UI2/main_rag.py:82 | `startswith` holds exactly when the prefix equals the first characters of the string |
| PyStr.StartsWithAnyTrans | UI2/main_rag.py:82 | a string that starts with a text starting with one of the tuple's prefixes itself starts with that prefix |
| PyStr.Contains | UI2/main_rag.py:163 | `t in s` holds exactly when `t` occurs at some position of `s` |
| PyStr.MentionsIsContains | UI2/main_rag.py:163 | the scanning test used in the model agrees with `t in s` in both directions |
| PyStr.MentionsAfter | UI2/main_rag.py:64 | text that starts with `t` still contains `t` after any prefix is put in front of it |
| PyStr.Words | UI2/app.py:213 | `split()` with no separator yields only non-empty words without whitespace |
| PyStr.WordsOfJoin | UI2/app.py:213-214 | splitting words that were joined by single spaces gives back exactly those words |
| PyStr.SplitLines | UI2/main_rag.py:78 | `splitlines()` yields no lines exactly for empty text |
| PyStr.SplitLinesHaveNoBreaks | UI2/main_rag.py:78 | every line `splitlines()` yields is free of line breaks |
| PyStr.JoinSplitLines | UI2/main_rag.py:78-89 | on text whose only line break is `\n` and that does not end in one, `"\n".join` undoes `splitlines` |
| PyStr.ConcatAppend | UI2/engine.py:84 | concatenating tokens in two parts is concatenating them at once |
| PyStr.DecimalValueOfNatToString | UI2/main_rag.py:50 | the numeral printed for a section or part number reads back as that number |
| PyStr.NatToStringInjective | UI2/main_rag.py:50 | distinct numbers print as distinct numerals |
| Fences.FindFrom | UI2/main_rag.py:74 | finds the first occurrence of the closing fence at or after a position, or says there is none |
| Fences.MatchAt | UI2/main_rag.py:74 | a match anchored at `p` is a block: the opener with or without `python`, then a body free of fences, then the closing fence |
| Fences.MatchAtComplete | UI2/main_rag.py:74 | every block that starts at `p` is the one the matcher reports there, so the lazy body is the shortest one |
| Fences.Search | UI2/main_rag.py:74 | `re.search`: the leftmost match at or after `from`, with no match at any earlier position; none only when no position matches |
| Fences.BodyHasNoFence | UI2/static/script.js:56 | a matched body never contains the fence |
| Fences.BlockText | UI2/static/script.js:56-66 | the matched text is the opener, the body and the closing fence, in that order |
| CodeExtraction.IndentTestNeverHolds | UI2/main_rag.py:82 | after `strip()` a line never starts with a space, so a line is a code line exactly when its stripped text starts with a keyword |
| CodeExtraction.CodeStart | UI2/main_rag.py:81-84 | the line where code starts is within the lines and, when there is one, counts as code |
| CodeExtraction.CodeStartFirst | UI2/main_rag.py:81-84 | no line before the start of code counts as code, so the flag turns on at the first code line |
| CodeExtraction.CodeEndMeaning | UI2/main_rag.py:85-88 | after code has started, every collected line is code or blank, and the line that stops the loop is neither |
| CodeExtraction.CodeEndAt | UI2/main_rag.py:87-88 | the first line after the start that is neither code nor blank is where the collection stops |
| CodeExtraction.ExtractCode | UI2/main_rag.py:73-89 | the stripped body of the first fenced block when there is one; otherwise the stripped join of the lines from the first code line to the first line that is neither code nor blank |
| CodeExtraction.ScanLines | UI2/main_rag.py:78-88 | the line loop with its `code_started` flag collects exactly the lines from the first code line to the first other non-blank line |
| CodeExtraction.ScanResultStartsWithKeyword | UI2/main_rag.py:82-89 | the fallback gives "" exactly when no line is code; otherwise its result starts with one of the seven keywords |
| RstClean.SpanEnd | UI2/main_rag.py:27-28 | the lazy `.*?` stops at the first closer and never crosses a line feed |
| RstClean.SpanEndFinds | UI2/main_rag.py:27-28 | the first closer reached on the same line is the end that the lazy match picks |
| RstClean.RemoveSpans | UI2/main_rag.py:27-28 | `re.sub` of a pattern by "" never lengthens the text |
| RstClean.RemoveSpansKeepsOrder | UI2/main_rag.py:27-28 | removing matches leaves a subsequence of the text: nothing is added or reordered |
| RstClean.RemoveSpansIdentity | UI2/main_rag.py:27-28 | text without the opener is left unchanged |
| RstClean.SpanIsRemoved | UI2/main_rag.py:27-28 | a directive or reference at the front is removed entirely and scanning resumes after it |
| RstClean.RemoveSpansKeepsLineFeeds | UI2/main_rag.py:27-28 | a substitution never removes a line feed, because `.` does not match one |
| RstClean.CleanRstProperties | UI2/main_rag.py:26-29 | `clean_rst_content` keeps order and every line feed, so the heading lines survive; it does not change text that has no `.. ` directive and no `:ref:` |
| RstChunker.SpaceEndMeaning | UI2/main_rag.py:43 | the greedy `\s*` consumes only whitespace and stops at the end or before other text |
| RstChunker.SpaceEndUnique | UI2/main_rag.py:43 | any whitespace stretch that stops before other text is the one `\s*` takes |
| RstChunker.RunEndMeaning | UI2/main_rag.py:43 | the greedy run of one underline character consumes only that character and stops before any other |
| RstChunker.RunEndUnique | UI2/main_rag.py:43 | any such run that stops before another character is the one the greedy match takes |
| RstChunker.HeadingAtSound | UI2/main_rag.py:43 | what the separator matcher reports at `p` is a match of `\n\s*(=+\|-+\|~+\|\^+\|\++)\n` |
| RstChunker.HeadingAtExact | UI2/main_rag.py:43 | every match anchored at `p` is the one the matcher reports, so the greedy choices lose no match |
| RstChunker.HeadingsAreMatches | UI2/main_rag.py:43 | every separator found by the scan is a match of the pattern, from the scan's start on |
| RstChunker.HeadingRun | UI2/main_rag.py:43 | the captured group of a match is a non-empty run of one underline character |
| RstChunker.SplitCount | UI2/main_rag.py:43 | `re.split` with one group returns `2k+1` pieces for `k` separators |
| RstChunker.SplitRuns | UI2/main_rag.py:43-44 | the odd pieces of the split (`sections[1::2]`) are exactly the captured underline runs, in order |
| RstChunker.RunTextsAreUnderlines | UI2/main_rag.py:43-44 | every captured piece is an underline run |
| RstChunker.PairSections | UI2/main_rag.py:44 | `zip(sections[::2], sections[1::2])` gives one section per pair, `⌊n/2⌋` of them |
| RstChunker.StripKeepsSolidEnd | UI2/main_rag.py:44 | stripping text that ends in non-whitespace keeps that ending |
| RstChunker.PairSectionsEndWithRun | UI2/main_rag.py:44 | each joined, stripped pair ends with its underline run |
| RstChunker.SectionsFollowHeadings | UI2/main_rag.py:43-44 | there is one logical section per heading underline, ending with that underline; the text after the last heading is dropped |
| RstChunker.NoHeadingNoSections | UI2/main_rag.py:43-44 | a document has no logical section exactly when it has no heading separator |
| RstChunker.WindowsPartition | UI2/main_rag.py:47-48 | the windows of a section are non-empty, at most `chunk_size` long, and concatenate back to the section |
| RstChunker.WindowsCount | UI2/main_rag.py:47 | `range(0, len, chunk_size)` makes `⌈len/chunk_size⌉` windows |
| RstChunker.LabelInjective | UI2/main_rag.py:50 | a source label determines its section and part numbers |
| RstChunker.PartLabels | UI2/main_rag.py:50 | the `j`-th label of a section names part `j` |
| RstChunker.ChunksCoverSections | UI2/main_rag.py:46-50 | a document gets exactly one label per chunk; its chunks are bounded and concatenate back to its sections |
| RstChunker.LabelsNameSections | UI2/main_rag.py:46-50 | every label names an existing section of its file |
| RstChunker.LabelsDistinct | UI2/main_rag.py:46-50 | no two chunks of a document carry the same label |
| RstChunker.ChunkSection | UI2/main_rag.py:47-50 | the loop over one section yields its windows, and labels numbered by part |
| RstChunker.ChunkDocument | UI2/main_rag.py:41-50 | one document's chunks and labels; a chunk size of 0 raises exactly when the document has a section, and a negative size yields nothing |
| RstChunker.ChunkWalkedFile | UI2/main_rag.py:36-50 | one walked file: an `.rst` file adds its sections' windows and labels, any other file nothing; a zero chunk size raises exactly when the file has a section |
| RstChunker.HasSectionMeaning | UI2/main_rag.py:35-47 | the walk raises on a zero chunk size exactly when some `.rst` document of it has a section |
| RstChunker.HasSectionStep | UI2/main_rag.py:35-37 | walking one more document raises on a zero size exactly when that document has a section or an earlier one did |
| RstChunker.SplitCorpus | UI2/main_rag.py:31-51 | `split_rst_into_chunks` over the walked documents: only `.rst` files contribute, in walk order; it raises exactly on a zero size with some section |
| RstChunker.CorpusChunksMatchLabels | UI2/main_rag.py:31-51 | the chunk list and the source list stay parallel |
| EmbeddingRetry.LowerPointwise | UI2/main_rag.py:64 | lower-casing works character by character and keeps the length |
| EmbeddingRetry.FirstDecisiveMeaning | UI2/main_rag.py:56-69 | every call before the first decisive call failed on a rate limit, and the decisive call, if any, did not |
| EmbeddingRetry.BackoffIsPow2 | UI2/main_rag.py:67 | after `j` doublings the delay is `delay·2^j` |
| EmbeddingRetry.BackoffSign | UI2/main_rag.py:66-67 | a delay on the doubling schedule is negative exactly when the initial delay is, so only the first sleep can be rejected |
| EmbeddingRetry.EmbedWithRetry | UI2/main_rag.py:54-70 | calls stop at the first call that is not rate-limited; the `j`-th rate-limited call sleeps the delay doubled `j` times, never a negative one; any other error is raised at once; the embedding is that call's; with a negative initial delay, a rate-limited first call ends in the error `time.sleep` raises; otherwise it gives up exactly when every allowed call was rate-limited |
| EmbeddingRetry.OtherErrorStopsAtOnce | UI2/main_rag.py:68-69 | a non-rate-limit error after only rate-limited calls is the last call |
| EmbeddingRetry.FirstDecisiveExact | UI2/main_rag.py:56-69 | the decisive call is unique: any call that meets its description is it |
| EmbeddingRetry.LowerAppend | UI2/main_rag.py:64 | lower-casing distributes over concatenation |
| EmbeddingRetry.LowerWithoutCapitals | UI2/main_rag.py:64 | text without capitals is its own lower-case form |
| EmbeddingRetry.RateLimitRecognised | UI2/main_rag.py:64 | an error text containing "Rate limit" anywhere counts as a rate limit |
| CorrectionLoop.PassesMeaning | UI2/main_rag.py:163 | a simulation passes exactly when stderr contains neither "Error" nor "Traceback" and stdout is not all whitespace |
| CorrectionLoop.ErrorWordFails | UI2/main_rag.py:163 | any stderr containing "Error" or "Traceback" fails, whatever stdout is |
| CorrectionLoop.Gather | UI2/main_rag.py:142-143 | the retrieved list has one entry per search index, when no index raises |
| CorrectionLoop.GatherMeaning | UI2/main_rag.py:142-143 | retrieval succeeds exactly when every index is in `[-n, n)`; negative indices count from the end |
| CorrectionLoop.MissingNeighbourIsLastChunk | UI2/main_rag.py:141-142 | the search's "no neighbour" index -1 retrieves the last chunk |
| CorrectionLoop.QuotesBoth | UI2/main_rag.py:146-153 | a two-slot template holds each inserted text at its slot |
| CorrectionLoop.SynthesisPromptQuotes | UI2/main_rag.py:146-153 | the first prompt quotes the joined context, then the question, at fixed offsets |
| CorrectionLoop.QuotesThree | UI2/main_rag.py:171-179 | a three-slot template holds each inserted text at its slot |
| CorrectionLoop.RepairPromptQuotes | UI2/main_rag.py:171-179 | the repair prompt quotes the stderr, the failed code and the question, in that order |
| CorrectionLoop.RunsAgreeAt | UI2/main_rag.py:155-181 | with the same model and simulator, the k-th attempts of two runs are equal |
| CorrectionLoop.RunsAgree | UI2/main_rag.py:155-181 | a shorter run is a prefix of a longer one, so the loop is determined by its oracles |
| CorrectionLoop.CyclesExtend | UI2/main_rag.py:155-162 | an attempt numbered after the others that is one generate-and-simulate cycle keeps the trace made of cycles |
| CorrectionLoop.ChainExtends | UI2/main_rag.py:170-181 | an attempt sent the repair prompt built from the last failure keeps every failed attempt followed by its repair |
| CorrectionLoop.RunExtends | UI2/main_rag.py:155-181 | a run whose last attempt failed grows by one cycle with the repair prompt |
| CorrectionLoop.Cycle | UI2/main_rag.py:156-162 | one attempt: the reply to the prompt is simulated when it is non-empty |
| CorrectionLoop.ReverseCheck | UI2/main_rag.py:164-168 | a suggested script is taken exactly when the verdict holds a fenced block |
| CorrectionLoop.RunQueryAndFix | UI2/main_rag.py:139-183 | `run_query_and_fix`: see the summary below the table |
| Engine.SystemIndex | UI2/engine.py:50 | the position of the first system message; no earlier message is one |
| Engine.NonSystemAppend | UI2/engine.py:51 | the non-system filter distributes over concatenation |
| Engine.NonSystemMeaning | UI2/engine.py:51 | the filter keeps only non-system messages of the history, and all of them when there is no system message |
| Engine.LastIsSuffix | UI2/engine.py:52 | `xs[-9:]` is the suffix of length `min(9, n)` |
| Engine.WindowShape | UI2/engine.py:50-53 | the window holds at most 10 messages: the first system message, if any, then the last `min(9, n)` non-system messages in order, with no other system message |
| Engine.WindowWithoutSystem | UI2/engine.py:50-53 | with no system message, the window is the last nine messages |
| Engine.ReplyEntersWindow | UI2/engine.py:59-61 | the appended reply is the last message of the next window, behind the same system message |
| Engine.DeltasAppend | UI2/engine.py:81-85 | consuming a stream in two parts yields the same tokens |
| Engine.DeltasMeaning | UI2/engine.py:81-85 | every yielded token is the delta of a text-delta event; other events yield nothing |
| Engine.ChatHistory.RunGpt | UI2/engine.py:44-63 | the reply is the model's answer to the window, and the history gains exactly that assistant message |
| Engine.ChatHistory.RunGptStream | UI2/engine.py:65-90 | the tokens are the text deltas of the stream in order, and the history gains one assistant message holding their concatenation |
| Engine.ProcessUserQuery | UI2/engine.py:94-106 | "code" yields the generator's stripped output; "general" or "out" streams over a copy, leaving the caller's history unchanged; anything else yields no reply |
| ChatApp.VisibleHistoryAppend | UI2/app.py:242 | the visible history grows with the stored one; a system message adds nothing |
| ChatApp.NewChatShowsIntro | UI2/app.py:140-150 | a new chat shows only the introduction, and the model receives both seed messages |
| ChatApp.TitlePreviewWords | UI2/app.py:213-216 | the title splits back into the first five words, followed by "..." when there were more, or into all the words |
| ChatApp.AutoTitle | UI2/app.py:209-220 | only a chat still named "New chat" is renamed; a missing chat stays missing |
| ChatApp.TitledOnce | UI2/app.py:212 | once renamed, later messages leave the title alone |
| ChatApp.CheckMessage | UI2/app.py:165-167 | refused exactly when the message is absent or empty |
| ChatApp.BlankMessageAccepted | UI2/app.py:165-167 | a whitespace-only message is accepted unchanged |
| ChatApp.ValidateRename | UI2/app.py:293-295 | refused exactly when the name is missing or only whitespace |
| ChatApp.RenameIsStable | UI2/app.py:293-301 | an accepted name is stripped and non-empty, so renaming to it again stores the same name |
| ChatApp.ValidateProfile | UI2/app.py:336-343 | refused exactly when first name, last name or e-mail is blank after stripping; an accepted profile has all three non-empty |
| ChatApp.OptionalFieldsDoNotMatter | UI2/app.py:339-342 | the API key and the country never decide acceptance; an absent one is stored as "" |
| BotStream.ReplaceAllAppend | UI2/static/script.js:24-26 | a global replace distributes over concatenation |
| BotStream.EscapeHtmlOfAppend | UI2/static/script.js:22-27 | escaping distributes over concatenation |
| BotStream.EscapeHtmlOfChar | UI2/static/script.js:22-27 | one character escapes to its entity: `&amp;`, `&lt;`, `&gt;`, or itself |
| BotStream.EscapeHtmlIsEscapeEach | UI2/static/script.js:22-27 | the three passes, with `&` first, equal per-character escaping, so no entity is escaped twice |
| BotStream.UnescapeEscapeChar | UI2/static/script.js:22-27 | the entity of one character decodes back to that character, whatever follows it |
| BotStream.UnescapeEscape | UI2/static/script.js:22-27 | unescaping gives back the original text, so escaping loses nothing |
| BotStream.EscapeHasNoAngles | UI2/static/script.js:22-27 | escaped text contains no `<` or `>`, so it cannot form a tag |
| BotStream.EscapeKeepsPlainText | UI2/static/script.js:22-27 | text without `&`, `<`, `>` is shown unchanged |
| BotStream.SourceOfAppend | UI2/static/script.js:59-66 | the stream text of fragments distributes over concatenation |
| BotStream.BlockFragmentsSource | UI2/static/script.js:63-66 | the text before a block and the block together are the stream text they came from |
| BotStream.ScanReassembles | UI2/static/script.js:62-70 | the fragments, followed by the remainder, reassemble the buffer exactly |
| BotStream.ScanWellFormed | UI2/static/script.js:63-65 | text fragments are never empty, and each code fragment has an opener and a fence-free body |
| BotStream.ScanLeavesNoBlock | UI2/static/script.js:62-70 | the remainder holds no complete code block |
| BotStream.StepKeepsScan | UI2/static/script.js:62-67 | each round of the `exec` loop keeps the fragments emitted so far consistent with the scan of the whole buffer |
| BotStream.BotMessage.AppendChunk | UI2/static/script.js:52-71 | the fragments are the complete blocks of buffer+chunk with the text between them; a remainder that does not start with a fence is flushed and the buffer emptied; otherwise the remainder stays buffered |
| BotStream.AppendChunkMeaning | UI2/static/script.js:52-120 | after a chunk, the buffer is empty or starts with a fence; the fragments, the flushed text and the buffer reassemble buffer+chunk; every fragment is well formed |
| BotStream.EscapeHtml | UI2/static/script.js:22-27 | `escapeHtml`: replaces every `&`, then every `<`, then every `>` by its entity |
| RstClean.CleanRst | UI2/main_rag.py:26-29 | `clean_rst_content`: removes the shortest `.. …::` directive spans within a line, then the shortest ``:ref:`…` `` spans within a line |
| RstChunker.SplitOnHeadings | UI2/main_rag.py:43 | `re.split` on heading underlines: the text pieces between matches with the captured underline run after each piece |
| RstChunker.LogicalSections | UI2/main_rag.py:44 | each text piece joined with the underline after it and stripped; a trailing piece with no underline is dropped |
| RstChunker.Windows | UI2/main_rag.py:47-48 | the consecutive `chunk_size` slices of a section, the last one shorter |
| RstChunker.Label | UI2/main_rag.py:50 | the source label `"{file} (section {idx}, part {part})"` |
| RstChunker.SectionChunks | UI2/main_rag.py:46-49 | the windows of every section of a file, section after section |
| RstChunker.SectionLabels | UI2/main_rag.py:46-50 | the label of each of those windows, numbered by section and part |
| CorrectionLoop.Passes | UI2/main_rag.py:163 | a simulation passes when stderr contains neither "Error" nor "Traceback" and stdout is not blank |
| CorrectionLoop.Retrieved | UI2/main_rag.py:142-143 | the chunks and sources at the search indices, or nothing when an index is out of range |
| CorrectionLoop.Text | UI2/main_rag.py:146-153 | the synthesis prompt around the context and question, and the repair prompt (`UI2/main_rag.py:171-179`) around stderr, code and question |
| EmbeddingRetry.IsRateLimit | UI2/main_rag.py:64 | the error message, lower-cased, contains "rate limit" |
| EmbeddingRetry.Lower | UI2/main_rag.py:64 | `str.lower()` on ASCII capitals, character by character |
| EmbeddingRetry.Backoff | UI2/main_rag.py:66-67 | the delay slept at the `j`-th rate-limited call: the initial delay doubled `j` times |
| CodeExtraction.IsCodeLine | UI2/main_rag.py:82 | the stripped line starts with one of the seven keywords, or starts with a space |
| CodeExtraction.CodeEnd | UI2/main_rag.py:85-88 | the first line at or after a position that is neither code nor blank, where the scan stops |
| CodeExtraction.ScannedLines | UI2/main_rag.py:81-88 | the lines the fallback scan collects: from the first code line up to the line that stops it |
| Engine.Window | UI2/engine.py:50-53 | the first system message, if any, followed by the last nine other messages |
| Engine.NonSystem | UI2/engine.py:51 | the messages whose role is not "system", in order |
| Engine.FirstSystem | UI2/engine.py:50 | the first message whose role is "system", or none |
| Engine.Deltas | UI2/engine.py:81-85 | the deltas of the text-delta events, in order: the tokens the stream yields |
| ChatApp.NewChatHistory | UI2/app.py:140-150 | the system prompt, then the assistant's introduction |
| ChatApp.VisibleHistory | UI2/app.py:242 | the stored messages without the system ones, in order |
| ChatApp.TitlePreview | UI2/app.py:213-216 | the first five words of the stripped message joined by single spaces, followed by "..." when there were more |

`CorrectionLoop.RunQueryAndFix` states:

- A failing retrieval raises.
- `max_attempts < 1` leaves `attempt` unbound, which raises.
- Otherwise it returns the retrieved chunks and sources, and `attempt` equals the number of cycles,
  between 1 and `max_attempts`, forming a run.
- It returns the code exactly when the last script passed, with an empty error.
- An empty reply stops with the previous stripped stderr.
- A failure is the last one only at `max_attempts`, and it reports its stripped stderr.

## Left out

- The OpenAI clients (embeddings, responses, classification) are oracles: function-valued
  parameters. The model name, API keys and network errors other than a failure message are not
  modelled.
- Faiss/numpy index building and search are left out. The search result indices are an input of
  `CorrectionLoop.RunQueryAndFix`, and no nearest-neighbour property is stated.
- `os.walk` and file reading are left out. The documents and their order are an input of
  `RstChunker.SplitCorpus`.
- `time.sleep` is left out, except that it rejects a negative delay. The model records the delays
  it would sleep instead.
- `print` calls are left out: the retry messages, `main_rag.py error:` and the api-key echo.
- `subprocess.run` (the simulator and the `main_rag.py` child process) is an oracle. For a
  "code" query, the child's exit status is left out.
- The wording of the reverse-check prompt (`UI2/main_rag.py:122-134`) is left out. The review
  model receives the question and the code.
- The reverse check's result is computed and discarded by the source, and it is modelled as such.
- SQLite storage, sessions and login are left out: `app.py` routes other than the message,
  history, new-chat, rename and profile logic.
- The HTTP status codes are left out.
- `EmbeddingRetry.Lower`: only ASCII letters are lower-cased. Python's `str.lower` is
  full-Unicode. This does not change whether "rate limit" (all ASCII) is found after an ASCII
  capital, but non-ASCII capitals are not lower-cased.
- Generator laziness in `run_gpt_stream` is left out. The history is appended only when the stream
  is consumed to the end; the model assumes full consumption.
- DOM rendering is left out: the `<br>` replacement, the copy button and auto-scroll. The
  fragments and the flushed text are what the page renders.
- A JSON body that is not an object, or a field that is JSON `null`, is left out. An absent field
  is `None`, and other fields are strings.
- Newline translation on reading is left out. `open(full_path, 'r')` turns "\r\n" and "\r" into
  "\n"; the model's document content is the text after that translation, so a raw "\r\n" text
  given as content has no headings.
- `RstChunker.Windows`: chunking by `len()` counts code points, like `seq<char>`. Surrogate
  handling is not modelled.
