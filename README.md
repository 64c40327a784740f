# RAG chatbot core, modelled in Dafny

The repository is a retrieval-augmented chatbot. It cuts documents into overlapping text
chunks, embeds them into a Pinecone index, and at question time retrieves the stored chunks
most similar to the question and passes them to an OpenAI chat model inside a fixed prompt.
This project models the parts of that program that are local logic, and proves what they do:

- `rag_chatbot/utils.py`:
  - `chunk_text`, the cursor loop that cuts windows, strips them and keeps the non-empty ones;
  - `batched`, which groups items with `itertools.islice`;
  - `iter_text_files`, which selects the supported text files, sorted.
- `rag_chatbot/chatbot.py`:
  - the loop of `_retrieve` that pulls the `"chunk"` metadata out of a query response;
  - `_build_prompt`, which assembles the prompt.
- `rag_chatbot/config.py`: the `Settings` defaults and `Settings.from_env`, with its
  missing-variable error.

Files:

- `wrappers.dfy`: `Option` and `Result`; `basics.dfy`: `Min`, `Max` and associativity of sequence concatenation.
- `text.dfy`: `str.strip()`, `str.join`, `str.lower()` on suffixes, and substring tests.
- `chunking.dfy`: `chunk_text` as written.
- `chunking_corrected.dfy`: the chunker its documentation describes.
- `batching.dfy`, `scanning.dfy`, `chatbot.dfy`, `config.dfy`: the other three operations.

Loops are modelled as Dafny methods with loop invariants:
- the `while` loop of `chunk_text`, as written and corrected;
- the `while True` loop of `batched`;
- the generator loop of `iter_text_files`;
- the extraction loop of `_retrieve`.

`from_env` has no loop. It builds its `missing` list by three conditional appends, and it is
the straight-line method `Config.FromEnv`. Each method is proved equal to a specification
function, and the properties are lemmas about those functions.

`chunk_text` as written does not terminate for every input (see Findings). It is therefore a
`Run` function over the loop state with a step budget: `Finished` is the list the source
returns, `Suspended` is the state when the budget ran out while the source would still loop.

`rag_chatbot/ingestion.py` is not modelled. It labels each stored chunk with a fresh
`uuid.uuid4()` (rag_chatbot/ingestion.py:63), retries nothing, and chunks each document eagerly
(rag_chatbot/ingestion.py:50).

## Model

| member | source | states |
|---|---|---|
| Text.StripIsTrimmedInfix | rag_chatbot/utils.py:44 | `strip()` is empty exactly for all-whitespace windows; otherwise it is an infix neither starting nor ending with whitespace and surrounded only by whitespace |
| Text.StripKeepsTrimmed | rag_chatbot/utils.py:44 | a string that starts and ends with non-whitespace is its own strip |
| Text.JoinContainsEach | rag_chatbot/chatbot.py:53 | every joined string occurs in `sep.join(xs)` |
| Chunking.ChunkText | rag_chatbot/utils.py:31-52 | the loop's outcome is `Chunks`; it raises exactly when `chunk_size <= 0` or `chunk_overlap >= chunk_size`, with the first failing check's error; every chunk returned or built so far is the non-empty strip of a window at most `chunk_size` long; empty text gives `[]` |
| Chunking.ValidationBeforeAnyChunk | rag_chatbot/utils.py:34-37 | the two checks alone decide whether an error is raised, a size check failure reports the size error, and a negative overlap is accepted |
| Chunking.ChunksFromWindows | rag_chatbot/utils.py:43-46 | for every budget, each chunk is the non-empty strip of some `text[s:e]` with `0 <= s < e <= len(text)` and `e - s <= chunk_size` |
| Chunking.RunChunksFromWindows | rag_chatbot/utils.py:42-51 | the property above is an invariant of every iteration from any loop state |
| Chunking.ZeroOverlapSkipsOneCharacter | rag_chatbot/utils.py:47-51 | with overlap 0 the next window starts at `end + 1` |
| Chunking.NonPositiveOverlapAdvances | rag_chatbot/utils.py:47-51 | with overlap <= 0 the cursor moves to `end - overlap` (plus 1 when the overlap is 0), strictly forward |
| Chunking.NonPositiveOverlapTerminates | rag_chatbot/utils.py:42-51 | with overlap <= 0 the loop returns within `len(text)` iterations |
| Chunking.FinishedIsStable | rag_chatbot/utils.py:42-52 | once the loop has returned, a larger budget gives the same list |
| Chunking.ZeroOverlapExample | rag_chatbot/utils.py:42-52 | `chunk_text("ABCDEFGHIJ", 4, 0)` returns `["ABCD", "FGHI"]` |
| Chunking.PositiveOverlapAdvance | rag_chatbot/utils.py:43-47 | while the window ends before the text, the next one starts `chunk_overlap` before the previous end |
| Chunking.PositiveOverlapFixedPoint | rag_chatbot/utils.py:43-49 | once a window reaches the end, the cursor becomes `max(0, len(text) - chunk_overlap)` and stays there, inside the text |
| Chunking.PositiveOverlapStaysInside | rag_chatbot/utils.py:43-51 | with `0 < overlap < size` the cursor never leaves `[0, len(text))` |
| Chunking.PositiveOverlapNeverFinishes | rag_chatbot/utils.py:42-51 | with `0 < overlap < size` and non-empty text the loop never returns, whatever the budget |
| Chunking.PositiveOverlapRepeatsLastChunk | rag_chatbot/utils.py:43-51 | at the fixed point each iteration appends the same last chunk again (when it is non-empty) |
| CorrectedChunking.ChunkTextCorrected | rag_chatbot/utils.py:31-52 | the documented chunker (stop once a window reaches the end, no `+1`) returns `Corrected`: the non-empty strips of its windows in order, or the same two errors |
| CorrectedChunking.CorrectedChunksFromWindows | rag_chatbot/utils.py:43-46 | every corrected chunk is the non-empty strip of a window at most `chunk_size` long, with at most one chunk per window |
| CorrectedChunking.WindowsShape | rag_chatbot/utils.py:43 | every window is a non-empty slice of the text, at most `chunk_size` long, starting at or after the cursor |
| CorrectedChunking.WindowsOverlapExactly | rag_chatbot/utils.py:32 | for `0 <= overlap < size` each window but the last is `chunk_size` long and the next starts `chunk_overlap` before its end |
| CorrectedChunking.WindowsCover | rag_chatbot/utils.py:32 | for `0 <= overlap` every character of the text lies in some window |
| CorrectedChunking.WindowCountBound | rag_chatbot/utils.py:42-51 | the corrected loop runs at most ceil(len / (size - overlap)) iterations |
| CorrectedChunking.CorrectedOverlapExample | rag_chatbot/utils.py:32 | `"ABCDEFGHIJ"`, 4, 1 gives `"ABCD"`, `"DEFG"`, `"GHIJ"` |
| CorrectedChunking.CorrectedZeroOverlapExample | rag_chatbot/utils.py:50-51 | `"ABCDEFGHIJ"`, 4, 0 gives `"ABCD"`, `"EFGH"`, `"IJ"`: no character is lost |
| CorrectedChunking.AsWrittenOverlapExampleDiverges | rag_chatbot/utils.py:47-49 | the loop as written never returns on `"ABCDEFGHIJ"`, 4, 1 |
| CorrectedChunking.NegativeOverlapAgrees | rag_chatbot/utils.py:42-52 | for a negative overlap the loop as written returns exactly the corrected chunks |
| CorrectedChunking.NegativeOverlapRunAgrees | rag_chatbot/utils.py:42-51 | from any loop state with a negative overlap, the loop appends the corrected pieces of the remaining windows and returns |
| CorrectedChunking.NegativeOverlapStepAgrees | rag_chatbot/utils.py:43-47 | with a negative overlap one window moves its piece from the windows still to come to the chunk list |
| Batching.Batched | rag_chatbot/utils.py:55-63 | a negative size raises; otherwise the loop yields exactly `Groups(items, batch_size)` |
| Batching.FlattenGroups | rag_chatbot/utils.py:58-63 | concatenating the batches gives back the input, in order |
| Batching.GroupsWellSized | rag_chatbot/utils.py:58-63 | batches are non-empty, at most `batch_size` long, full except possibly the last, and there are ceil(N / batch_size) of them |
| Batching.GroupsUnique | rag_chatbot/utils.py:58-63 | any well-sized split that flattens back to the input is the batches themselves |
| Batching.NoBatches | rag_chatbot/utils.py:60-62 | an empty input, and a batch size of 0, yield no batch |
| Scanning.IterTextFiles | rag_chatbot/utils.py:14-28 | the generator yields `TextFiles(root)` or raises its error |
| Scanning.MissingRootFails | rag_chatbot/utils.py:18-19 | it raises exactly when the root does not exist |
| Scanning.FileRootSelf | rag_chatbot/utils.py:21-24 | a file root yields itself exactly when its lowercased suffix is `.txt`, `.md` or `.markdown`, and nothing otherwise |
| Scanning.DirectoryRootSelection | rag_chatbot/utils.py:26-28 | a directory root yields paths in sorted order, and a path is yielded exactly when the listing holds it as a regular file with a supported suffix |
| Scanning.SortByPathSortsAndPermutes | rag_chatbot/utils.py:26 | `sorted` returns the listing, ordered by path, as a permutation |
| Scanning.SelectedPathsSorted | rag_chatbot/utils.py:26-28 | filtering a sorted listing keeps the paths sorted |
| Scanning.SuffixExamples | rag_chatbot/utils.py:11 | `.MD`, `.Txt` and `.MarkDown` are supported; `.rst`, `.mdx` and the empty suffix are not |
| Scanning.PathLeTotal | rag_chatbot/utils.py:26 | the path order is total |
| Scanning.PathLeTransitive | rag_chatbot/utils.py:26 | the path order is transitive |
| Scanning.PathLeAntisymmetric | rag_chatbot/utils.py:26 | the path order is antisymmetric |
| Chatbot.ExtractContexts | rag_chatbot/chatbot.py:41-47 | the loop collects exactly `ContextsOf` the response's matches |
| Chatbot.ContextsOfMembers | rag_chatbot/chatbot.py:42-46 | a string is collected exactly when some match carries it as a present, non-empty `"chunk"` |
| Chatbot.ContextsOfAppend | rag_chatbot/chatbot.py:42-46 | collection distributes over concatenation of matches, so contexts keep match order |
| Chatbot.ContextsOfOne | rag_chatbot/chatbot.py:43-46 | one match contributes its chunk, or nothing exactly when the metadata, the key or the text is missing or empty |
| Chatbot.ContextsOfBounded | rag_chatbot/chatbot.py:42-46 | at most one context per match, and every context is non-empty |
| Chatbot.NoMatchesNoContext | rag_chatbot/chatbot.py:42 | a response without `"matches"` gives no context |
| Chatbot.BuildPrompt | rag_chatbot/chatbot.py:49-61 | without contexts the prompt is the query; with contexts it starts with the fixed header and ends with `"\n\nQuestion: " + query` |
| Chatbot.PromptLayout | rag_chatbot/chatbot.py:53-60 | the prompt is exactly the header, the `"\n\n"`-joined contexts, then the question tail |
| Chatbot.PromptContainsEachContext | rag_chatbot/chatbot.py:53-60 | every context string occurs in the prompt |
| Config.FromEnv | rag_chatbot/config.py:27-65 | the method returns `SettingsFromEnv(env)` |
| Config.MissingErrorIff | rag_chatbot/config.py:31-48 | the missing-variables error is raised exactly when a required variable is unset or empty, with the message `"Missing required environment variables: "` plus the missing names joined by `", "` |
| Config.MissingFromMembers | rag_chatbot/config.py:31-42 | a name is listed as missing exactly when it is required and unset or empty |
| Config.MissingFromOrdered | rag_chatbot/config.py:31-42 | missing names appear in checking order |
| Config.MessageNamesEachMissing | rag_chatbot/config.py:44-47 | every missing variable is named in the error message |
| Config.AllMissingMessage | rag_chatbot/config.py:44-47 | with nothing set the message lists all three names in checking order |
| Config.SuccessIff | rag_chatbot/config.py:44-59 | leaving `temperature` aside, `from_env` succeeds exactly when nothing is missing and the three integers parse; an integer error names a set variable whose text does not parse |
| Config.RequiredVerbatim | rag_chatbot/config.py:50-53 | on success the three required fields are the environment's values verbatim, and non-empty |
| Config.DeclaredDefaults | rag_chatbot/config.py:17-24 | the dataclass defaults: `"default"`, 800, 200, 5, `"gpt-4o-mini"`, `"text-embedding-3-small"`, no host, no environment |
| Config.OnlyRequiredGivesDefaults | rag_chatbot/config.py:54-63 | an environment with only the required variables gives the declared defaults everywhere else |
| Config.SetButEmptyOptional | rag_chatbot/config.py:54-63 | a set optional variable, even `""`, replaces the default (namespace, model, embedding model, host, environment); unset integer variables fall back to 800, 200 and 5 |
| Config.NoSizeOverlapCheck | rag_chatbot/config.py:57-58 | `from_env` accepts an overlap larger than the chunk size |

## Left out

- `rag_chatbot/ingestion.py`, `rag_chatbot/cli.py`, `safe_ingest.py` and `rag_chatbot/__init__.py` are not part of this model. They are calls into OpenAI, Pinecone, typer and subprocess, plus file reading and printing.
- The `RAGChatbot` constructor, the embedding and query calls of `_retrieve`, and `chat` are network calls and are not modelled. The query response is a parameter.
- `get_settings` only delegates to `from_env`. It is not modelled separately.
- `temperature` and its `float()` parsing are not modelled, because the model does not use floating point. So where the source raises ValueError for an `OPENAI_TEMPERATURE` that does not parse (rag_chatbot/config.py:64), `Config.SettingsFromEnv` and `Config.FromEnv` report success.
- `Config.Message`: the text of an integer error quotes the value as `repr` does for a plain string. It does not model `repr`'s escaping of quotes, backslashes or unprintable characters.
- Python's `int()` is the function parameter `parseInt`. An unset integer variable takes its numeric default directly, which matches `int("800")`, `int("200")` and `int("5")`.
- `Path.exists`, `is_file`, `suffix` and `rglob("*")` are not modelled. Their results are given as a `Root` value with an entry listing.
- The sort order of paths is assumed to be the POSIX order: components compared lexicographically, by code point.
- `Text.Lower`: lowercases only characters whose lowercase is ASCII: `A`-`Z` and the Kelvin sign. Because the supported suffixes are ASCII, this decides `suffix.lower() in SUPPORTED_EXTENSIONS` as Python does.
- Match metadata that is `None`, or that holds a non-string `"chunk"`, is not modelled. Metadata is an optional map from strings to strings.
- Generators are modelled as the whole sequence they yield. Two consequences:
  - the model does not show when the errors of `iter_text_files` and `batched` appear, which in the source is at the first `next()`;
  - it does not show interleaving with the consumer.
- `Chunking.ChunkText`: takes a step budget `maxSteps`, because the source loop need not terminate. A budget of at least `len(text)` is enough whenever the overlap is not positive, and no budget is enough when it is positive and the text is non-empty.

## Findings

| source | as written | input that shows it | evidently intended | confidence | as-written member | corrected member |
|---|---|---|---|---|---|---|
| rag_chatbot/utils.py:50-51 | with `chunk_overlap == 0` the guard moves `start` to `end + 1`, so the character at `end` is in no chunk | `chunk_text("ABCDEFGHIJ", 4, 0)` gives `["ABCD", "FGHI"]`, losing `"E"` and `"J"` | adjacent windows `"ABCD"`, `"EFGH"`, `"IJ"` covering the text | not executed | Chunking.ZeroOverlapExample | CorrectedChunking.CorrectedZeroOverlapExample |
| rag_chatbot/utils.py:47-49 | once a window reaches the end, `start = end - chunk_overlap` is inside the text again, so for `0 < chunk_overlap < chunk_size` the loop never exits (with the default 800/200, for every non-empty text) | `chunk_text("ABCDEFGHIJ", 4, 1)` never returns | stop after the window that reaches the end: `"ABCD"`, `"DEFG"`, `"GHIJ"` | not executed | CorrectedChunking.AsWrittenOverlapExampleDiverges | CorrectedChunking.ChunkTextCorrected |
