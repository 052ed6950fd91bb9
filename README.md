# howdoi command memory, reply parsing and provider selection, modelled in Dafny

`howdoi` turns a natural-language question into a shell command by asking a
language model. It remembers the commands it has produced in a local SQLite
store. This project models the parts of the program that carry logic:

- **Keyword extraction** (`internal/memory/keywords.go`): a question is
  lower-cased and split into runs of letters and digits. Tokens shorter than
  two characters and stop words are dropped, duplicates are dropped, and the
  rest is sorted. `Keywords.ExtractKeywords` is the loop of the source, proved
  equal to the specification function `Keywords.KeywordsOf`.
- **Interaction memory** (`internal/memory/memory.go`): `Memory.Store` is a
  class holding the `interactions` table as a sequence of rows, the
  AUTOINCREMENT counter, and the FTS5 index as a map from row id to the set of
  tokens of that row's tags.
  - `Save` updates every row with the command, or else inserts a new one.
  - `Clear` deletes every row.
  - `RebuildIndex` derives the index from the rows.
  - The triggers keep the index in step with the rows, and every method proves
    that the index stays consistent.
  - `List` and `Search` are read-only queries. They are specified by ordering,
    bound, membership and completeness properties.
  - The pure function `Memory.Saved` describes one `Save` on the table. The
    lemmas beside it prove the deduplication invariant and the use-count
    arithmetic.
- **Response parsing and confirmation** (`internal/ui/ui.go`):
  - `Ui.ParseResponse` is the loop over the reply's lines. It is proved equal
    to the fold `Ui.Parse`.
  - `Ui.Parse` is generic in the two labels, so the lemmas state what makes
    any pair of labels work.
  - `Ui.Confirm` is the yes/no rule of `ConfirmAndRun`, with the read error
    passed in as a value.
- **Provider selection** (`internal/llm/provider.go` and the constructors of
  `anthropic.go`, `openai.go` and `ollama.go`). A client is represented by the
  settings it is built from.

The module `Strings` models the pieces of Go's `strings` and `unicode`
packages that the keyword extractor, the store, the reply parser and provider
selection call:

- `Fields`/`FieldsFunc` over letters and digits;
- `ToLower` and `TrimSpace`, with Go's full `unicode.IsSpace` set;
- `HasPrefix`/`TrimPrefix`;
- `Split` on `"\n"`;
- `Join`;
- byte-wise string order.

It has no rows below, because it models the standard library, not this
repository.

`command` is the deduplication key, but the schema puts no UNIQUE constraint
on it (`internal/memory/memory.go:15-23`), and `Save`'s UPDATE changes every
row with the command. Uniqueness is therefore modelled as an invariant that
`Save` keeps (`Memory.SaveKeepsCommandsUnique`), not as an assumption.

## Model

| member | source | states |
|---|---|---|
| Keywords.Tokens | internal/memory/keywords.go:22-27 | every token of the lower-cased question is a non-empty run of letters and digits with no upper-case letter |
| Keywords.FirstAdmissible | internal/memory/keywords.go:29-37 | the loop's collection has no duplicates and holds exactly the input tokens of length at least 2 that are not stop words |
| Keywords.SortStrings | internal/memory/keywords.go:39 | `sort.Strings` yields a sorted permutation of its input |
| Keywords.SortStringsDistinct | internal/memory/keywords.go:39 | sorting a duplicate-free list keeps it duplicate-free |
| Keywords.KeywordsOf | internal/memory/keywords.go:21-41 | the keywords are strictly ascending, and each is a non-empty run of lower-case letters and digits |
| Keywords.KeywordsOfMembers | internal/memory/keywords.go:25-37 | a word is a keyword iff it is a token of the question, at least 2 long and not a stop word |
| Keywords.ExtractKeywords | internal/memory/keywords.go:21-41 | the loop with its `seen` set, followed by the sort, returns exactly `KeywordsOf(question)` |
| Keywords.StrictlySortedUnique | internal/memory/keywords.go:39 | two strictly ascending lists with the same elements are equal, so the output is canonical |
| Keywords.KeywordsAre | internal/memory/keywords.go:21-41 | any strictly ascending list of exactly the admissible tokens is the extractor's result |
| Keywords.SameAdmissibleTokensSameKeywords | internal/memory/keywords.go:22-39 | questions with the same admissible tokens give the same keywords, whatever their order, case, repetitions or dropped words |
| Keywords.TokensOfJoin | internal/memory/memory.go:92 | tokenising the space-join of lower-case words gives back those words |
| Keywords.KeywordsOfJoinedKeywords | internal/memory/keywords.go:22-39 | extracting from the stored tag string of a question gives that question's keywords again |
| Keywords.NoKeywordsIff | internal/memory/keywords.go:21-41 | the result is empty iff no token passes the filters; the empty question gives no keywords |
| KeywordExamples.ListFilesExample | internal/memory/memory_test.go:15 | "how do I list files in a directory" gives ["directory", "files", "list"] |
| KeywordExamples.GitCommitAmendExample | internal/memory/memory_test.go:16 | "git commit amend" gives ["amend", "commit", "git"] |
| KeywordExamples.OnlyStopWordsExample | internal/memory/memory_test.go:18 | a question made only of stop words gives no keywords |
| KeywordExamples.DockerExample | internal/memory/memory_test.go:19 | "docker docker DOCKER" gives ["docker"] |
| KeywordExamples.FindGoFilesExample | internal/memory/memory_test.go:20 | "find .go files" gives ["files", "find", "go"] |
| Memory.IndexOf | internal/memory/memory.go:26-41 | the index derived from the rows has exactly the row ids as keys and maps each id to the tokens of that row's tags |
| Memory.ConsistentIndexIsDerived | internal/memory/memory.go:32-41 | on a valid table, any index the triggers keep consistent equals the index a rebuild derives from the rows |
| Memory.AffectedCounts | internal/memory/memory.go:95-111 | the UPDATE affects no row iff no row has the command, and at most one when commands are unique |
| Memory.UpdatedUses | internal/memory/memory.go:95-99 | the UPDATE adds one use per row it hits to that command's total and none to any other command |
| Memory.SaveKeepsTableValid | internal/memory/memory.go:91-122 | `Save` keeps ids valid, commands unique and every row tagged by its question |
| Memory.SaveKeepsIdsValid | internal/memory/memory.go:15-23 | after `Save`, ids stay positive, below the counter and increasing along the table |
| Memory.SaveKeepsRowsValid | internal/memory/memory.go:92-99 | every row `Save` writes has use count at least 1 and the tags of its question |
| Memory.SaveKeepsCommandsUnique | internal/memory/memory.go:95-116 | `Save` never creates a second row for a command |
| Memory.SaveExisting | internal/memory/memory.go:95-111 | saving a stored command bumps its use count by exactly 1, replaces its question, tags and explanation, and leaves id, command, creation time, the other rows, the row count and the counter unchanged |
| Memory.SaveNew | internal/memory/memory.go:113-116 | saving a new command appends one row with a fresh id, use count 1, creation time `now` and the tags of its question, and advances the counter |
| Memory.SaveCounts | internal/memory/memory.go:91-122 | one `Save` adds exactly one use to its command and none to any other, and adds only that command to the set of stored commands |
| Memory.ReplayKeepsTableValid | internal/memory/memory.go:91-122 | any sequence of saves keeps the table invariant |
| Memory.ReplayCounts | internal/memory/memory.go:91-122 | after a sequence of saves, each command's use count is its starting count plus the number of saves of it, and the stored commands are the old ones plus the requested ones |
| Memory.RowsPerCommand | internal/memory/memory.go:95-116 | with unique commands there are exactly as many rows as distinct commands |
| Memory.RepeatedSaves | internal/memory/memory_test.go:86-104 | saving one command n times into an empty table leaves one row with use count n |
| Memory.SortBy | internal/memory/memory.go:137 | the ORDER BY yields a permutation of the rows, ordered by the key |
| Memory.Top | internal/memory/memory.go:137-138 | ORDER BY then LIMIT returns min(limit, n) rows (all when the limit is negative), drawn from the input, ordered, and no left-out row ranks before a returned one |
| Memory.Matching | internal/memory/memory.go:133-136 | the FTS join keeps exactly the rows whose indexed tokens meet the keywords, with their multiplicities |
| Memory.MatchingMembers | internal/memory/memory.go:133-136 | a row is matched iff it is in the table and hit; the match is a sub-multiset of the table |
| Memory.HitIff | internal/memory/memory.go:131-136 | on a consistent store a row is hit iff the query's keywords and the row's question share a whole keyword |
| Memory.Store.constructor | internal/memory/memory.go:14-42 | a fresh store has no rows, an empty index and a counter at 1 |
| Memory.Store.Save | internal/memory/memory.go:91-122 | the table and counter become `Saved(...)` of the old ones, the index is updated as the insert and update triggers do, and the store stays valid |
| Memory.Store.Clear | internal/memory/memory.go:165-171 | the table and index become empty, the AUTOINCREMENT counter is kept, and the store stays valid |
| Memory.Store.RebuildIndex | internal/memory/memory.go:75-76 | on any table with increasing row ids (including rows not written by `Save` and repeated commands) the index becomes `IndexOf(rows)` and is consistent with the rows; rows and counter are unchanged; a valid table gives a valid store |
| Memory.Store.List | internal/memory/memory.go:149-163 | returns min(limit, row count) rows of the table, newest first, and no omitted row is newer than a returned one |
| Memory.Store.Search | internal/memory/memory.go:124-147 | no keywords gives no rows; otherwise it returns min(limit, number of hits) rows, each a hit, ordered by score, then use count descending, then creation time descending, and no omitted hit ranks before a returned one |
| Memory.UpdateKeepsIndexConsistent | internal/memory/memory.go:38-41 | the update trigger leaves every row's index entry equal to the tokens of its new tags |
| Memory.InsertKeepsIndexConsistent | internal/memory/memory.go:32-34 | the insert trigger adds exactly the new row's entry, keeping the index consistent |
| Memory.SaveKeepsIndexConsistent | internal/memory/memory.go:32-41 | after `Save` and its triggers, the index maps each live id to exactly that row's tag tokens |
| Memory.EmptyStoreAnswersNothing | internal/memory/memory_test.go:207-225 | on an empty table `List` and `Search` return nothing |
| Ui.ValueOf | internal/ui/ui.go:32 | the value after a label is trimmed, and has no newline when the line has none |
| Ui.ValueOmits | internal/ui/ui.go:30-34 | a character the line lacks, the value after the label lacks too |
| Ui.Parse | internal/ui/ui.go:26-39 | both parsed fields are fixed points of trimming, and contain no newline when no line does |
| Ui.ParseResponse | internal/ui/ui.go:26-39 | the loop over the split lines returns `Parse` of those lines, and both fields are trimmed and free of newlines |
| Ui.PromptedDistinguishable | internal/ui/ui.go:31-33 | the labels "COMMAND:" and "EXPLANATION:" are non-empty, trimmed, one line each, and differ in their first character |
| Ui.EmptyResponse | internal/ui/ui.go:27-38 | an empty reply gives an empty command and an empty explanation |
| Ui.LabelsExclusive | internal/ui/ui.go:31-35 | no line carries both labels, so the else-branch order does not matter |
| Ui.LastCommandWins | internal/ui/ui.go:29-36 | the command is empty when no line has the command label, and otherwise the value of the last such line |
| Ui.LastExplanationWins | internal/ui/ui.go:29-36 | the explanation is empty when no line has the explanation label, and otherwise the value of the last such line |
| Ui.UnlabelledLinesIgnored | internal/ui/ui.go:29-36 | inserting lines that carry neither label anywhere in the reply leaves the result unchanged |
| Ui.PaddedValue | internal/ui/ui.go:30-34 | whitespace around a line and after its label is discarded: the value of `p + label + q + v + r` is `v` |
| Ui.CommandOnly | internal/ui/ui.go:29-35 | a reply with only a command line gives that command and an empty explanation |
| Ui.RoundTrip | internal/ui/ui.go:29-35 | a command line and an explanation line, padded with any whitespace, parse to the command and the explanation |
| Ui.FormatParse | internal/ui/ui.go:26-39 | parsing "label c\nlabel e" gives back (c, e) for any trimmed single-line c and e |
| Ui.PromptedFormatParse | internal/ui/ui.go:31-34 | parsing "COMMAND: c\nEXPLANATION: e" gives back (c, e) |
| Ui.Confirm | internal/ui/ui.go:62-76 | a read error fails with "reading input: " and the error; otherwise the command runs iff the answer is accepted, and is declined otherwise |
| Ui.AcceptsIff | internal/ui/ui.go:70-71 | a word with any whitespace around it is accepted iff its lower-case form is "y" or "yes" |
| Llm.NewAnthropic | internal/llm/anthropic.go:18-29 | fails iff the API key is empty, with a message mentioning "API key"; otherwise keeps the key and the model |
| Llm.NewOpenAI | internal/llm/openai.go:17-28 | fails iff the API key is empty, with a message mentioning "API key"; otherwise keeps the key and the model |
| Llm.NewOllama | internal/llm/ollama.go:17-27 | never fails; the client uses the configured URL and model |
| Llm.NewProvider | internal/llm/provider.go:16-27 | succeeds iff the name is "anthropic" or "openai" with a key, or is "ollama"; the back end matches the name and carries its own section's model; an empty key fails with "API key"; any other name fails with "unknown provider: " and the name |
| Llm.OllamaIgnoresKeys | internal/llm/provider.go:22-23 | "ollama" succeeds and does not depend on the other sections' keys |
| Llm.OnlyChosenSectionMatters | internal/llm/provider.go:17-25 | the outcome depends only on the name and the chosen section |
| Llm.CaseMatters | internal/llm/provider.go:17-25 | "Anthropic", "OPENAI" and "Ollama" are unknown providers: the match is case-sensitive |

## Left out

- Letters and digits are ASCII only. Non-ASCII letters count as separators in `Fields`, and `ToLower` changes only 'A'..'Z'. With ASCII-only tokens, Go's byte length `len(w)` equals the model's character count.
- The BM25 formula is not modelled. It is floating point and internal to SQLite's FTS5. `Memory.Store.Search` takes the score as a caller-supplied function of the row.
- The contracts of `Memory.Store.List`, `Memory.Store.Search` and `Memory.Top` leave the order among rows with fully equal keys open, as the SQL does; the function bodies happen to fix one insertion-sort order, which no contract promises.
- SQLite I/O and its errors are not modelled: opening, pragmas, DDL, closing, and SQL errors in `Save`, `Search`, `List` and `Clear`. Of `Open`, only the index rebuild is modelled, as `Memory.Store.RebuildIndex`.
- The legacy index drop in `Open` and the `created_at` index are not modelled. They have no observable effect on results.
- `scanInteractions` and the timestamp parsing are not modelled. `created_at` is an integer supplied by the caller, whose order stands in for the order of the ISO-8601 text.
- Context cancellation and concurrent use of the store are not modelled. `Save` is one atomic step.
- `Display`, `DisplayQuiet`, `DisplayError`, `RunCommand` and reading stdin in `ConfirmAndRun` are terminal and process I/O. The line read, or its error, is a parameter of `Ui.Confirm`.
- Llm.NewProvider: on an empty key Go returns a non-nil `Provider` interface holding a nil pointer together with the error; the model's `Err` carries no value. Every caller checks the error first (`cmd/how/main.go:172-175`, `main.go:82-85`), so the difference cannot be observed.
- The `Complete` methods of the three back ends are network calls through client libraries. A back end is modelled by the settings its client is built from.
- `internal/config/config.go` is not part of this model. It is YAML and file I/O plus environment overrides; `Llm.Config` holds only the fields provider selection reads.
- `internal/prompt/prompt.go`, `cmd/how/main.go` and `main.go` are not part of this model. They are CLI wiring and a prompt constant.
