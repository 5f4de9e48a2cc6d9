# buscaluso-bench, modelled in Dafny

buscaluso-bench measures how well the buscaluso search engine ranks
candidate words. A *bench* pairs a start word with a group of target words.
A *trial* runs the engine from the start word and records a `BenchResult`:

- the rank at which a word of the group first appeared, with the elapsed time;
- or that none appeared before the stream ended or the timeout;
- or the engine's error message.

The `Bencher` keeps, for every start word and every target group, the
history of its results. It can:

- register benches, one at a time or from a bench file;
- clear the results, or only the successful ones;
- run a warm-up pass and then repeated shuffled passes over all start words;
- compile the best result of every bench.

The bench file has one bench per line, such as `casa, cassa = caza | kaza, caça ; comment`.
A small command-line tool prints result tables, and its `AlignedTable`
pads every column to the widest cell.

The model is split into these modules:

- `Wrappers` (`wrappers.dfy`): `Option`, `Result` and `Unit`.
- `Ordering` (`ordering.dfy`): Rust's `Ordering`, lexicographic comparison of sequences and strings, and the ascending listing of a finite set, which is the order in which `BTreeMap`/`BTreeSet` visit their keys. Lexicographic order over a total order is proved to be a total order.
- `BenchResults` (`bench_result.dfy`): `BenchResult`, `is_found`, `cmp`, and `compile_run_results` as the least result of a history.
- `Runner` (`bench_runner.dfy`): `BenchRunner` as a class with its two fields, covering `add_targets`, `is_done`, `on_word_found` and its in-place `swap_remove` loop.
- `Trial` (`trial.dfy`): a declarative description of one trial. It covers the ranks of the candidate words, the first hit of each target group, the point where the matching loop of `run_benches_for_word` stops, and the result recorded for each group.
- `Compile` (`compile.dfy`): the ledger's types, the iteration order of the nested maps, bench names, and the compiled result list.
- `Ledger` (`bencher.dfy`): the `Bencher` class. It holds `load_benches`, `add_bench`, `clear_results`, `clear_successes`, `run_benches`, `run_benches_for_word` and `compile_results` as methods, each proved against a specification function. Lemmas cover what a trial, a pass and a whole run do to the histories.
- `BenchFile` (`benchfile.dfy`): the nom grammar of a bench-file line, written as parsing functions. It proves that a bench written with any blanks around its separators parses back, that a blank or comment line yields nothing, and where malformed lines are rejected.
- `BenchDb` (`aligned_table.dfy`): `fmt_range`, and `AlignedTable` as a class with an `array` of column widths. It proves that the widths stay the column maxima and that every cell sits in its column.

Inputs the program takes from outside become parameters:

- The search engine (`BuscaCfg::search`) is a `SearchStart`: either the engine's error message, or the finite stream of steps it yields. A step is a word or `None`.
- The clock is the sequence of readings that the successive `start_time.elapsed()` calls return.
- The random shuffles of `run_benches` are the orders they produce. Each order must list every start word exactly once.
- `char::is_alphanumeric` is a predicate `alnum`. The facts the grammar relies on are stated in `AlnumSpec`: the characters `space`, tab, `,`, `|`, `=` and `;` are not alphanumeric.
- Unaccenting (NFD decomposition without combining marks) is a function `unaccent`.
- The lines of a bench file are a sequence of strings.

`BenchResult::cmp` ranks errors first, then found results, then not-found results. Two errors compare by message text, then by elapsed time; two found results by rank, then by elapsed time.

## Model

| member | source | states |
|---|---|---|
| BenchResults.IsFoundCases | src/lib.rs:49-51 | A result is found exactly when it holds `Ok(Some(rank))`. Not-found results and errors are not found. |
| BenchResults.CmpKinds | src/lib.rs:60-66 | Results of different kinds compare by kind alone, whatever their times: every error is less than every found result, which is less than every not-found result. |
| BenchResults.CmpWithinKind | src/lib.rs:60-68 | Within a kind, found results compare by rank, then by elapsed time. Errors compare by message text, then by elapsed time. Not-found results compare by elapsed time. |
| BenchResults.CmpTotal | src/lib.rs:54-69 | `cmp` is a strict total order: it returns `Equal` only on equal results, swapping the arguments reverses it, and it is transitive. |
| BenchResults.CompileRunResults | src/lib.rs:282-284 | The compiled result is a member of the history and is not greater than any member. |
| BenchResults.CompileRunResultsUnique | src/lib.rs:282-284 | Any member that is not greater than every member is the compiled result, so the minimum is unique. |
| BenchResults.CompileRunResultsPrefersErrors | src/lib.rs:60-69 | A history with an error compiles to an error. A history without errors but with a success compiles to a success with the smallest rank. |
| Runner.FilterCounts | src/lib.rs:317-329 | Splitting the waiting groups by one word gives the groups that contain it and those that do not, each with its multiplicity. |
| Runner.SplitIsFilters | src/lib.rs:317-329 | Any split of the waiting groups into hits containing the word and rest not containing it is, as multisets, exactly that filter split. |
| Runner.BenchRunner.constructor | src/lib.rs:299-304 | A new runner has no waiting groups and no target words. |
| Runner.BenchRunner.AddTargets | src/lib.rs:306-311 | Appends the group to the waiting list and adds its words to the set of all target words, keeping the runner's invariant. |
| Runner.BenchRunner.SwapRemove | src/lib.rs:322 | `Vec::swap_remove`: returns element `i` and removes it. Elements before `i` stay in place and the multiset loses exactly that element. |
| Runner.BenchRunner.OnWordFound | src/lib.rs:317-329 | A word that is not a target word changes nothing. Otherwise the hits are exactly the waiting groups containing the word, and those that remain are exactly the ones without it, counted with multiplicity. The invariant is kept. |
| Runner.BenchRunner.RemoveContaining | src/lib.rs:319-327 | The in-place loop moves every group containing the word to the hits and keeps the others. Hits plus rest is the original multiset. |
| Trial.WordsBefore | src/lib.rs:225-237 | `word_idx` after `n` steps, which is at most `n`. |
| Trial.FirstHitSpec | src/lib.rs:226-240 | The first hit of a group is a step whose word is in the group, with no such step before it. There is no first hit exactly when no step up to `n` hits. |
| Trial.StopFromHere | src/lib.rs:226 | The matching loop stops at once when every scheduled group has been hit or the stream is exhausted. |
| Trial.StopFromNext | src/lib.rs:226-244 | Otherwise it takes the next step, and stops after it exactly when the clock reading taken after the step has reached the timeout. |
| Trial.StopAfterStep | src/lib.rs:242-244 | The timeout check after step `i` either ends the loop at `i + 1` or hands it on unchanged. |
| Trial.RankIsWordPosition | src/lib.rs:225-236 | The rank recorded for a word is its position among the words of the stream. |
| Trial.WordsAppend | src/lib.rs:227-238 | The words of a concatenated stream are the words of each part in order. |
| Trial.WordsPrefix | src/lib.rs:225-236 | `word_idx` after `n` steps counts the words among them. |
| Trial.StopFromStops | src/lib.rs:226-244 | Where the loop stops, the stopping rule holds: not every group was hit before, no earlier clock check reached the timeout, and it ends by all hit, end of stream or timeout. |
| Trial.StopsAtUnique | src/lib.rs:226-244 | The stopping rule holds at one point at most. |
| Trial.StopPointIsStop | src/lib.rs:226-244 | The point where the loop stops is the unique point satisfying the stopping rule. |
| Trial.TrialResultMeaning | src/lib.rs:228-253 | The result recorded for a scheduled group is never an error. It is found exactly when a step before the stop hits the group; its rank is then the position of a word of the group and no later than any hit. A not-found result carries the last clock reading. |
| Trial.WordsBeforeMonotone | src/lib.rs:225-236 | `word_idx` never decreases. |
| Compile.Ascending | src/lib.rs:273 | The ascending listing of a target group holds exactly its words. |
| Compile.AscendingSets | src/lib.rs:270 | The target groups of a start word are visited in strictly ascending `BTreeSet` order, each exactly once. |
| Compile.TargetSetCmpTotal | src/lib.rs:270 | The `Ord` of `BTreeSet<String>` is a strict total order. |
| Compile.WordKeysMembers | src/lib.rs:270 | The keys visited for one start word are exactly its target groups. |
| Compile.KeysOfMembers | src/lib.rs:269-270 | The nested iteration visits exactly the (start word, group) pairs of the listed start words. |
| Compile.BenchKeysMembers | src/lib.rs:269-277 | The iteration over the whole ledger visits exactly its benches. |
| Compile.BenchKeysSorted | src/lib.rs:269-277 | Benches are visited in strictly ascending (start word, group) order, so none is visited twice. |
| Compile.EntriesLength | src/lib.rs:268-278 | One entry per visited bench. |
| Compile.EntryAt | src/lib.rs:271-275 | Entry `i` is the name and the compiled result of the `i`-th visited bench. |
| Compile.CompiledAt | src/lib.rs:267-279 | `compile_results` lists, in visiting order, each bench's name with the least result of its history. |
| Compile.CompiledHasEvery | src/lib.rs:267-279 | Every bench of the ledger appears in the compiled list. |
| Compile.CompiledOnlyBenches | src/lib.rs:267-279 | Every compiled entry comes from a bench of the ledger. |
| Compile.BenchNameParses | src/lib.rs:271-274 | A bench name (the start word, ` = `, and the group's words joined by ` bar `) parses as a bench-file line back to that start word and the group's ascending listing. |
| Compile.BenchNameRenders | src/lib.rs:271-274 | A bench name is exactly the file-syntax rendering of the one-start-word, one-group bench with the group ascending, and that bench is well formed when the words are. |
| Compile.BenchNameInjective | src/lib.rs:271-274 | Different benches of well-formed words get different names. |
| Compile.CompiledNamesDistinct | src/lib.rs:267-279 | The compiled list has no two entries with the same name. |
| Ledger.WithBench | src/lib.rs:117-125 | Registering adds the start word and the group and keeps every other key and every history. A new bench starts with an empty history. Registering a present bench changes nothing. |
| Ledger.WithBenchIdempotent | src/lib.rs:117-125 | Registering the same bench twice is the same as registering it once. |
| Ledger.SetOf | src/lib.rs:121-123 | The key of a target list holds exactly its words. Order and repeats are dropped. |
| Ledger.WithBenchExtends | src/lib.rs:117-125 | Registering extends the ledger: old histories are kept, new benches are empty, and the bench is registered. |
| Ledger.AddGroupsEffect | src/lib.rs:133-139 | The inner loop registers every group of the line under the start word and under its unaccented form, and only extends the ledger. |
| Ledger.AddLineEffect | src/lib.rs:131-140 | A parsed line registers every group under every start word and every start word's unaccented form. |
| Ledger.LoadOkIff | src/lib.rs:127-151 | Loading succeeds exactly when every line parses. |
| Ledger.LoadFirstError | src/lib.rs:130-148 | A failed load reports the first line that does not parse, numbered from 1, with the text left unparsed there. |
| Ledger.LoadEffect | src/lib.rs:127-151 | Loading keeps every existing history and adds only empty ones. After a successful load, every group of every line is registered under each start word and its unaccented form. |
| Ledger.ClearedShape | src/lib.rs:153-157 | Clearing keeps every start word and every group and empties every history. Clearing the successes afterwards changes nothing. |
| Ledger.WithoutSuccessesMeaning | src/lib.rs:159-172 | Clearing the successes keeps every key. It keeps exactly the results that are not found results, and doing it twice is the same as once. |
| Ledger.UnfoundMembers | src/lib.rs:162-169 | The filtering loop keeps exactly the results that are not found results. |
| Ledger.UnfoundAppend | src/lib.rs:162-169 | The filter keeps the order of the results. |
| Ledger.UnfoundIdempotent | src/lib.rs:162-169 | Filtering twice removes nothing more. |
| Ledger.UnfoundLength | src/lib.rs:162-169 | The filter never lengthens a history. |
| Ledger.Scheduled | src/lib.rs:207-213 | The skip rule schedules only groups of this start word. |
| Ledger.AfterTrial | src/lib.rs:204-265 | A trial keeps the key set of the start word's histories. |
| Ledger.RecordedStep | src/lib.rs:228-236 | Step `i` appends a found result exactly to the scheduled groups that the step's word hits first, with rank `word_idx` and the clock reading taken at that step. |
| Ledger.FirstHitStep | src/lib.rs:317-329 | A group hit earlier stays hit. A group not yet hit is first hit at step `i` exactly when the step's word is in it. |
| Ledger.TrialHistoriesPointwise | src/lib.rs:247-253 | Histories that agree key by key with the trial's effect are the trial's histories. |
| Ledger.AppendedPointwise | src/lib.rs:257-262 | Histories with `r` appended exactly to the given groups are the result of appending `r` to those groups. |
| Ledger.PushEach | src/lib.rs:230-235 | The callback appends the result to each hit group and to no other. |
| Ledger.PushAll | src/lib.rs:255-262 | On an engine error, the error result is appended to every history of the start word. |
| Ledger.RemoveFound | src/lib.rs:161-170 | The index loop with `Vec::remove` leaves exactly `Unfound` of the history. |
| Ledger.ClearHistories | src/lib.rs:154-156 | Every history of a start word becomes empty. |
| Ledger.RemoveFoundAll | src/lib.rs:160-171 | Every history of a start word loses its found results. |
| Ledger.Schedule | src/lib.rs:206-213 | The runner waits on exactly the scheduled groups, each once. |
| Ledger.RunTrial | src/lib.rs:221-253 | Running the matching loop and then recording the not-found results yields the trial's histories at the loop's stopping point. |
| Ledger.MatchLoop | src/lib.rs:225-245 | The loop ends at the stopping point. Its histories then match the steps taken, and it has read the clock once per step and once per word. |
| Ledger.MatchingStart | src/lib.rs:206-225 | Before the first step nothing is recorded and exactly the scheduled groups are waiting. |
| Ledger.MatchStep | src/lib.rs:226-245 | One turn of the loop with a group still waiting: at the end of the stream it stops there; otherwise it takes one step, keeps the histories matching, and stops exactly where the timeout check stops. |
| Ledger.WaitingNotAllHit | src/lib.rs:226 | `is_done` holds exactly when every scheduled group has been hit. |
| Ledger.TrialIteration | src/lib.rs:226-244 | One loop iteration keeps the histories matching the steps taken and advances `word_idx`. It reports a stop exactly where the timeout check stops the loop. |
| Ledger.FinishTrial | src/lib.rs:247-253 | After the loop, each group still waiting gets a not-found result carrying the clock reading taken then, which completes the trial's histories. |
| Ledger.FinishRecorded | src/lib.rs:247-253 | The final not-found results complete each scheduled history with the trial's result. |
| Ledger.TrialStep | src/lib.rs:227-240 | A step with no word changes nothing. A step with a word records the hits. |
| Ledger.HitStep | src/lib.rs:228-237 | A word step appends a found result to each group hit for the first time and removes those groups from the waiting list. |
| Ledger.HitSplit | src/lib.rs:317-329 | The hit groups are distinct and all belong to the start word's histories. |
| Ledger.HitMatches | src/lib.rs:228-237 | After a word step, the histories and the waiting list match the steps taken so far. |
| Ledger.MissRecorded | src/lib.rs:238 | A step without a word records nothing. |
| Ledger.MissWaiting | src/lib.rs:238 | A step without a word hits no group. |
| Ledger.HitRecorded | src/lib.rs:228-236 | Appending the found result to the hit groups gives the histories recorded after that step. |
| Ledger.HitRecordedAt | src/lib.rs:228-236 | The same for one group. |
| Ledger.HitWaiting | src/lib.rs:317-329 | The groups still waiting after a word step are exactly the scheduled groups not yet hit. |
| Ledger.AfterTrialEffect | src/lib.rs:204-265 | With nothing scheduled, the trial changes nothing. On an engine error, every history gets the error with the first clock reading. Otherwise unscheduled groups are unchanged, and each scheduled group gets exactly one result, which is not an error. |
| Ledger.GrewByTrans | src/lib.rs:192-201 | Growth by at most `j` and then by at most `k` results per history is growth by at most `j + k`. |
| Ledger.Pass | src/lib.rs:184-186 | A pass over the start words keeps the ledger's keys. |
| Ledger.Passes | src/lib.rs:192-201 | Repeated passes keep the ledger's keys. |
| Ledger.WarmedUp | src/lib.rs:183-187 | The warm-up keeps the ledger's keys. |
| Ledger.PassUntouched | src/lib.rs:184-186 | A pass leaves alone the start words it does not visit. |
| Ledger.PassGrowth | src/lib.rs:184-186 | A pass visiting each start word at most once keeps every key, keeps the old results of each history as a prefix, and adds at most one result to it. |
| Ledger.PassesGrowth | src/lib.rs:192-201 | `repeat` passes add at most `repeat` results to each history, keeping the old ones as a prefix. |
| Ledger.RunGrowth | src/lib.rs:174-202 | After the warm-up every history has grown by at most one and holds no found result. The repeated passes then grow the histories by at most `repeat` results. |
| Ledger.Bencher.constructor | src/lib.rs:111-115 | A new bencher has no benches. |
| Ledger.Bencher.AddBench | src/lib.rs:117-125 | The ledger becomes `WithBench` of the old ledger, start word and word set. |
| Ledger.Bencher.LoadBenches | src/lib.rs:127-151 | The new ledger and the outcome are those of `Load` over the parsed lines. |
| Ledger.Bencher.AddStartWord | src/lib.rs:133-139 | The inner loop registers every group under the start word and, when it differs, under the unaccented form. |
| Ledger.Bencher.ClearResults | src/lib.rs:153-157 | The ledger becomes `Cleared` of the old one. |
| Ledger.Bencher.ClearSuccesses | src/lib.rs:159-172 | The ledger becomes `WithoutSuccesses` of the old one. |
| Ledger.Bencher.RunPass | src/lib.rs:184-186 | The ledger becomes the result of one pass over the given order. |
| Ledger.Bencher.RunBenches | src/lib.rs:174-202 | The ledger becomes the result of a warm-up pass, a success clear and `repeat` passes. |
| Ledger.Bencher.RunRepeats | src/lib.rs:192-201 | The ledger becomes the result of the repeated passes. |
| Ledger.Bencher.RunBenchesForWord | src/lib.rs:204-265 | Only the start word's histories change, and they become the trial's histories. |
| Ledger.Bencher.CompileResults | src/lib.rs:267-279 | The returned list is `Compiled` of the ledger. |
| Ledger.Bencher.CompileWord | src/lib.rs:270-276 | The inner loop appends one entry per group of the start word, in ascending order. |
| BenchFile.Space0 | src/benchfile.rs:27 | `space0` never lengthens the input and leaves it at a non-blank character or at the end. |
| BenchFile.Space0Prefix | src/benchfile.rs:27 | `space0` removes exactly the leading blanks. |
| BenchFile.AlnumRunMaximal | src/benchfile.rs:22-24 | `take_while1` takes the longest run of alphanumeric characters. |
| BenchFile.Word | src/benchfile.rs:22-24 | `word` fails exactly on an empty input or a non-alphanumeric first character. On success it splits off a maximal, non-empty alphanumeric word. |
| BenchFile.Sep | src/benchfile.rs:27 | The separator parser fails exactly when the first non-blank character is not the separator; on success it consumes input and stops at a non-blank character or at the end. |
| BenchFile.SepBlanks | src/benchfile.rs:27 | Any run of spaces and tabs before and after the separator is accepted, and parsing resumes at the first non-blank after it. |
| BenchFile.WordList | src/benchfile.rs:26-32 | `separated_list1` of words fails exactly where `word` fails. On success it yields at least one word and consumes input. |
| BenchFile.Targets | src/benchfile.rs:34-36 | The target list fails exactly where a word fails. On success it yields at least one group and consumes input. |
| BenchFile.Bench | src/benchfile.rs:38-40 | A bench consumes input when it parses. |
| BenchFile.Comment | src/benchfile.rs:46-48 | A comment is exactly `;` and the rest of the line. |
| BenchFile.BenchLine | src/benchfile.rs:50-55 | A parsed line leaves nothing unconsumed. An error points at a non-blank character that does not start a comment. |
| BenchFile.MoreWordsAreWords | src/benchfile.rs:26-32 | Every parsed list item is a word. |
| BenchFile.WordListIsGroup | src/benchfile.rs:26-32 | A parsed word list is a non-empty group of words. |
| BenchFile.MoreTargetsAreGroups | src/benchfile.rs:34-36 | Every parsed target is a non-empty group of words. |
| BenchFile.BenchLineWellFormed | src/benchfile.rs:50-55 | A parsed bench has at least one start word and at least one group, all of words. |
| BenchFile.Space0Idempotent | src/benchfile.rs:52 | Skipping blanks twice is skipping them once. |
| BenchFile.NoneIffBlankOrComment | src/benchfile.rs:50-55 | A line parses to no bench exactly when it is blank or blank then a comment. |
| BenchFile.RenderSpacedParses | src/benchfile.rs:22-55 | A bench written in the file's syntax (start words joined by commas, `=`, groups joined by commas, the words of a group joined by bars), with its own run of blanks on either side of every separator, leading blanks and a trailing blank or comment, parses back to the same bench. |
| BenchFile.RenderIsSpaced | src/benchfile.rs:22-55 | The canonical writing is the layout with one blank after each comma and one on each side of `=` and of each bar. |
| BenchFile.RenderParses | src/benchfile.rs:22-55 | The canonical writing of a bench, with leading blanks and a trailing blank or comment, parses back to the same bench. |
| BenchFile.RenderAloneParses | src/benchfile.rs:22-55 | The canonical writing of a bench, alone on its line, parses back to the same bench with nothing left over. |
| BenchFile.UnevenBlanksParse | src/benchfile/tests.rs:22-28 | The line `abc, def , ghi = xyz` parses to the start words `abc`, `def`, `ghi` and the single group `xyz`. |
| BenchFile.TrailingCommaRejected | src/benchfile.rs:34-55 | A bench written with any blanks and followed by a comma is rejected, with the error at the comma. |
| BenchFile.TrailingBarRejected | src/benchfile.rs:30-55 | A bench written with any blanks and followed by a blank and a bar is rejected, with the error at the bar. |
| BenchFile.MissingEqualsRejected | src/benchfile.rs:38-55 | Start words, with any blanks around their commas, but without `=` and targets are rejected, with the whole line as the error. |
| BenchDb.FmtRangeInjective | src/bin/benchdb.rs:104-117 | For values whose display has no blanks and is never `--`, different ranges print differently. |
| BenchDb.CharsAtMostBytes | src/bin/benchdb.rs:391 | A string's UTF-8 length is at least its character count, and equal for ASCII. |
| BenchDb.PadFits | src/bin/benchdb.rs:435-437 | `{:width$}` pads a value that fits to exactly the width, with trailing spaces. |
| BenchDb.ZipLen | src/bin/benchdb.rs:436 | `zip` stops at the shorter of the row and the widths. |
| BenchDb.RowWidth | src/bin/benchdb.rs:434-440 | A row that fits its widths prints at the full line width. |
| BenchDb.CellAligned | src/bin/benchdb.rs:434-440 | In a row that fits, cell `j` occupies exactly its column: it starts at the sum of the earlier widths and separators, and its text is the padded cell. |
| BenchDb.LinesLength | src/bin/benchdb.rs:442-447 | Rows of equal width joined by newlines have the expected total length. |
| BenchDb.LinesStep | src/bin/benchdb.rs:443-446 | Each further row adds a newline and the formatted row. |
| BenchDb.ColumnWidthIsMax | src/bin/benchdb.rs:391-425 | A column's width bounds every cell's UTF-8 length and equals one of them. |
| BenchDb.AlignedTable.constructor | src/bin/benchdb.rs:389-397 | The table holds only the header, its widths are the header cells' UTF-8 lengths, and it is empty. |
| BenchDb.AlignedTable.GetNumCols | src/bin/benchdb.rs:409-415 | The number of columns is the header's length, which every row shares. |
| BenchDb.AlignedTable.IsEmpty | src/bin/benchdb.rs:427-429 | The table is empty exactly when it holds only the header. |
| BenchDb.AlignedTable.AddRow | src/bin/benchdb.rs:417-425 | Appends the row, raises each column width to the row cell's length where that is larger, and keeps every width equal to its column maximum. |
| BenchDb.AlignedTable.CellsFit | src/bin/benchdb.rs:417-425 | Every cell fits its column width, counted in characters. |
| BenchDb.AlignedTable.FormatRow | src/bin/benchdb.rs:434-440 | The closure prints the row as `FmtRow`. |
| BenchDb.AlignedTable.Fmt | src/bin/benchdb.rs:432-448 | `Display` prints the header and then each row on its own line. |
| BenchDb.AlignedTable.FmtAligned | src/bin/benchdb.rs:432-448 | Every printed row has the same width, and every cell sits in its column. |
| BenchDb.AlignedTable.FmtLength | src/bin/benchdb.rs:432-448 | The printed table is as long as its rows times the line width, plus the newlines between them. |

## Left out

- Progress and log output (`verbose`, `eprintln!`) and the `num_complete`/`num_to_do` counters of `run_benches` are left out; they do not affect the ledger.
- Integer widths (`u32` counts, `u8` settings, `usize` ranks) are unbounded integers. The counters only feed the progress output.
- `Instant::now`/`elapsed` are not modelled as a clock; the model takes the sequence of readings they return.
- `thread_rng` and `shuffle` are not modelled; the model takes the orders the shuffles produce, each a permutation of the start words.
- `set_unaccented` is left out: Unicode NFD decomposition and the combining-mark filter are a function parameter.
- `char::is_alphanumeric` is a parameter. Only the facts in `BenchFile.AlnumSpec` are assumed about it.
- I/O errors while reading the bench file (`BenchError::Io`), file paths, and serde (de)serialisation of the configuration are left out.
- The engine `BuscaCfg` is not part of this model. Its search is the given `SearchStart`, a finite stream; an endless stream is cut off by the timeout in the source, and the model only covers finite prefixes.
- `BenchFile.BenchLine`: a nom error is modelled as the input left at the failing position; nom's error kinds are not modelled.
- `Compile.CompiledAt`: requires every history to be non-empty (`Compilable`). On an empty history the source panics in `compile_run_results`.
- `BenchDb.AlignedTable.AddRow`: requires the row to have one cell per column. The source asserts this and panics otherwise.
- `BenchDb.AlignedTable.constructor`: requires a non-empty header; the source asserts it.
- `AlignedTable::new_cloned` and `get_header` are not separate members; `GetNumCols` reads the header row directly.
- `BenchDb.Lines` is total: an empty table cannot arise, since the header is always present.
- `BenchDb.ByteLen`: Dafny characters are Unicode scalar values, so UTF-8 lengths are computed per scalar value, as Rust does for `char`.
- The SQLite store (`src/sqlite.rs`), `src/main.rs`, and the rest of `src/bin/benchdb.rs` are not part of this model. That covers the SQL commands, statistics, floating-point trimmed means and the other printing helpers.
