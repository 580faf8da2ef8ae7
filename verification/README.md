# Incremental-writing queue, modelled in Dafny

This project models the core of an Obsidian plugin for incremental writing. The plugin keeps a
review queue as a markdown document. The document starts with YAML front matter that names the
scheduler. A table with one row per note to review follows:

| Link | Priority | Notes | Interval | Next Rep |
|---|---|---|---|---|

The model covers three parts:

- `src/markdown.ts`: the table and its three row classes. These are parsing, pruning rows whose
  link no longer exists, sorting (due rows first, then by priority), current/next/remove, appending
  and rendering.
- `src/scheduler.ts`: the three schedulers. The simple and iteration schedulers re-append the
  reviewed row and spread every priority over (0, 99.9]. The factor scheduler pushes the row's
  next date on by its interval and multiplies the interval by the factor.
- `src/queue.ts`: the queue transitions. These are choosing the scheduler from the settings and the
  front matter, loading, writing, dismissing the current repetition, advancing to the next one, and
  adding rows.

Every operation is a pure function, or a method with a loop, over immutable values. The operations
take the stored document text and return the text to write, along with the row to open.

The modules follow the source:

| module | file | what it holds |
|---|---|---|
| `Wrappers` | `wrappers.dfy` | `Option` and `Result` |
| `Seqs` | `seqs.dfy` | filtering and a stable insertion sort, with their lemmas |
| `Text` | `text.dfy` | ECMAScript `trim`, `split`, `join`, and line splitting |
| `Host` | `host.dfy` | dates, numbers, and the helpers the core calls but does not define |
| `Rows` | `rows.dfy` | the row classes |
| `Table` | `table.dfy` | `MarkdownTable` |
| `Schedulers` | `schedulers.dfy` | the schedulers |
| `Queue` | `queue.dfy` | `Queue` |
| `Document` | `document.dfy` | how writing and reading the whole document relate |

The host helpers are fields of `Host.Env`, and every operation is stated for whatever they do. The
helpers are `LinkEx.removeBrackets`/`addBrackets`, `links.exists`, `isValidPriority`,
`isValidInterval`, `isValidAFactor`, `Number(...)`, `new Date(...)`, `addDays`, `formatYYMMDD` and
`Number.prototype.toString`. `Host.Sound` collects the only assumptions the proofs make about them:

- a valid factor or interval is at least 1;
- adding at least one day moves a date forward.

The round-trip lemmas also assume that each printed value parses back as itself (`Document.Restorable`).

Points where the model fixes a reading of the code:

- **The row class is a parameter.** `parseRow` chooses the row class by testing
  `this.scheduler instanceof ...Row`, but `MarkdownTable` has no `scheduler` field. The model takes
  the row class (`Rows.RowKind`) as an explicit parameter of the transitions, next to the scheduler
  and independent of it. Lemmas that depend on the two agreeing, such as `Queue.AdvancingKeepsCount`,
  require that the table's rows are of the scheduler's class.
- **Short row lines fail.** With fewer than three cells, `notes.replace` is called on `undefined` and
  throws. `Table.ParseRow` returns `None` for such a line, and loading then fails with
  `MalformedRow`. The number of cells is otherwise not checked, exactly as in the code.
- **Every path that loads also writes.** `if (table.removeDeleted)` tests a method reference, which
  is always truthy. So every path of `dismissCurrent` and `nextRepetition` that loaded a table
  writes it back.
- **A failed load is a `Failure`.** When loading fails, `dismissCurrent` and `nextRepetition` read
  `table.removeDeleted` off `undefined`. The model returns a `Failure`, and nothing is written. In
  `add`, a failed load returns without writing.
- **Iteration front matter is fixed.** `IterationScheduler.toString` writes `iteration: "Test"`
  whatever the scheduler's label is. `Queue.SchedulerRoundTrip` states that an iteration scheduler
  reads back with the label `"Test"`.
- **Rescheduling mutates the row.** In `nextRepetition`, the scheduler changes the current row in
  place before the code asks whether that row is still due. Under the factor scheduler the row is
  no longer due, so the row opened is the row that was next, if that one is due
  (`Queue.AFactorOpensNext`).
- **Rows are read after the blank line.** The table constructor reads rows from the third line after
  the closing front matter delimiter. The writer puts a blank line there, so that line is the
  table's alignment line (see Findings). The rest of the model uses the corrected reader,
  `Table.ParseTable`, which skips blank lines and then the heading and alignment lines.
  `Table.ParseTableAsWritten` keeps the behaviour as written.

## Model

| member | source | states |
|---|---|---|
| Rows.SanitizeNotes | src/markdown.ts:208 | stored notes contain no line break and no pipe, and every other character as often as the given notes; notes already free of them are kept unchanged |
| Rows.NewAFactorRow | src/markdown.ts:199-216 | the link loses its brackets; an invalid priority becomes 30 and an invalid interval 1; an invalid date becomes the epoch; notes are cleaned; the row satisfies `Sanitized` |
| Rows.NewSimpleRow | src/markdown.ts:237-254 | the same sanitising as the factor row, for a simple row |
| Rows.NewIterationRow | src/markdown.ts:275-290 | link, priority and notes are sanitised; the label and the date, an invalid date included, are stored as given |
| Rows.ResanitizeFixed | src/markdown.ts:237-254 | rebuilding a row from its own sanitised fields keeps priority, notes, interval and date |
| Rows.DueFromNextDate | src/markdown.ts:218-220 | an interval-based row is due from its next repetition date on and not before it; once due, a row stays due as time passes |
| Rows.Cells | src/markdown.ts:222-230 | the five cells of a row in the heading's order: the link in brackets, the priority, the notes, then the interval (the label for an iteration row) and the formatted date |
| Rows.InvalidDateIsDue | src/markdown.ts:213-258 | a factor or simple row built from an invalid date gets the epoch and is due at any time from the epoch on |
| Rows.IterationRowIsDue | src/markdown.ts:292-294 | an iteration row is due whatever its fields |
| Text.Trim | src/markdown.ts:21 | the result has no whitespace at either end and is a slice of the input with only whitespace around it |
| Text.SplitLinesJoin | src/markdown.ts:22 | splitting on `/\r?\n/` gives back lines that were joined with line feeds |
| Text.Split | src/markdown.ts:70 | at least one piece, none holding the separator, and joining the pieces with it gives back the text |
| Text.SplitLines | src/markdown.ts:22 | at least one line and no line holds a line feed |
| Text.SplitLinesCrLf | src/markdown.ts:22 | splitting on `/\r?\n/` gives back lines that were joined with `\r\n` |
| Text.StripBreaksAndPipes | src/markdown.ts:208 | the result holds no line feed, carriage return or pipe, and every other character exactly as often as the input |
| Text.StripConcat | src/markdown.ts:208 | stripping a concatenation strips each part, so the kept characters stay in order |
| Text.StripOne | src/markdown.ts:208 | a single character is kept exactly when it is not a line break or pipe |
| Text.StripIdempotent | src/markdown.ts:208 | removing line breaks and pipes a second time changes nothing |
| Table.FindYamlEnd | src/markdown.ts:48-61 | -1 exactly when fewer than two lines are `---`; otherwise the index of a `---` line with exactly one `---` before it |
| Table.ParseCells | src/markdown.ts:68-71 | at least one cell; every cell is pipe-free and trimmed |
| Table.ParseRow | src/markdown.ts:67-100 | fails exactly when the line has fewer than three cells; otherwise a sanitised row of the requested class whose link is the first cell without brackets |
| Table.ParseRows | src/markdown.ts:63-65 | fails exactly when some line fails; otherwise one row per line, in order |
| Table.ParseTableAsWritten | src/markdown.ts:18-28 | the constructor as written reads an empty text, or one without a closing front matter delimiter, as an empty table; any table it reads has rows of the requested class and a cleared pruning flag |
| Table.ParseTable | src/markdown.ts:18-28 | the corrected constructor reads an empty text, or one without a closing front matter delimiter, as an empty table; any table it reads has rows of the requested class and a cleared pruning flag |
| Table.SortByPriority | src/markdown.ts:145-153 | a permutation of the rows, ordered by priority |
| Table.SortByDue | src/markdown.ts:137-143 | a permutation of the rows |
| Table.SortByDuePartition | src/markdown.ts:137-143 | the stable sort on due status is the due rows followed by the others, each group in its previous order |
| Table.SortReps | src/markdown.ts:128-131 | a permutation of the rows that puts due rows first and orders each group by priority; the pruning flag is kept |
| Table.SortRowsOrdered | src/markdown.ts:128-131 | sorting rows already in that order changes nothing |
| Table.SortRowsStable | src/markdown.ts:128-131 | rows with the same due status and priority keep their relative order |
| Table.SortRepsIdempotent | src/markdown.ts:128-131 | sorting twice is sorting once |
| Table.CurrentRep | src/markdown.ts:106-109 | none exactly when the table is empty; otherwise a row of the table that is due if any row is due, with the lowest priority among rows of its due status |
| Table.CurrentRepEarliest | src/markdown.ts:106-109 | among equally good rows, the current one is the earliest in table order |
| Table.NextRep | src/markdown.ts:111-114 | none exactly when there are fewer than two rows; otherwise a row of the table |
| Table.RemoveCurrentRep | src/markdown.ts:116-126 | returns the current row and leaves the other rows, one fewer and in sorted order: the removed row followed by the remaining rows is exactly the table's sorted order, so tied rows keep the order the stable sort gives them; an empty table is left alone |
| Table.NextRepAfterRemoval | src/markdown.ts:111-126 | the next row is the row that is current once the current one is removed |
| Table.RemoveDeleted | src/markdown.ts:30-41 | keeps only rows whose link exists; the flag is set exactly when it was already set or some link is missing |
| Table.RemoveDeletedCount | src/markdown.ts:30-41 | each row keeps its multiplicity if its link exists and drops to zero otherwise |
| Table.RemoveDeletedOrder | src/markdown.ts:32-34 | pruning distributes over concatenation, so surviving rows keep their order |
| Table.RemoveDeletedIdempotent | src/markdown.ts:30-41 | pruning twice prunes nothing more |
| Table.HasRowWithLink | src/markdown.ts:43-46 | true exactly when some row's link equals the given link without brackets |
| Table.AppendRow | src/markdown.ts:155-157 | one more row, the given one last, the rows before it unchanged |
| Table.HasRowWithLinkAppend | src/markdown.ts:155-157 | after appending a row, the table has a row with a link exactly when it had one before or the appended row has that link |
| Table.ToArray | src/markdown.ts:175-177 | one cell list per row, in row order, each the row's own cells |
| Table.TableLines | src/markdown.ts:163-168 | the rendered lines are the heading, the alignment line, then one line per row in order |
| Table.RenderLineEnds | src/markdown.ts:166-167 | every rendered table line starts and ends with a pipe; `Document.ParseRenderedCells` reads its cells back |
| Table.ToText | src/markdown.ts:163-173 | the rendered table is empty exactly when there are no rows |
| Schedulers.NewAFactorScheduler | src/scheduler.ts:78-82 | an invalid factor becomes 2 and an invalid interval 1 |
| Schedulers.NewAFactorSchedulerValid | src/scheduler.ts:78-82 | with sound helpers, both the factor and the interval are at least 1 |
| Schedulers.Round2 | src/scheduler.ts:27 | the result is a whole number of hundredths, and rounding moves a value by at most half a hundredth |
| Schedulers.Round2Monotone | src/scheduler.ts:27 | rounding preserves order |
| Schedulers.SpreadPriorityStrict | src/scheduler.ts:24-29 | with at most 9990 rows, spread priorities strictly increase |
| Schedulers.SpreadPriorityLast | src/scheduler.ts:24-29 | the last spread priority is 99.9 |
| Schedulers.Spread | src/scheduler.ts:24-29 | the same rows with only their priorities changed; the k-th priority is the rounded k·99.9/n |
| Schedulers.SpreadOrdered | src/scheduler.ts:24-29 | spread rows are ordered by priority, the last is 99.9, and up to 19980 rows all lie in (0, 99.9] |
| Schedulers.ScheduleSpreads | src/scheduler.ts:20-30 | the reviewed row is appended last with priority 99.9; every other row keeps everything but its priority; the table is ordered by priority |
| Schedulers.SimpleKeepsDate | src/scheduler.ts:20-30 | the simple scheduler changes nothing of the reviewed row except its priority, so the row stays due |
| Schedulers.IterationStamps | src/scheduler.ts:47-64 | the reviewed iteration row carries the scheduler's label and today's date, keeps its link and notes, and is due |
| Schedulers.AFactorMovesOn | src/scheduler.ts:84-91 | the row is appended with its next date one interval after today and its interval multiplied by the factor; under sound helpers it is no longer due |
| Schedulers.ScheduleKeepsLinks | src/scheduler.ts:20-30 | a scheduler that accepts the row appends it, and every row keeps its link |
| Schedulers.Schedule | src/scheduler.ts:20-91 | the pruning flag is kept; a scheduler that handles the row (the simple one any row, the iteration one an iteration row, the factor one a factor row) puts one row more in the table, last, with the row's link; the iteration and factor schedulers leave the table and row unchanged when given a row of another class |
| Schedulers.FrontMatterLines | src/scheduler.ts:66-71 | front matter opens and closes with `---`, has no `---` between them, and names the scheduler on its second line |
| Schedulers.FrontMatterWritesData | src/scheduler.ts:93-99 | every line between the delimiters writes one key of the scheduler's data, numbers bare and names quoted, and every key (`afactor` and `interval`, or `iteration` with "Test") has its line |
| Document.FrontMatterReadBack | src/scheduler.ts:32-36 | the front matter text splits back into its lines when the numbers it shows print on one line |
| Schedulers.IterationLabelNotWritten | src/scheduler.ts:66-71 | the front matter of an iteration scheduler does not depend on its label |
| Schedulers.FrontMatterEnd | src/scheduler.ts:32-36 | in a document that starts with a scheduler's front matter, the end of the front matter is its closing `---`, whatever follows |
| Queue.DefaultScheduler | src/queue.ts:70-77 | a scheduler exactly for the three known names, with its constructor's defaults |
| Queue.CreateScheduler | src/queue.ts:67-94 | a known `scheduler` key overrides the default, and the result is a valid scheduler; with no known name the default is used; there is none exactly when neither applies |
| Queue.SchedulerRoundTrip | src/queue.ts:79-91 | reading back a scheduler's own front matter gives that scheduler, but an iteration scheduler comes back labelled "Test" |
| Queue.Prepare | src/queue.ts:60-64 | the loaded rows are sorted and are exactly the parsed rows whose links exist, each as often as it was parsed |
| Queue.Load | src/queue.ts:53-65 | fails with `NoQueueText` exactly when there is no text or the text is empty, and with `MalformedRow` exactly when a row line cannot be read; a loaded table is sorted, and its rows are exactly the parsed rows whose links exist, of the table's class |
| Document.PhantomPruned | src/queue.ts:53-65 | on a written document, the constructor as written and the corrected reader load the same queue when no note is named like the alignment cell: pruning drops the phantom row and sets the pruning flag; when such a note exists, the phantom row stays in the loaded queue |
| Queue.Document | src/queue.ts:211-213 | the document is only the front matter and a blank line exactly when the table has no rows; `Document.DocumentSplits` reads its lines back |
| Queue.WriteQueueTable | src/queue.ts:208-220 | writes the front matter, a blank line and the pruned rows in their unsorted order, then keeps the pruned table sorted |
| Queue.WriteLoaded | src/queue.ts:208-220 | writing a table as loading leaves it (in due/priority order, every link existing) writes its rows in their order and leaves the table unchanged |
| Queue.InitialText | src/queue.ts:20-25 | a new queue file holds the document of an empty table |
| Queue.Dismiss | src/queue.ts:32-51 | with no due row the table is written back unchanged; otherwise the current row is removed and the rest written, one row fewer, exactly the table's sorted order without its first row |
| Queue.DismissCurrent | src/queue.ts:32-51 | fails exactly when loading fails; otherwise dismisses on the loaded table |
| Queue.RowToOpen | src/queue.ts:139-144 | the reviewed row if it is still due, otherwise the previous next row if that one is due; whatever is opened is due |
| Queue.Advancing | src/queue.ts:118-156 | with no due row it only writes the table back and opens nothing; otherwise it advances, writes the table the scheduler hands back after the current row is taken out, and opens the row `RowToOpen` picks; any row it opens is due |
| Queue.AdvancingWritesScheduled | src/queue.ts:136-149 | when a row is due, the written text is the document of the rescheduled table and the kept table holds its rows, re-sorted |
| Queue.AFactorAdvanceRows | src/queue.ts:136-149 | under the factor scheduler, the written rows are the rows left after removing the current one, plus the moved-on current row |
| Queue.SpreadAdvanceRows | src/queue.ts:136-149 | under the simple and iteration schedulers, the written rows are the rows left after removing the current one, changed only in priority, plus the reviewed row, re-sorted |
| Queue.RescheduledLinks | src/queue.ts:136-137 | taking the current row out and scheduling it back keeps the number of rows and leaves only rows whose links exist |
| Queue.NextRepetition | src/queue.ts:118-156 | fails exactly when loading fails; otherwise advances on the loaded table |
| Queue.AdvancingKeepsCount | src/queue.ts:136-149 | when the scheduler handles the table's row class, advancing keeps the number of rows |
| Queue.IterationOpensCurrent | src/queue.ts:136-146 | under the iteration scheduler, the reviewed row is opened with the scheduler's label and today's date |
| Queue.SimpleOpensCurrent | src/queue.ts:136-146 | under the simple scheduler, the reviewed row is opened, changed only in its priority |
| Queue.AFactorOpensNext | src/queue.ts:136-146 | under the factor scheduler with sound helpers, the row opened is the previous next row when that one is due, otherwise nothing |
| Queue.AddRows | src/queue.ts:179-198 | the loop appends exactly the accepted candidates after the existing rows |
| Queue.AcceptSound | src/queue.ts:179-198 | accepted rows are candidates in their order; none has a pipe, none has a link already in the table, and no two share a link |
| Queue.AcceptConcat | src/queue.ts:179-198 | accepting from two lists of candidates in turn accepts from the first, then from the second against the table grown by what the first accepted |
| Queue.AcceptComplete | src/queue.ts:179-198 | each candidate is appended exactly when it is not rejected by the table grown by the candidates accepted before it; so every pipe-free candidate whose link is new to that table is accepted |
| Queue.Created | src/queue.ts:20-25 | a missing queue file reads as the document of an empty table; an existing one reads as itself |
| Queue.Add | src/queue.ts:171-202 | an empty file writes nothing; a malformed row fails; otherwise the accepted candidates are appended and the table is written |
| Document.ParseRenderedCells | src/markdown.ts:68-71 | reading a rendered line of clean cells gives the cells back, followed by the empty piece after the closing pipe |
| Document.RowRoundTrip | src/markdown.ts:67-100 | the rendered line of a restorable row reads back as that row |
| Document.DocumentSplits | src/markdown.ts:21-22 | trimming and splitting a written document gives back its lines |
| Document.DocumentRoundTrip | src/markdown.ts:18-28 | the corrected constructor reads a written document with rows back as exactly those rows, in order |
| Document.Phantom | src/markdown.ts:24-26 | the constructor as written reads the alignment line as a row whose link and notes are the alignment cells; with the minimal rendering these are `:---`, and with the package's padding `:` and a column-wide run of dashes |
| Document.DocumentReadAsWritten | src/markdown.ts:24-26 | the constructor as written reads every written document with rows as that phantom row followed by the written rows |
| Document.EmptyDocumentRoundTrip | src/queue.ts:20-25 | both constructors read the document of an empty table as an empty table |
| Document.ReadBack | src/queue.ts:212-214 | the corrected constructor reads any written document back as its rows |
| Document.WriteThenLoad | src/queue.ts:208-220 | loading what was written gives the table left in memory, with the pruning flag cleared |
| Document.CreatedLoadsEmpty | src/queue.ts:171-173 | a queue file created by `add` loads as an empty queue |

## Left out

- Reading and writing the vault file, the status bar, opening notes (`loadRep`), logging, and
  `goToQueue`/`goToCurrentRep`: these are I/O. The transitions return the text to write and the row
  to open instead.
- The `NextRepScheduler` modal opened after `nextRepetition`: this is UI.
- `getQueueAsTFile` returning nothing: a missing file skips the write. The model always writes.
- `readQueue` throwing: this is modelled as no text, like a missing file.
- `main.ts`: this is plugin wiring and commands.
- gray-matter: front matter is taken as an already parsed `map<string, string>` of its keys.
- The `markdown-table` package: the table is rendered with one space around each cell and minimal
  alignment cells (`:---`, `---:`). The package pads each column to its widest cell. In the heading
  and row lines that adds only spaces, which the reader trims away. In the alignment line it adds
  dashes, so a real alignment cell is `:` followed by as many dashes as the column is wide, less one.
  A link cell is at least `[[x]]`, so that run is never the minimal `:---`.
- The wall clock: "now" is a day number passed to each operation and fixed for its duration.
  Times within a day are not modelled.
- JavaScript numbers: they are reals, and NaN and the infinities are one `NonFinite` value, which
  every range check rejects.
- Schedulers.Spread: computes the k-th priority as the rounded k·99.9/n. The source adds the step
  repeatedly in floating point, which can differ from that in the last place before rounding.
- Schedulers.Round2: rounds half up on reals. The `round` number helper is not part of this model.
- Document.DocumentRoundTrip: assumes `Document.Restorable`, that is, that the helpers read back what
  they print and that cells hold no pipe, line break or outer whitespace. The core does not promise
  this of its helpers.
- Queue.Load: parses with the corrected reader `Table.ParseTable`, not with the constructor as
  written, which also reads the alignment line as a row (see Findings). On a written document the two
  load the same queue whenever no note is named like the alignment cell (`Document.PhantomPruned`).
  When such a note exists, the source also keeps the phantom row, and the model does not.
- `MarkdownTable.sort(compareFn)` and `getReps`: nothing in the core calls them.
- Queue.SchedulerRoundTrip: reads back `Schedulers.FrontMatterData`, and takes that map to be what
  gray-matter makes of the front matter lines. `Schedulers.FrontMatterWritesData` ties the lines to
  the map, one `key: value` line per key; the YAML reading itself is not modelled.
- A queue without a scheduler: when `Queue.CreateScheduler` gives none (an unknown default name and
  no known `scheduler` key), the source keeps `undefined` and then fails with a TypeError in
  `createTableIfNotExists`, `nextRepetition` and `writeQueueTable` (src/queue.ts:21, 137, 213). The
  transitions take a scheduler as a parameter, so that failure is not modelled.

## Findings

| source | as written | input that shows it | evidently intended | confidence | as-written member | corrected member |
|---|---|---|---|---|---|---|
| src/markdown.ts:24-26 | rows are parsed from three lines past the closing `---`, `split.slice(idx + 1 + 2)` | any document `writeQueueTable` writes with at least one row: the front matter, a blank line, the heading, the alignment line `\| :--- \| ---: \| ...` (dashes padded to the column width), then the rows. The third line past `---` is the alignment line, which parses as a row whose link and notes are its first and third cells, `:` followed by dashes | skip the blank line, the heading and the alignment line, and parse only the row lines | not executed | Document.DocumentReadAsWritten | Document.DocumentRoundTrip |

Loading prunes rows whose link does not exist. So the phantom row usually disappears again, and it
sets the pruning flag when it does (`Document.PhantomPruned`). It survives when a note named like that alignment cell exists,
and is then written back as a real row. The number of dashes depends on the column width.
