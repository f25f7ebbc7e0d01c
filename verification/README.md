# Verified model of the memory service

The repository is a memory service for coding agents: a server that keeps memories, sessions and a
relationship graph in Postgres, and a client that goes on working without it. This project models the
parts whose correctness does not show from reading one function, in Dafny, and proves what they are for.

| Files | What they model |
|---|---|
| `Store`, `ChangeStream`, `Mirror`, `SyncProtocol`, `SyncClient`, `LostReply` | the offline write queue, the replay-safe insert, the change stream and the local mirror, as classes and as a state machine over every interleaving, lost reply and crash |
| `Paging` | cursor paging over the memories and the export loop, against a table that changes between pages |
| `Calendar`, `CronParse`, `Cron`, `CronNext`, `CronHorizon` | five-field schedules: what an expression means, when it fires next, and when the search gives up too early |
| `Strings`, `MarkdownExport`, `MarkdownImport`, `MarkdownBanner`, `MarkdownSections`, `MarkdownEntry`, `MarkdownSpill`, `MarkdownDocument`, `MarkdownFences`, `MarkdownRoundTrip`, `MarkdownNotes`, `MarkdownReading`, `MarkdownLayout` | the Markdown printer, the parser in another package that must undo it, and exactly when it does; what the parser makes of any other document, and what the printed one looks like |
| `Json`, `ExtractJson` | finding the first JSON value in a model's reply |
| `Bfs`, `CoEdit`, `CoEditWindow`, `GraphRebuild`, `GraphLaws`, `GraphReading` | the bounded neighbourhood search, and the graph derived from the corpus |
| `Limiter` | the two token buckets per key, their eviction, and the announced wait |
| `TextOrder`, `Numerals`, `ByteConversion`, `UlidBits`, `Ulid`, `UlidGenerator` | identifiers of 128 bits in base 32, and the generator that keeps them rising |
| `EditDistance` | the two-row edit distance, written twice, and the suggestions made from it |
| `Redact`, `RedactText` | which overlapping matches are removed, the rewriting, and line and column of a finding |
| `CodexToml`, `CodexTomlLaws` | editing one section of a configuration file as text |
| `VerifyCache` | authentication with a bounded memory of verified keys |
| `Retry`, `Drain` | asking a model provider again, and emptying the queue of sessions to summarise |

Code that changes state is a class or an in-place method proved against a functional specification; the
specification's own properties are lemmas over all inputs, all runs or all reachable states. Identifiers in
the first two groups are numbers, zero being the empty one. They are taken to be in capitals, as the server
and the client draw them: for those `Ulid.TextOrderIsNumberOrder` makes the order of texts that of numbers.
Where the network, the clock, random bytes, a hash or a regular expression decides something, it is a
parameter and the theorems hold for every value of it.

## What the proofs found

- **`has_more` and out-of-range limits.** The sync endpoint compares the page length with the limit asked
  for, the query replaces a limit outside 1..1000 by 200. With more than 200 changes pending the flag is
  then false though changes remain (`ChangeStream.HasMoreIsHonestExactlyWithinLimits`, an equivalence). The
  client asks for 200 and is not affected.
- **Two assumptions of the mirror are needed.** A rewrite stamped after the whole table keeps the mirror
  right exactly when the client still sees the row or its mirror never held it
  (`SyncProtocol.LatestRewriteKeepsMirrorExactlyWhenSeen`); one stamped at or before the cursor exactly when
  the mirror shows the new version already (`SyncProtocol.StampMustPassTheCursor`); a new row exactly when it
  is out of sight, deleted or stamped beyond the cursor (`SyncProtocol.NewRowMustPassTheCursor`). A memory
  its owner takes back from the team fails the first, and no later page names it
  (`SyncProtocol.UnsharingLeavesAStaleRow`, `SyncProtocol.HiddenRowsAreNeverSent`).
- **A lost reply can store a write twice.** The client comments that a later flush cannot produce a second
  row. A write that brings no identifier, as `dkm save` posts it, is stored under one drawn by the server and
  queued under another. Once its owner edits or deletes the stored memory, a push stores the queued copy beside
  it (`LostReply.AnEditedMemoryIsStoredTwice`, `LostReply.ADeletedMemoryComesBack`): over every later run
  exactly when the queued identifier is not taken, the stored row was deleted or its content changed, and no
  other live row has the content (`LostReply.StoredAgainExactlyWhenRewritten`). A write with an identifier of
  its own is stored once whatever happens (`LostReply.OwnIdIsStoredOnce`).
- **`Next` returning zero.** The comment says this happens for impossible dates only. Midnight on 29 February,
  asked on 29 February 2096, gives zero although 2104 has the date
  (`CronHorizon.NoResultForADateThatExists`). For a schedule whose fields each name something, as every parsed
  one's do, zero hides a later match exactly when 29 February is the only date named that exists, no weekday is
  asked for, and none at a set hour and minute lies in the five years
  (`CronHorizon.NoResultHidesALaterMatchExactlyWhen`); nothing ever matches exactly when only days are named
  that their months never have (`CronHorizon.NothingMatchesExactlyWhen`).
- **A huge cron step panics.** `1-5/9223372036854775807` overflows the loop counter and indexes below zero
  (`CronParse.AHugeStepPanics`). An element panics exactly when its low end and its step together exceed the
  largest integer (`CronParse.OverflowsExactlyOnTheFirstStep`).
- **Import undoes export only for bodies that keep apart.** The exporter trims Unicode white space before
  looking for a fence, the importer's pattern only ASCII white space; and nothing closes a fence that a body
  leaves open. An export comes back whole exactly when, to the importer, no body shows a heading of level one
  or two, every body but the last ends outside a fence, and no title is shortened or loses a decision's
  number (`MarkdownRoundTrip.RoundTripsExactlyWhenKeptApart`, an equivalence). A heading fenced off with
  lines that start with a no-break space is an example of the first
  (`MarkdownRoundTrip.AFenceOnlyTheExporterSees`): its memory comes back cut short. What the importer takes
  for a fence, the exporter always does too.
- **A body with a comment, or none, does not come back** (`MarkdownRoundTrip.ComesBackExactlyWhenPlain`, an
  equivalence for one section): the importer strips comments and skips sections without a body, and a body
  equal to its title is exported as nothing.
- **A fence inside a JSON string wins** over the array that holds it (`ExtractJson.AFenceInsideAValueWins`).
  Whatever the reply, a value is extracted exactly when it is the first between the first mark, with its line,
  and the next mark, or in the reply when one of the marks is missing (`ExtractJson.ExtractsExactlyTheFirst`).
- **Node identifiers of two projects can coincide**, because the hashed text joins team, project, kind and
  label without separators: file `fileA.go` of project `web` and file `A.go` of project `webfile`
  (`GraphRebuild.TwoProjectsCanClash`). A rebuild succeeds exactly when no such clash exists
  (`GraphRebuild.GraphTables.Rebuild`); within one project there is none.
- **A file listed twice counts twice** in the weight of files named together, which the comment describes
  as the number of memories naming both (`GraphLaws.WeightIsMemoriesNamingBoth`, an equivalence).
- **The co-editing window is narrower than documented.** Its constant is documented in observations that touch
  files, and the statement counts mentions of files: the first and the fifth of five files named at once are
  not counted together (`CoEditWindow.FiveFilesAtOnce`). The weight of a pair never exceeds the documented one,
  and equals it exactly when no two mentions that make the pair are within three observations but not within
  three mentions (`CoEditWindow.WindowsAgreeExactlyWhen`), as when every observation names at most one file
  (`CoEditWindow.OneFileEachAgrees`).
- **After 80 bits run out** inside a millisecond, the generator steps its clock and the next identifier goes
  back (`UlidGenerator.AfterAnOverflowTimeGoesBack`); identifiers rise exactly while the clock does not
  fall behind the last identifier's time (`UlidGenerator.RisesUnlessTheClockFallsBehind`).
- **Small letters in identifiers break their order.** They are accepted on input and sort after every capital
  (`Ulid.SmallLettersSortLast`). Where two identifiers first differ in digit, text order is value order exactly
  unless the smaller digit alone is a small letter (`Ulid.DifferentDigitsAgree`); where they first differ in
  case, exactly when the rest of the capital's text is worth less (`Ulid.OneDigitAgrees`).
- **A suggestion can be missed.** Nothing is proposed although some word is near enough for its length exactly
  when the first of the nearest words is shorter and not near enough for its own
  (`EditDistance.NothingProposedExactlyWhenHidden`); `EditDistance.AShortWordHidesALongOne` is an example.
- **The tail of an overlapping match stays.** A match that starts inside a removed span and ends after it is
  dropped whole, so what lies beyond the span is kept (`Redact.ATailCanSurvive`). Every match is removed whole
  by one marker exactly when any two matches that cross lie inside a third
  (`RedactText.AllRemovedExactlyWhenCrossingsEnclosed`).
- **The rule listed earlier need not win an overlap.** The comment on the rules says it does; the code prefers
  the earlier start, then the longer match (`Redact.ALaterRuleCanWin`). Overlaps go to the earlier rule, whichever
  of the matches are there, exactly when of any two that overlap the earlier rule's comes first
  (`Redact.EarlierRuleWinsExactlyWhenFirst`).
- **Five attempts wait two minutes**, 3 + 9 + 27 + 81 seconds, where a comment says roughly one: exactly that
  when no longer wait is asked for, and more otherwise (`Retry.FiveAttemptsWaitTwoMinutes`).

## Model

| member | source | states |
|---|---|---|
| `Store.InsertKeepsSchema` | internal/store/memories.go:133-170 | an insert that yields to both unique keys keeps them, and afterwards the identifier or a live row with the same content is there |
| `Store.InsertYieldsExactlyWhen` | internal/store/memories.go:133-170 | it yields exactly to a row with its identifier and to a live row of the same owner, project and content |
| `Store.RightsOnARow` | internal/store/memories.go:269-286 | a live row is readable by its owner and, when shared, by the owner's team, and only its owner may change it |
| `Store.MemoryStore.CreateMemory` | internal/store/memories.go:108-170 | a replayed or duplicate write adds nothing and answers with the row that was there; otherwise exactly one row is appended; an invalid request changes nothing |
| `Store.MemoryStore.UpdateMemory` | internal/store/memories.go:269-327 | a malformed visibility is refused first; only a live row the caller owns is rewritten: it carries the edited text, the hash of that text, the visibility asked for and the time of the edit as its stamp; a content clash and an unreadable or foreign row leave the table as it was |
| `Store.MemoryStore.DeleteMemory` | internal/store/memories.go:334-346 | succeeds exactly for a live row of the caller, which is marked deleted and stamped |
| `Store.MemoryStore.Supersede` | internal/store/memories.go:352-375 | succeeds exactly when the two differ, the new one is readable and the old one the caller's own |
| `Store.MemoryStore.Share` | internal/store/memories.go:395-401 | a live row of the caller becomes visible to the team; nothing else changes |
| `ChangeStream.StreamAscends` | internal/store/memories.go:593-640 | the stream holds exactly the visible rows after the cursor, in strictly ascending order of stamp and identifier |
| `ChangeStream.PageHoldsEverythingUpToItsCursor` | internal/store/memories.go:593-640 | a page holds exactly the visible rows after the old cursor and up to the new one, so following cursors skips and repeats nothing |
| `ChangeStream.PageDrainsExactlyWhenPendingFits` | internal/store/memories.go:593-640 | nothing is left after a page exactly when everything pending fitted the query's limit |
| `ChangeStream.HasMoreIsHonestExactlyWithinLimits` | internal/api/handlers_transfer.go:17-35 | the flag never hides a change exactly when the limit asked for is 1 to 1000 or at most 200 changes are pending |
| `ChangeStream.PendingShrinks` | internal/client/client.go:652-685 | every page moves the cursor past a pending row, which is why the page loop ends |
| `Mirror.ApplyDecidesNamedIds` | internal/client/mirror.go:109-146 | a page decides exactly the identifiers it names: current version, or absence if deleted |
| `Mirror.ApplyTwiceIsApplyOnce` | internal/client/mirror.go:109-146 | a page applied again, after a crash before its cursor was saved, changes nothing |
| `Mirror.LocalMirror.Apply` | internal/client/mirror.go:109-146 | the slice updated in place through an index and compacted stands for the map that applying the changes one by one gives |
| `Mirror.ApplyChange` | internal/client/mirror.go:123-137 | one change, in place, is one map update of what the slice stands for |
| `Mirror.Compact` | internal/client/mirror.go:139-145 | removing the blanked entries keeps what the slice stands for, with distinct identifiers |
| `Mirror.LocalMirror.Enqueue` | internal/client/mirror.go:327-359 | a write is appended, with an identifier, unless the queue is full |
| `Mirror.LocalMirror.Dequeue` | internal/client/mirror.go:401-437 | exactly the named writes leave; anything queued meanwhile stays |
| `Mirror.RemainingKeepsIdsUnique` | internal/client/mirror.go:401-437 | dequeuing keeps the queued identifiers distinct |
| `SyncProtocol.StepKeepsInv` | internal/client/client.go:585-685 | every step of client, network, crash and other writers keeps the invariant of table, queue and mirror |
| `SyncProtocol.EveryStateOfEveryRun` | internal/client/client.go:585-685 | in every state of every run identifiers are unique, the queue is within its bound, and every visible row stamped up to the cursor is in the mirror at its current version, or absent if deleted |
| `SyncProtocol.FetchedPageOk` | internal/client/client.go:652-685 | a fetched page is complete between the two cursors and contains nothing the server does not hold |
| `SyncProtocol.AppliedPageOk` | internal/client/mirror.go:109-146 | applying a page, even one overtaken by later writes, moves the mirror's guarantee to the page's cursor and keeps it at the old one |
| `SyncProtocol.TableStepKeepsMirror` | internal/store/memories.go:108-170 | whatever is written on the server meanwhile, the mirror's guarantee up to its cursor still holds |
| `SyncProtocol.TableStepKeepsPage` | internal/store/memories.go:593-640 | and so does the completeness of a page in flight |
| `SyncProtocol.DeletedRowsAreFrozen` | internal/store/memories.go:142-170 | over any run rows are never lost and a deleted row is never touched again |
| `SyncProtocol.SendingNeverChangesARow` | internal/store/memories.go:142-170 | sending a write, first time or again, overwrites no row, and a replay changes nothing at all |
| `SyncProtocol.DoneWritesWereTakenIn` | internal/client/client.go:616-649 | a write on the push's done list was accepted by the server earlier in the run |
| `SyncProtocol.OnlyWritesTakenInLeaveTheQueue` | internal/client/client.go:616-649 | a write leaves the queue only when a push finishes that had read it, and then the server holds its identifier or held a live row with the same owner, project and content |
| `SyncProtocol.RewriteKeepsMirrorExactlyWhenSettled` | internal/client/client.go:652-685 | whatever its stamp, a rewrite keeps the mirror right exactly when the new version is in the mirror or beyond the cursor, or, out of sight, was never in the mirror |
| `SyncProtocol.LatestRewriteKeepsMirrorExactlyWhenSeen` | internal/store/memories.go:593-640 | a rewrite stamped last keeps the invariant exactly when the client sees the row or its mirror never held it |
| `SyncProtocol.StampMustPassTheCursor` | internal/store/memories.go:593-640 | a rewrite stamped at or before the cursor keeps the mirror right exactly when the mirror shows it already, or never held a row now out of sight; nothing pending names the row |
| `SyncProtocol.RewrittenRowIsPending` | internal/store/memories.go:309-318 | a row rewritten at a time later than every stamp is pending for everyone who sees it, at every cursor reached before, so an edit comes to every mirror |
| `SyncProtocol.NewRowMustPassTheCursor` | internal/store/memories.go:593-640 | a new row keeps it right exactly when it is out of sight, deleted or stamped beyond the cursor |
| `SyncProtocol.HiddenRowsAreNeverSent` | internal/store/memories.go:593-640 | no page from any cursor names a row the caller cannot see |
| `SyncProtocol.UnsharingLeavesAStaleRow` | internal/store/memories.go:269-327 | an example of a mirror gone wrong: a shared memory made private stays in a teammate's mirror, with nothing pending |
| `SyncClient.ExecKeepsInv` | internal/client/client.go:585-685 | every execution of the client's commands is a run of the protocol and keeps its invariant |
| `SyncClient.DrainedMirrorIsReplica` | internal/client/client.go:652-685 | with nothing pending the mirror equals the server's visible live rows |
| `SyncClient.SyncingClient.Save` | internal/client/client.go:339-366 | a write is stored, queued or reported failed, as steps of the protocol that keep its invariant, and the table afterwards is given in every case; one whose reply was lost is queued, and that table would take in nothing more if the copy were sent at once |
| `SyncClient.SyncingClient.Push` | internal/client/client.go:616-649 | a refinement of the protocol's push: what stays queued is exactly what did not land, a push that is cut off keeps the whole queue, and the counts add up |
| `SyncClient.SyncingClient.PullPage` | internal/client/client.go:652-685 | fetch, apply and save the cursor, in this order, as protocol steps; fewer rows are pending after a full page |
| `SyncClient.SyncingClient.Pull` | internal/client/client.go:652-685 | ends, and unless cut off leaves the mirror a replica of the visible live rows |
| `SyncClient.SyncingClient.Sync` | internal/client/client.go:585-608 | a pass that meets the server throughout empties the queue of valid writes and ends with mirror and server agreeing |
| `LostReply.StoredAgainExactlyWhenRewritten` | internal/client/client.go:331-366 | after any later run, sending the queued copy of a stored write adds a row exactly when its identifier is not taken, the stored row was deleted or its content changed, and no other live row has the content |
| `LostReply.OwnIdIsStoredOnce` | internal/client/client.go:331-337 | a write that brought its identifier is never stored again |
| `LostReply.ADeletedMemoryComesBack` | internal/client/client.go:331-366 | an example of the first: stored, reply lost, deleted, pushed |
| `LostReply.AnEditedMemoryIsStoredTwice` | internal/client/client.go:331-366 | the same with an edit instead: the old text is stored beside the new |
| `Paging.MatchesExactlyWhen` | internal/store/memories.go:217-234 | a row is listed exactly when it is live, in the caller's team, the caller's own or shared where others' are asked for, in the project and of a kind asked for, and not replaced unless replaced ones are asked for |
| `Paging.ListMemories` | internal/store/memories.go:211-263 | a page is in strictly descending order and holds exactly the matching rows below its cursor down to the next one; there is a next cursor exactly when there is more |
| `Paging.Export` | internal/api/handlers_transfer.go:84-119 | over any interleaved inserts and deletes and any page size, identifiers written strictly descend, every row that matches throughout is written, and over a fixed table the pages join to the whole sorted list |
| `Paging.DescendingIsUnique` | internal/store/memories.go:211-263 | a strictly descending list is determined by the rows in it |
| `Calendar.NextDayIsOneLater` | internal/cron/cron.go:217-249 | the civil step to the next day adds one to the day number and moves the weekday by one |
| `Calendar.CivilOrderIsTimeOrder` | internal/cron/cron.go:217-249 | comparing year, month, day, hour and minute is comparing instants |
| `Calendar.KnownWeekdays` | internal/cron/cron.go:251-265 | the weekday formula agrees with two dates on record |
| `Calendar.MonthsHaveFourWeeks` | internal/cron/cron.go:228-237 | every month has 28 to 31 days |
| `Calendar.FirstFollows` | internal/cron/cron.go:228-237 | the weekday of the first of the next month is the month's length later |
| `Calendar.FirstsOf2026` | internal/cron/cron.go:228-237 | the weekdays on record of the first of each month of 2026 and of the next January, which together fix the length of every month |
| `CronNext.EitherDayFieldMatches` | internal/cron/cron.go:251-265 | with both day fields restricted either may match, otherwise both must: the rule of the INPUT FILES section of crontab in POSIX.1 |
| `CronNext.MonthSkipSkipsNoMatch` | internal/cron/cron.go:228-233 | jumping to the first of the next month passes over no match |
| `CronNext.DaySkipSkipsNoMatch` | internal/cron/cron.go:234-237 | nor does jumping to the next midnight |
| `CronNext.HourSkipSkipsNoMatch` | internal/cron/cron.go:238-241 | nor to the next full hour |
| `CronNext.FirstMatchIsLeast` | internal/cron/cron.go:217-249 | a match with none before it in the window is the least matching minute strictly after the instant |
| `CronNext.Next` | internal/cron/cron.go:217-249 | the least whole minute strictly after the instant that matches month, day rule, hour and minute, and nothing exactly when none matches within five years, on the calendar that the weekdays on record fix |
| `CronNext.LimitIsFiveYearsOn` | internal/cron/cron.go:222-225 | the window ends on the same date five years on, 29 February becoming 1 March |
| `CronHorizon.NoResultHidesALaterMatchExactlyWhen` | internal/cron/cron.go:213-249 | no match in the window though there is a later one: exactly for schedules that name no existing date but 29 February and no weekday, when none at a set hour and minute lies in the window |
| `CronHorizon.NothingMatchesExactlyWhen` | internal/cron/cron.go:213-215 | no minute ever matches exactly when no weekday is asked for and no set month ever has a set day |
| `CronHorizon.NoResultForADateThatExists` | internal/cron/cron.go:213-249 | an example of the first: midnight on 29 February, asked in 2096 |
| `CronParse.SetFlags` | internal/cron/cron.go:186-188 | the loop sets exactly the values on the step within the range, and panics exactly when its 64-bit counter wraps |
| `CronParse.ParseRange` | internal/cron/cron.go:148-190 | an element is refused, panics or sets exactly what it names, each under its exact condition |
| `CronParse.ReadGivesTheMeaning` | internal/cron/cron.go:148-211 | reading a written element of numbers, names, ranges and steps gives its meaning, and refuses exactly what has none |
| `CronParse.StepsAreMultiples` | internal/cron/cron.go:186-188 | the values reached by counting are those at a multiple of the step from the low end |
| `CronParse.AHugeStepPanics` | internal/cron/cron.go:148-190 | an accepted element whose step overflows the counter |
| `CronParse.OverflowsExactlyOnTheFirstStep` | internal/cron/cron.go:148-190 | an element panics exactly when its low end and its step together exceed the largest integer |
| `CronParse.ParseField` | internal/cron/cron.go:139-146 | a list sets the union of what its elements name, and succeeds exactly when each does |
| `CronParse.FieldsAreConsistent` | internal/cron/cron.go:52-63 | ranges and names of the five fields fit together and no name stands for two values |
| `Cron.MonthNames` | internal/cron/cron.go:56-58 | each month's name stands for its number |
| `Cron.WeekdayNames` | internal/cron/cron.go:60-62 | each weekday's name stands for its number, from Sunday on |
| `Cron.CapitalsMakeNoDifference` | internal/cron/cron.go:192-198 | a name is read in any mixture of capitals and small letters |
| `Cron.NumbersStandForThemselves` | internal/cron/cron.go:192-211 | each field takes exactly the numbers of its range, the weekday 7 for 0 |
| `Cron.SignedNumbers` | internal/cron/cron.go:199-202 | a number may carry a sign, and must fit 64 bits |
| `Cron.Parse` | internal/cron/cron.go:76-101 | parses exactly five fields each of whose elements is well formed and does not overflow; the schedule says what its five fields say, each names something, and an unrestricted day field is full |
| `MarkdownExport.SortedInOrder` | internal/cli/markdown.go:49-58 | records are ordered by kind, then newest first |
| `MarkdownExport.SortedIsStable` | internal/cli/markdown.go:49-58 | records of one rank keep their order |
| `MarkdownExport.RankedAreAll` | internal/cli/markdown.go:49-58 | a rank being all the records of one kind and time |
| `MarkdownExport.DemoteHeadings` | internal/cli/markdown.go:139-156 | the in-place loop demotes the lines as the specification over fences says |
| `MarkdownExport.RenderMarkdown` | internal/cli/markdown.go:50-135 | the document is, line by line, the header and one entry per sorted record |
| `MarkdownLayout.PrecedesExactlyWhen` | internal/cli/markdown.go:40-58 | lessons come first, then decisions, preferences and facts, and of one kind the newest |
| `MarkdownLayout.HeaderReads` | internal/cli/markdown.go:62-88 | the lines of a header, spelled out: title, banner, counts of every kind in singular or plural, and rule |
| `MarkdownLayout.KindsAreCounted` | internal/cli/markdown.go:72-82 | the number shown for a kind is the number of its records |
| `MarkdownLayout.EntryReads` | internal/cli/markdown.go:90-132 | the lines of an entry with every field, spelled out |
| `MarkdownLayout.ExportFenceExactlyWhen` | internal/cli/markdown.go:142-147 | a fence line is three backticks or tildes after any white space |
| `MarkdownLayout.DemotedTwoLevels` | internal/cli/markdown.go:151-153 | a heading of level one to four is written exactly two levels deeper |
| `MarkdownImport.FencedLines` | internal/importers/markdown.go:177-192 | the array holds, for each line, whether it lies in or on a fence |
| `MarkdownImport.BreakIntoSections` | internal/importers/markdown.go:231-310 | the collecting loop breaks any text as specified; what that is, with headings and without, `MarkdownNotes.CutExactlyAtHeadings` and `MarkdownNotes.PlainNoteIsOneMemory` say on its lines |
| `MarkdownImport.ScanDocument` | internal/importers/markdown.go:88-158 | the memories of the sections, in order, each decided as `MarkdownReading` describes on its text |
| `MarkdownNotes.FenceExactlyWhen` | internal/importers/markdown.go:168 | the importer's fence line is three backticks or tildes after ASCII white space |
| `MarkdownNotes.HeadingExactlyWhen` | internal/importers/markdown.go:24 | a heading of level n is one to six number signs, n of them, and white space |
| `MarkdownNotes.HeadingTextIs` | internal/importers/markdown.go:290-295 | its title is what follows, trimmed |
| `MarkdownNotes.LevelsExactlyWhen` | internal/importers/markdown.go:177-247 | a line counts as a heading exactly when it is one and the fences before it are even in number |
| `MarkdownNotes.PlainNoteIsOneMemory` | internal/importers/markdown.go:252-263 | a text without a heading outside a fence and without a comment is imported as one memory: its body the trimmed text, its title the first line of that, trimmed and cut to length |
| `MarkdownNotes.BlankNoteIsNothing` | internal/importers/markdown.go:255-258 | a blank text has no section |
| `MarkdownNotes.CutExactlyAtHeadings` | internal/importers/markdown.go:231-310 | any other text is cut exactly at its headings of the top level in use and of the next when that is used: a section is a heading's title and the trimmed lines up to the next cut, and what stands above the first is kept unless blank |
| `MarkdownNotes.DocumentIsCut` | internal/importers/markdown.go:249-274 | and every text with a heading has such a level and such lines |
| `MarkdownReading.OneCommentGoes` | internal/importers/markdown.go:165 | a comment goes up to its first closing mark, and what stands around it stays |
| `MarkdownReading.AnOpenCommentStays` | internal/importers/markdown.go:165 | a comment that is not closed stays |
| `MarkdownReading.HasBannerExactlyWhen` | internal/importers/markdown.go:167 | a section holds an export's banner exactly when somewhere a comment opens with the exporter's name as a word |
| `MarkdownReading.FindMetaExactlyWhen` | internal/importers/markdown.go:166 | the metadata is the text of the first comment that opens with the program's name and white space, up to its first closing mark |
| `MarkdownReading.FieldIsRead` | internal/importers/markdown.go:203-211 | a line sets the trimmed key before its first equals sign to the trimmed rest, whatever it was before, unless the key is blank |
| `MarkdownReading.OtherLineIsSkipped` | internal/importers/markdown.go:203-206 | a line without an equals sign sets nothing |
| `MarkdownReading.NothingIsImported` | internal/importers/markdown.go:93-109 | a section is skipped exactly when it holds a banner or nothing beside comments |
| `MarkdownReading.MetadataDecides` | internal/importers/markdown.go:99-143 | otherwise the metadata decides kind, visibility and files where it names valid ones, and the document's defaults do elsewhere |
| `MarkdownReading.TitleDecides` | internal/importers/markdown.go:111-124 | the title is the heading's, without a decision's number, or the document's name |
| `MarkdownReading.AdrNumberIsRead` | internal/importers/markdown.go:30 | `ADR`, a gap, digits and separators are a number, and what follows is the title |
| `MarkdownReading.FourDigitsAreRead` | internal/importers/markdown.go:30 | so are four digits and separators |
| `MarkdownReading.NumberedExactlyWhen` | internal/importers/markdown.go:30 | and nothing else is |
| `MarkdownReading.TitleIsCut` | internal/importers/transcripts.go:419-425 | a title is trimmed, and when it has more bytes than allowed cut after as many characters as fit, with an ellipsis |
| `MarkdownReading.FilesInOrder` | internal/importers/markdown.go:135-143 | the files are the parts between commas, trimmed, in order, without blank ones |
| `MarkdownSections.AgreedFencesShelter` | internal/cli/markdown.go:139-156 | a body in which both sides see the same fences, in pairs, shows no heading of level one or two and ends outside a fence |
| `MarkdownSections.EntriesBecomeSections` | internal/importers/markdown.go:231-310 | the lines of rendered entries whose bodies keep apart collect into one section per record |
| `MarkdownEntry.MetaFieldsComeBack` | internal/importers/markdown.go:197-213 | kind, visibility and files written into the metadata comment are read back |
| `MarkdownEntry.EntryComesBack` | internal/importers/markdown.go:88-158 | the section written for a record is imported as that record |
| `MarkdownRoundTrip.ComesBackExactlyWhenPlain` | internal/importers/markdown.go:88-158 | exactly when the record has a body in which no comment opens and a title that is neither shortened nor loses a number |
| `MarkdownSpill.EntriesGoWrong` | internal/importers/markdown.go:231-310 | unless every title is left alone and every body keeps apart, the memories imported from a list of entries are not those exported |
| `MarkdownDocument.DocumentSections` | internal/importers/markdown.go:231-310 | a rendered document starts with a header section, and its entries are split at level two |
| `MarkdownRoundTrip.ImportUndoesExport` | internal/cli/markdown.go:50-156 | when the bodies keep apart, scanning a rendered document yields exactly one memory per record, in rendered order, with title, kind, visibility, files and demoted body |
| `MarkdownRoundTrip.RoundTripsExactlyWhenKeptApart` | internal/importers/markdown.go:88-310 | and only then: for headings that hold no export's banner, the memories come back exactly when the bodies keep apart and the titles are left alone |
| `MarkdownRoundTrip.ExportThenImport` | internal/importers/markdown.go:88-158 | the two programs one after the other |
| `MarkdownFences.ImportFencesAreExportFences` | internal/importers/markdown.go:177-192 | what the importer takes for a fence the exporter does too |
| `MarkdownRoundTrip.AFenceOnlyTheExporterSees` | internal/cli/markdown.go:142-150 | not the other way round: a heading between two such lines is split off, and importing the export of that record does not give it back |
| `ExtractJson.ValueIsNeutral` | internal/consolidate/llm.go:576-597 | over any JSON value of sections 4, 5 and 7 of RFC 8259 the scanner returns to its state without closing, whichever bracket kind it counts |
| `ExtractJson.ExtractsExactlyTheFirst` | internal/consolidate/llm.go:553-597 | for every reply and every array or object: it is extracted exactly when it is the first between the first mark, with its line, and the next mark, or in the reply when one of the marks is missing |
| `ExtractJson.ExtractsFromProse` | internal/consolidate/llm.go:553-597 | bracket-free prose, an array or object and any suffix, with no fence mark anywhere: the value is extracted exactly |
| `ExtractJson.ExtractsFromAnOpenFence` | internal/consolidate/llm.go:553-597 | and so it is after a mark that is opened and never closed |
| `ExtractJson.ACutOffValueIsKept` | internal/consolidate/llm.go:566-598 | of a value that is cut off everything up to the cut is given back |
| `ExtractJson.ProseIsKept` | internal/consolidate/llm.go:553-569 | a reply with no bracket and no mark is given back trimmed |
| `ExtractJson.ExtractsFromFence` | internal/consolidate/llm.go:553-597 | the same inside a single code fence |
| `ExtractJson.AFenceInsideAValueWins` | internal/consolidate/llm.go:553-564 | a fence inside a string of the value takes over |
| `ExtractJson.ExtractJson` | internal/consolidate/llm.go:553-597 | the loop computes the specified extraction for every reply |
| `Bfs.BallIsPaths` | internal/store/graph.go:401-405 | the nodes within a number of hops are those some path of that many links reaches |
| `Bfs.Search` | internal/store/graph.go:406-435 | distinct nodes, seed first, by true distance, within depth and limit; all of them when fewer than the limit, otherwise no node left out is nearer than one kept |
| `Bfs.BuildLinks` | internal/store/graph.go:376-395 | links run both ways, exactly along the edges |
| `Bfs.NearnessIsMutual` | internal/store/graph.go:390-394 | who is near whom does not depend on the side one starts from |
| `Bfs.LimitCutsTheFarEdge` | internal/store/graph.go:400-405 | a smaller limit keeps no more nodes, and none farther than any it drops |
| `CoEdit.NamedIsSortedFiles` | internal/store/graph.go:208-217 | the mentions of one observation are its non-empty files, as often as listed, in order |
| `CoEdit.WeightIsWalked` | internal/store/graph.go:208-226 | the weight the self-join counts is the number of meetings on a walk that looks three mentions back in its session |
| `CoEdit.WeightsAreBounded` | internal/store/graph.go:208-226 | all weights together are at most three for every mention |
| `CoEditWindow.WindowsAgreeExactlyWhen` | internal/store/graph.go:11-23 | a pair weighs at most what the window would give in observations, and the same exactly when no two of its mentions are near in observations but not in mentions |
| `CoEditWindow.OneFileEachAgrees` | internal/store/graph.go:195-222 | the two agree when every observation names at most one file |
| `CoEditWindow.FiveFilesAtOnce` | internal/store/graph.go:195-222 | and differ for one observation that names five |
| `GraphRebuild.SameProjectNeverClashes` | internal/store/graph.go:83-92 | within one project two nodes never share an identifier |
| `GraphRebuild.TwoProjectsCanClash` | internal/store/graph.go:83-92 | two projects of a team can |
| `GraphRebuild.GraphTables.InsertNodes` | internal/store/graph.go:80-125 | inserting skips rows whose key is taken and fails exactly on an identifier taken by another key |
| `GraphRebuild.GraphTables.Rebuild` | internal/store/graph.go:45-243 | succeeds exactly when no other project's node clashes; then the project's rows are those of its corpus, which `GraphReading` tells row by row, and all others are as before, and every edge joins two existing nodes of its project; otherwise nothing changes |
| `GraphRebuild.AllEdgesJoinNodes` | internal/store/graph.go:122-226 | every derived edge joins two derived nodes |
| `GraphLaws.RebuildForgetsThePast` | internal/store/graph.go:66-74 | the rebuilt graph of a project depends on its corpus only, and other projects keep theirs |
| `GraphLaws.RebuildTwiceGivesTheSameNodes` | internal/store/graph.go:66-74 | rebuilding again meets the same obstacles and gives the same nodes |
| `GraphLaws.RebuildTwiceGivesTheSameEdges` | internal/store/graph.go:66-74 | and the same edges, not doubled weights |
| `GraphReading.FileNodeExactlyWhen` | internal/store/graph.go:80-107 | after a rebuild a file is drawn exactly when a live memory or an observation names it and fewer than 1500 named files come before it, being listed more often or as often and sorting first; it weighs as often as it is listed |
| `GraphReading.MemoryNodeExactlyWhen` | internal/store/graph.go:109-121 | a memory is drawn exactly when it is live and names a file or a session, and weighs its strength or a tenth |
| `GraphReading.TouchesExactlyWhen` | internal/store/graph.go:123-135 | a memory and a file are joined exactly when the memory is live and names the file and the file is drawn |
| `GraphReading.CoOccursExactlyWhen` | internal/store/graph.go:137-155 | two files are joined, first to second, exactly when both are drawn and a live memory names both; the weight adds up, over live memories, how often each lists the one times the other |
| `GraphReading.SameSessionExactlyWhen` | internal/store/graph.go:157-177 | two memories are joined exactly when both are live, name the same session, and the first identifier sorts before the second |
| `GraphReading.CoEditedExactlyWhen` | internal/store/graph.go:179-232 | two files are joined as edited together, first to second, exactly when both are drawn and the walk meets them, with how often as weight |
| `GraphReading.EdgesJoinTheirKinds` | internal/store/graph.go:123-232 | and the project has no edge between other kinds of nodes |
| `GraphLaws.TheHeaviestFilesAreDrawn` | internal/store/graph.go:83-104 | at most the cap are drawn, none left out is heavier than one drawn, and all are drawn when they fit |
| `GraphLaws.CoEditedMeansMetOnTheWalk` | internal/store/graph.go:193-226 | two drawn files are joined exactly when the walk meets them, and the weight is how often |
| `GraphLaws.CoEditedWeightsAreBounded` | internal/store/graph.go:193-226 | the weights of all such edges are at most three times the files observations name |
| `GraphLaws.WeightIsMemoriesNamingBoth` | internal/store/graph.go:137-153 | the weight is the number of memories naming both exactly when each lists both once |
| `Limiter.RateLimiter.Allow` | internal/api/middleware.go:287-334 | one request answers and changes the buckets as the step of the specification |
| `Limiter.RateLimiter.Evict` | internal/api/middleware.go:336-342 | exactly the buckets idle for more than ten minutes go |
| `Limiter.EachVerbHasItsBudget` | internal/api/middleware.go:287-295 | three verbs draw on the budget for reads, and every other on the one for writes |
| `Limiter.RunStaysSound` | internal/api/middleware.go:287-334 | over any run tokens stay between nothing and the limit |
| `Limiter.EvictionIsNotObservable` | internal/api/middleware.go:301-342 | every request of every run gets the answer and the wait of a limiter that never evicts |
| `Limiter.RunIsAnswered` | internal/api/middleware.go:287-334 | every answer is decided by the account of the request's own key and kind alone |
| `Limiter.WindowIsBounded` | internal/api/middleware.go:287-334 | in any stretch of any run a key and kind is granted at most its limit plus what the limit earns in that time |
| `Limiter.AllowedAreCounted` | internal/api/middleware.go:287-334 | what a stretch is granted is the number of its requests of that key and kind that were allowed |
| `Limiter.EarnedIsProduct` | internal/api/middleware.go:311-314 | what a limit earns is minutes times limit |
| `Limiter.AnnouncedWaitIsRight` | internal/api/middleware.go:320-331 | after a refusal the next request of that key and kind succeeds once the announced seconds (section 10.2.3 of RFC 9110) are over, whatever else is requested, and fails more than a second before |
| `UlidBits.JoinedBits` | internal/ulid/ulid.go:117-145 | masks and shifts of neighbouring bytes are division and remainder |
| `UlidBits.FivesKeepTheNumber` | internal/ulid/ulid.go:119-145 | eight digits of five bits stand for the number of the five bytes |
| `Ulid.Encode` | internal/ulid/ulid.go:114-148 | 26 capital characters that stand for the number of the sixteen bytes, the first ten for the time |
| `Ulid.TextOrderIsNumberOrder` | internal/ulid/ulid.go:5-9 | texts of capitals of one length sort as the numbers they stand for |
| `Ulid.BuildDecoding` | internal/ulid/ulid.go:32-45 | the table decodes each symbol, in either case, and nothing else |
| `Ulid.Validate` | internal/ulid/ulid.go:153-174 | accepts exactly well-formed texts, and otherwise names the first problem |
| `Ulid.AcceptedMeansItFits` | internal/ulid/ulid.go:159-174 | a text of 26 digits is accepted exactly when its number has 128 bits |
| `Ulid.DifferentDigitsAgree` | internal/ulid/ulid.go:32-45 | two accepted texts that first differ in digit sort as their numbers exactly unless the smaller digit alone is a small letter |
| `Ulid.OneDigitAgrees` | internal/ulid/ulid.go:32-45 | two that first differ in case do so exactly when what follows the capital is worth less |
| `Ulid.SmallLettersSortLast` | internal/ulid/ulid.go:40-43 | an example: ending in `a` instead of `B` sorts last and is worth less |
| `Ulid.Time` | internal/ulid/ulid.go:177-187 | the number of the first ten characters, or the problem |
| `UlidGenerator.Increment` | internal/ulid/ulid.go:102-112 | adds one to the number in the array, or clears it and reports that it was full |
| `UlidGenerator.Generator.NewAt` | internal/ulid/ulid.go:62-91 | the new state and the accepted identifier, whose number is time and random part and whose time can be read back |
| `UlidGenerator.RisesUnlessTheClockFallsBehind` | internal/ulid/ulid.go:56-91 | an identifier exceeds the one before it exactly when the clock is not behind that one's time |
| `UlidGenerator.IdentifiersRise` | internal/ulid/ulid.go:56-91 | for non-decreasing clocks and no overflow identifiers strictly rise |
| `UlidGenerator.TextsRise` | internal/ulid/ulid.go:5-9 | and so do the texts of a run: of any two drawn in turn the later one sorts after the earlier |
| `UlidGenerator.AfterAnOverflowTimeGoesBack` | internal/ulid/ulid.go:68-79 | after an overflow the next identifier of the same millisecond is smaller |
| `EditDistance.DistanceIsFewestEdits` | internal/config/strict.go:168-196 | no script of insertions, deletions and replacements is shorter than the distance, and one is as short |
| `EditDistance.DistanceIsAMetric` | internal/config/strict.go:168-196 | symmetric, zero exactly on equal words, and the triangle inequality |
| `EditDistance.Levenshtein` | internal/config/strict.go:168-196 | the two rows compute the distance |
| `EditDistance.EditDistance` | internal/cli/cli.go:193-218 | and so do the other two, so the two programs agree |
| `EditDistance.Suggest` | internal/config/strict.go:148-166 | the first nearest word regardless of case, if it is within a quarter of its length and one |
| `EditDistance.NearestCommand` | internal/cli/cli.go:179-191 | the first nearest command, if it is within half its length and one |
| `EditDistance.NothingProposedExactlyWhenHidden` | internal/config/strict.go:148-166 | nothing is proposed although a word is in its own reach exactly when the first of the nearest is shorter and out of its own |
| `EditDistance.AShortWordHidesALongOne` | internal/config/strict.go:148-166 | an example: for two-letter words that share nothing, the second proposes nothing and hides a four-letter word as near |
| `Redact.Collect` | internal/redact/redact.go:168-210 | the candidates are exactly the non-empty matches, and the kept spans resolve their overlaps |
| `Redact.CandidateExactlyWhen` | internal/redact/redact.go:168-187 | a candidate is exactly a match of a rule that holds something, wherever it starts |
| `Redact.ResolutionIsUnique` | internal/redact/redact.go:188-210 | earliest start, then longest, then first rule determine the kept spans, whatever order matches are found in |
| `Redact.KeptAreDisjoint` | internal/redact/redact.go:201-210 | kept spans stand in order and apart |
| `Redact.EveryCandidateStartsInside` | internal/redact/redact.go:201-210 | every candidate starts inside a kept span it does not go before |
| `Redact.CoveredExactlyWhenCrossingsEnclosed` | internal/redact/redact.go:188-210 | every candidate lies inside one kept span exactly when any two that cross lie inside a third |
| `Redact.ATailCanSurvive` | internal/redact/redact.go:201-210 | of two candidates that cross the second is dropped with its tail |
| `Redact.EarlierRuleWinsExactlyWhenFirst` | internal/redact/redact.go:64-66 | overlaps go to the rule listed earlier, for every set of the candidates, exactly when of any two that overlap the earlier rule's comes first |
| `Redact.ALaterRuleCanWin` | internal/redact/redact.go:188-210 | of two that overlap, the first in order is kept though its rule is listed later |
| `RedactText.LineIndex.At` | internal/redact/redact.go:213-231 | binary search gives the line and column that counting line breaks gives |
| `RedactText.PlaceMovesOn` | internal/redact/redact.go:213-231 | lines and columns start at one, a line break starts a line, every other character moves one column on |
| `RedactText.OneSpanReads` | internal/redact/redact.go:123-151 | a removed span leaves what stood before it, a marker that names its kind, and what stood after it |
| `RedactText.PutBackRestores` | internal/redact/redact.go:123-151 | putting the removed texts back where the findings say restores the text |
| `RedactText.ReportIsUnique` | internal/redact/redact.go:100-151 | there is one report of a text, so scanning and applying give the same findings |
| `RedactText.AllRemovedExactlyWhenCrossingsEnclosed` | internal/redact/redact.go:123-151 | every match lies inside one finding exactly when any two matches that cross lie inside a third |
| `RedactText.Scan` | internal/redact/redact.go:100-115 | the findings are those of the spans that resolve the candidates, with length, line and column |
| `RedactText.Apply` | internal/redact/redact.go:123-151 | the same findings, a marker for each span, and nothing else changed: putting the removed texts back restores the text |
| `CodexToml.SplitSection` | internal/connect/writers.go:334-358 | the text before the first header line and from the next opening line on |
| `CodexToml.HeaderExactlyWhen` | internal/connect/writers.go:338 | the header line is the section's name in brackets, with any white space around it |
| `CodexToml.OpensExactlyWhen` | internal/connect/writers.go:349 | a line opens a section when a bracket is the first thing on it |
| `CodexToml.ConfigFile.Write` | internal/connect/writers.go:366-410 | writes and backs up exactly when the text changes beyond white space at its ends |
| `CodexToml.ConfigFile.Remove` | internal/connect/writers.go:412-442 | removes exactly when the section is there, keeping a backup |
| `CodexTomlLaws.ComposedSplits` | internal/connect/writers.go:334-358 | splitting a written text finds its parts again |
| `CodexTomlLaws.SecondWriteChangesNothing` | internal/connect/writers.go:366-410 | a second write reports no change, whatever the file held |
| `CodexTomlLaws.WritingTwiceIsWritingOnce` | internal/connect/writers.go:366-394 | writing is idempotent on every text |
| `CodexTomlLaws.WritingKeepsTheOtherLines` | internal/connect/writers.go:381-390 | outside the section every line that is not empty is kept, in order |
| `CodexTomlLaws.AppendingKeepsAllLines` | internal/connect/writers.go:391-394 | a text without the section keeps all its lines that are not empty |
| `CodexTomlLaws.RemovalAfterWrite` | internal/connect/writers.go:366-442 | removing what was written gives back a text that had no section, up to newlines at its end |
| `CodexTomlLaws.RemovingForgetsWriting` | internal/connect/writers.go:412-442 | and from a text that had one, writing first makes no difference |
| `CodexTomlLaws.RemovingKeepsTheOtherLines` | internal/connect/writers.go:412-442 | removing the section keeps every other line that is not empty, in order |
| `CodexTomlLaws.RemovingLeavesOneBlankLine` | internal/connect/writers.go:412-442 | and leaves one blank line between what stood before and after it |
| `CodexTomlLaws.OwnLinesAreASection` | internal/connect/writers.go:372-374 | the text the program writes is its four lines, which are a section for every command on one line |
| `CodexTomlLaws.SectionReads` | internal/connect/writers.go:372-374 | these lines, spelled out |
| `CodexTomlLaws.OwnSectionIsWrittenOnce` | internal/connect/writers.go:366-442 | so for the program's own section, any text and any such command: writing twice is writing once, and removing undoes writing |
| `VerifyCache.EntriesDiffer` | internal/store/auth.go:152-155 | key and plaintext can be told from the joined text, since identifiers hold no NUL |
| `VerifyCache.Authority.Authenticate` | internal/store/auth.go:205-255 | in every reachable state the answer of a server that verifies every key every time |
| `VerifyCache.OneDirectAnswer` | internal/store/auth.go:205-255 | that answer is unique |
| `VerifyCache.PrefixExactlyWhen` | internal/store/auth.go:122-132 | a well-formed key is the marker and four characters, an underscore and more |
| `VerifyCache.AnswerSays` | internal/store/auth.go:205-255 | and says of each key whether it is malformed, unknown, revoked, unreadable or its user's |
| `VerifyCache.Authority.Add` | internal/store/auth.go:165-189 | the memory stays within its maximum and remembers only what matched |
| `VerifyCache.Authority.ForgetHalf` | internal/store/auth.go:180-187 | fewer than half the maximum are left, all of them as they were |
| `VerifyCache.Authority.Revoke` | internal/store/auth.go:446-460 | a live key of the team is marked revoked, and nothing else changes |
| `VerifyCache.RevokedStaysRevoked` | internal/store/auth.go:446-460 | whatever is issued or revoked later, the row stays as it is |
| `VerifyCache.RevokedIsRefused` | internal/store/auth.go:205-238 | every call with a revoked key is refused, whatever the memory holds |
| `Retry.CompleteWithRetry` | internal/consolidate/llm.go:438-483 | stops at the first answer, spent budget or lasting refusal and at five attempts, and waits 3, 9, 27 and 81 seconds or as long as asked |
| `Retry.StopsAtTheFirstFinal` | internal/consolidate/llm.go:438-483 | no attempt follows a final outcome, and none is given up before one with attempts left |
| `Retry.CompletionSays` | internal/consolidate/llm.go:438-483 | it asks again exactly after a broken connection, too many requests or a status from 500 to 599, at most five times, and ends with the last attempt |
| `Retry.WaitsTriple` | internal/consolidate/llm.go:418-432 | the four waits are 3, 9, 27 and 81 seconds, or as long as the provider asks for if that is more |
| `Retry.FiveAttemptsWaitTwoMinutes` | internal/consolidate/llm.go:405-483 | five attempts wait 120 seconds exactly when no longer wait is asked for, and more otherwise; fewer, with none longer, at most 39 |
| `Drain.SessionsAwaitingSummary` | internal/store/consolidation.go:14-45 | distinct waiting sessions, the longest closed first, as many as the limit or all |
| `Drain.Worker.Summarise` | internal/consolidate/worker.go:411-486 | at most two completions for a session, and the summary each outcome calls for: none recorded or the budget spent gives an empty one, an answer gives its trimmed text, a budget spent on more than 60 observations is followed by a second request, and any other failure leaves the session waiting |
| `Drain.Worker.Tier1Once` | internal/consolidate/worker.go:392-503 | the sessions of a batch are marked in order until a failure, nothing else changes, and without a failure all are |
| `Drain.Worker.DrainTier1` | internal/consolidate/worker.go:516-555 | no session is visited twice, at most two completions each; a backlog B below 5000 is emptied in B/25 + 1 batches, and 200 batches are the most |
| `Drain.ProgressIsTheQueue` | internal/store/consolidation.go:257-275 | eligible less read is the team's queue length, and read grows by exactly what is marked |

## Left out

- `Store.InsertKeepsSchema`: identifiers are numbers, so in capitals; two that differ in the case of a letter are two keys to the database and would be one here.
- `Store.MemoryStore.CreateMemory`: one atomic step; the source inserts and then reads back in separate statements, and strength, embeddings and full-text columns are not modelled.
- `SyncProtocol.EveryStateOfEveryRun`: one client process; assumes stamps grow with each write and that visibility never shrinks, both shown to be needed.
- `SyncClient.SyncingClient.Save`: the identifier is not in the queue already, as identifiers drawn at random are not; the mirror does not look.
- `SyncClient.SyncingClient.Pull`: nobody else writes to the server during one pull; the interleavings are covered by the protocol's invariant.
- `Paging.ListMemories`: the filters are one predicate on rows, the kinds asked for a test on them, not query text; a cursor that is no identifier, which is refused before the query, is not modelled.
- `Cron.Parse`: takes the fields already split; splitting at white space, the `@daily` family and `@every` are not modelled.
- `CronNext.Next`: UTC; time zones and daylight saving are not modelled.
- `MarkdownExport.RenderMarkdown`: the clock and the quoting of the project name are parameters.
- `MarkdownRoundTrip.RoundTripsExactlyWhenKeptApart`: records with a known kind and visibility, and with file names, source and identifier that keep to their line and comment, as text without a newline, a comment's end or an export's banner does, and file names without commas and without white space around them; the converse also asks that no heading holds or begins an export's banner, since one hidden by an open fence would drop the section that took it in.
- `MarkdownImport.ScanDocument`: the patterns are matchers written by hand; line numbers, the redaction preview and walking the files are not modelled, and long titles are cut at whole characters.
- `GraphRebuild.GraphTables.Rebuild`: statements, not query planning; the hash of a node's text is taken to have no collisions, text sorts by character, and one rebuild of a project runs at a time.
- `Limiter.RateLimiter.Allow`: real numbers instead of floating point, and a clock that never runs backwards.
- `Ulid.Time`: the shift and or of an accumulated digit is written as multiplication and addition.
- `UlidGenerator.Generator.NewAt`: random bytes are a parameter, and the lock makes each call one step.
- `EditDistance.Suggest`: lower-casing is a parameter, and one search for the nearest word serves both callers.
- `Redact.Collect`: what each rule matches is a parameter.
- `CodexToml.ConfigFile.Write`: the quoting of the command is a parameter, and writing the file and its backup is one step.
- `VerifyCache.Authority.Authenticate`: the slow hash and the digest are parameters, the digest without collisions; one call is one step, and recording the last use is not modelled.
- `Drain.Worker.Tier1Once`: store errors, cancellation, token counts, run records and the text of the prompt, with how many observations it holds, are not modelled.
- HTTP routing, the viewer, command-line printing, the tool protocol framing, install scripts and the Python sidecar: input and output with no hard property.
- The event hub, JSON configuration merging, Claude hooks, agent detection, prompt composition, embedding batches, BM25 scoring and strength decay: they would add easy members, or belong to a runtime.
