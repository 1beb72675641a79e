# Verified model of the gate, terminal, release and session logic

A Dafny model of the algorithms in this repository that other parts rely on over whole runs, with proofs
of what they promise. `dafny verify dfyconfig.toml` checks everything.

| file | models |
|---|---|
| `GateGraph.dfy`, `GateSteps.dfy`, `GateLoop.dfy` | the gate runner: preflight with its cycle finder, the scheduler as a step system, and the loop itself |
| `LineWrap.dfy`, `WrapProperties.dfy` | wrapping a styled line into terminal rows by cell width |
| `RowNumbers.dfy`, `DisplayBuffer.dfy`, `BufferRuns.dfy`, `BufferResults.dfy` | stable row numbers, the display buffer service, what all its runs keep, and what each operation does |
| `TerminalOutput.dfy` | frames of the buffer, their check, and the dirty-row diff |
| `KeyPaths.dfy`, `TypePaths.dfy`, `TypeAnswers.dfy` | config key paths, the three-valued lookup of a path in recursive types, and when its answers are definite |
| `Publication.dfy`, `ShellQuoting.dfy` | the resumable release publication over a registry, and the printed shell commands |
| `LintPool.dfy` | the lint workers that share a counter |
| `PackageGraph.dfy` | ordering packages by dependency layers |
| `ReferenceGraphs.dfy` | the worklists over TypeScript project references |
| `StructuredDiff.dfy` | the numbered before-and-after card of a file edit |
| `Channels.dfy` | session channels and the registry that multiplexes them |
| `CommentRanges.dfy` | HTML comments in Markdown lines |
| `LinkDestinations.dfy`, `LinkRewrite.dfy` | finding the destinations of Markdown links, and splicing in new ones |
| `Wrappers.dfy`, `Collections.dfy`, `JsIntegers.dfy`, `StableSort.dfy`, `TextLines.dfy` | shared notions: results, sets, integers, the stable sort, lines of a text |

## How it is modelled

- Loops are methods with loops, objects whose fields change are classes, and each is proved equal to a
  function of its inputs or of the old state; the theorems are about those functions. An operation that
  throws is a failure result with the state unchanged.
- Concurrency is a step system. The theorems about gates and lint workers hold for every interleaving;
  the methods beside them pick an arbitrary enabled step and are proved to follow a legal run.
- A recursive lookup that may exhaust the stack takes the depth of the stack as an argument and can
  answer that it overflowed. Its answers are right at every depth.
- Crashes of the publisher are a number of registry steps after which the process stops.
- JavaScript maps keep the place of the first insertion and the value of the last; this is modelled where
  duplicate keys can occur (gates, packages, rows).
- Keys and signatures that the source joins into strings are tuples and sequences here: two different
  tuples can join to one string.

## Where the code does less than one might expect

Each of these is a theorem; where a condition decides whether the code meets the property, the condition is
proved in both directions.

- A two-cell character overflows a row of width one (`SplitFitsIff`), and a zero-width character is
  dropped at the start of a line or after a cell that fills its row (`SplitKeepsEveryCharacterIff`).
- Rows inserted between kept neighbours are numbered back from the lower one, so one of them gets a number
  that is taken (`InsertedRowCollides`, `ConsecutiveIff`), and such a frame is then rejected by the output
  (`CollidingRowsAreRejected`). What is committed is not touched by that: by its key a committed row keeps
  its number and content for as long as it is retained (`CommittedForGood`).
- With the release tag `latest`, a first publication can move the entry package's `latest` tag before the
  bundle is complete (`LatestMovesLastIff`, `LatestMovesEarly`).
- The type lookup shares its guard between sibling branches, so a type that is not recursive can be
  answered `unknown`: always when two branches of a union name one declaration
  (`UnionNamingTwiceIsUnknown`, `RepeatedBranchIsUnknown`). Where the walk without a guard enters each
  declaration at most once for each number of steps left, the guard costs nothing and the lookup finds
  exactly what is certainly present and misses exactly what is certainly absent (`GuardCostsNothing`); a
  caller can see this from the declarations, if each is named at most once along the path
  (`NamedOnceIsDefinite`), which recursive types may meet (`LinkedIsNamedOnce`). The converse does not
  hold and is not claimed: in an intersection a declaration entered twice may cost nothing, since its
  first answer decides (`RepeatedPartIsStillFound`). An alias that indexes itself is never answered
  (`SelfIndexedNeverReturns`).
- The documentation of the face check (deepseek-harness/scripts/project-reference-faces.ts:23-25) asks
  every reference to name the leaf of the aggregate at which the walk began; the code compares with the
  face of the referencing config itself, and the model follows the code (`NoViolationsIff`,
  `AggregateFaceIsNotChecked`, `HostReachesClientLeaf`). If nothing is reported, the documented rule holds
  exactly when every config that enters a split project has the face of the aggregates it is reached from;
  and where the configs do, the rule holds exactly when nothing is reported (`AggregateRuleIff`).
- The lint pool reports a missing result exactly when it has targets and no worker (`RunAll`); no number
  that the configuration yields is such a one (`Concurrency`).

## Model

| member | source | states |
|---|---|---|
| `GateGraph.FindDependencyCycle` | deepseek-harness/scripts/run-gates.ts:669-699 | The search answers none exactly when every gate can be numbered above the gates it needs; otherwise it exhibits a closed walk of needs whose ids repeat only at its two ends. |
| `GateGraph.CycleFinder.Visit` | deepseek-harness/scripts/run-gates.ts:675-692 | A visit either finds such a cycle, or leaves path and active map as they were and adds the id, and never forgets a completed id. |
| `GateGraph.CycleFinder.Leave` | deepseek-harness/scripts/run-gates.ts:688-690 | Leaving an id whose needs are complete takes it off the path and completes it, which keeps the order of completion a numbering. |
| `GateGraph.CycleRefutesRanking` | deepseek-harness/scripts/run-gates.ts:669-699 | A cycle and a numbering exclude each other, so both answers of the search mean what they say. |
| `GateGraph.ValidateGateGraph` | deepseek-harness/scripts/run-gates.ts:649-667 | Preflight accepts exactly the non-empty lists with distinct ids, known needs and no cycle, and a rejection names a real defect of the list. |
| `GateSteps.StepKeepsInv` | deepseek-harness/scripts/run-gates.ts:723-770 | Every start, settlement and skip, in whatever order, keeps: a started gate had all needs passed, a settled one has its own outcome, a skipped one has a failed or skipped need. |
| `GateSteps.ReachableInv` | deepseek-harness/scripts/run-gates.ts:723-770 | In every reachable state at most `maxActive` gates run and no gate was executed twice. |
| `GateSteps.QuietMeansBlocked` | deepseek-harness/scripts/run-gates.ts:734-741 | When nothing runs and nothing is ready, some pending gate has a failed or skipped need. |
| `GateSteps.NeverStalls` | deepseek-harness/scripts/run-gates.ts:734-741 | Until every gate is settled some step is possible, for every worker count. |
| `GateSteps.StepCount` | deepseek-harness/scripts/run-gates.ts:723-770 | Each step executes one more gate or settles one more gate, and does nothing else. |
| `GateSteps.RunsAreBounded` | deepseek-harness/scripts/run-gates.ts:723-770 | Every schedule ends: no run takes more than two steps per gate. |
| `GateSteps.CompleteRunSolves` | deepseek-harness/scripts/run-gates.ts:723-776 | Whatever the order of settlements, a complete run ends in a solution of the graph equations and has executed exactly the gates whose needs all passed, once each. |
| `GateSteps.SolutionUnique` | deepseek-harness/scripts/run-gates.ts:709-781 | A valid gate list has one solution: its meaning does not depend on any schedule. |
| `GateSteps.RunsAgree` | deepseek-harness/scripts/run-gates.ts:709-781 | Confluence: two complete runs, with any two worker counts and any two orders of settlement, end with the same statuses and have executed the same gates. |
| `GateSteps.PassedIff` | deepseek-harness/scripts/run-gates.ts:709-781 | A gate passes exactly when its own outcome and the outcome of every gate below it in the graph are passes. |
| `GateLoop.ReportUnique` | deepseek-harness/scripts/run-gates.ts:736-758 | The whole report, the blamed needs of skipped gates included, is determined by the list and the outcomes. |
| `GateLoop.SkippedAreBlamed` | deepseek-harness/scripts/run-gates.ts:736-758 | In the final report a gate that could not run names at least one of its needs and only needs that ended failed or skipped; a gate that ran names none. |
| `GateLoop.StartReady` | deepseek-harness/scripts/run-gates.ts:724-732 | The inner loop starts ready gates, first in the list first, until no worker is free or none is ready, and remembers whether it started any. |
| `GateLoop.BlockedIsFound` | deepseek-harness/scripts/run-gates.ts:737-741 | The search for a blocked gate always succeeds, so the stalled error cannot be raised. |
| `GateLoop.PendingGatesAppend` | deepseek-harness/scripts/run-gates.ts:735 | The gates that are left are searched in the order of the list. |
| `GateSteps.FailedDepsAppend` | deepseek-harness/scripts/run-gates.ts:738-745 | The needs that are blamed are listed in the order in which they are declared. |
| `GateLoop.SkipRest` | deepseek-harness/scripts/run-gates.ts:734-760 | The last phase settles every pending gate as skipped, always the first blocked one next, and tells each exactly the needs that had failed or been skipped by then. |
| `GateLoop.RunGates` | deepseek-harness/scripts/run-gates.ts:709-777 | Refuses exactly the invalid lists and worker counts, before anything is executed; otherwise it always ends, its steps are a legal run that never waits with a free worker and a ready gate, and it returns one result per gate, in order, with the statuses of the solution. |
| `GateLoop.ExitCode` | deepseek-harness/scripts/run-gates.ts:94-96 | The exit code is 1 exactly when some gate that may not fail ended failed or skipped. |
| `GateLoop.CleanExitIff` | deepseek-harness/scripts/run-gates.ts:92-96 | Over any run the exit code is 0 exactly when every outcome at or below each blocking gate is a pass. |
| `KeyPaths.StripHops` | deepseek-harness/scripts/gen-config-catalog.ts:236-240 | Stripping array brackets loses nothing: the segment is the name followed by that many hops, and the name has none left. |
| `KeyPaths.ParsePath` | deepseek-harness/scripts/gen-config-catalog.ts:232-245 | Parsing is the inverse of printing: the steps print back to the path, and they are the only canonical steps that do. |
| `KeyPaths.FormatInjective` | deepseek-harness/scripts/gen-config-catalog.ts:232-245 | Different canonical step lists never print the same path. |
| `TypePaths.DeclExclusive` | deepseek-harness/scripts/gen-config-catalog.ts:317-403 | Certain presence and certain absence, defined by derivations that know of no visited set, exclude each other. |
| `TypePaths.LookupSound` | deepseek-harness/scripts/gen-config-catalog.ts:317-403 | Whatever the visited set holds, an answer found means certain presence and an answer missing means certain absence: the guard can only turn an answer into unknown. (When it does not is `TypeAnswers.GuardCostsNothing`.) |
| `TypePaths.TypeSound` | deepseek-harness/scripts/gen-config-catalog.ts:317-403 | The same for every kind of type node, at every depth of the recursion. |
| `TypePaths.DeclSound` | deepseek-harness/scripts/gen-config-catalog.ts:344-361 | The same for interfaces with their bases and for aliases, whose guard is shared. |
| `TypePaths.JoinSound` | deepseek-harness/scripts/gen-config-catalog.ts:330-334 | Joining branch answers keeps them right: any branch for intersections and bases, all branches for unions. |
| `TypePaths.FirstPropertyIff` | deepseek-harness/scripts/gen-config-catalog.ts:335-343 | A step finds a property exactly when some member is a property of that name, and what it goes on with is the annotation of the first one. |
| `TypePaths.LastStepIff` | deepseek-harness/scripts/gen-config-catalog.ts:335-361 | At the end of a path the walk answers found for an interface without bases exactly when it has a property of that name, and missing otherwise. |
| `TypePaths.WrappersPassThrough` | deepseek-harness/scripts/gen-config-catalog.ts:392-397 | The four utility wrappers answer as their first argument does, and the two named list types as a list of it. |
| `TypePaths.LookupReturns` | deepseek-harness/scripts/gen-config-catalog.ts:317-403 | When no declaration reachable from the one looked up uses literal-key indexed access, however recursive they are, the walk returns, with a stack bounded in advance. |
| `TypePaths.SelfIndexedNeverReturns` | deepseek-harness/scripts/gen-config-catalog.ts:381-385 | An alias that indexes itself is never answered: each round lengthens the path, the guard never fires and no stack is deep enough. |
| `TypePaths.RepeatedBranchIsUnknown` | deepseek-harness/scripts/gen-config-catalog.ts:322-326 | A concrete type that is not recursive and certainly has its member, yet is answered unknown: the guard is shared by sibling branches. (The general fact is `TypeAnswers.UnionNamingTwiceIsUnknown`.) |
| `TypeAnswers.GuardCostsNothing` | deepseek-harness/scripts/gen-config-catalog.ts:317-403 | If the walk without a guard returns and enters no declaration twice with the same number of steps left, then the guarded walk returns too, and answers found exactly when the path is certainly present and missing exactly when it is certainly absent. |
| `TypeAnswers.NamedOnceIsDefinite` | deepseek-harness/scripts/gen-config-catalog.ts:317-403 | The same under a condition on the declarations alone: along the path each is named at most once for each number of steps left, and naming does not go round without using up a step. A bound on the stack is given. |
| `TypeAnswers.UnionNamingTwiceIsUnknown` | deepseek-harness/scripts/gen-config-catalog.ts:322-334 | A union that names one declaration in two of its branches is answered unknown by every lookup that returns, whatever the declaration holds and whatever was visited before. |
| `TypeAnswers.LinkedIsNamedOnce` | deepseek-harness/scripts/gen-config-catalog.ts:322-361 | A recursive interface meets the condition, so recursion alone costs no answer. |
| `TypeAnswers.RepeatedPartIsStillFound` | deepseek-harness/scripts/gen-config-catalog.ts:330-334 | The condition is not necessary: an intersection that names one declaration twice is still answered found. |
| `LineWrap.SplitLine` | agent-tui/display-buffer-plugin.js:41-75 | The character loop yields exactly the longest-rows-first wrap of the cells, rendered into coalesced spans, at every width. |
| `LineWrap.WrapSnoc` | agent-tui/display-buffer-plugin.js:58-69 | Longest-first wrapping can be computed one cell at a time, looking at the last row only. |
| `LineWrap.WrapMark` | agent-tui/display-buffer-plugin.js:51-57 | A zero-width character never moves a cell to another row. |
| `WrapProperties.WrapKeepsCells` | agent-tui/display-buffer-plugin.js:41-75 | Wrapping loses, adds and reorders no cell. |
| `WrapProperties.RowsFitIff` | agent-tui/display-buffer-plugin.js:58-69 | All rows respect the width exactly when no single cell is wider than a row. |
| `WrapProperties.WrapIsMaximal` | agent-tui/display-buffer-plugin.js:58-69 | No row has room for the first cell of the next. |
| `WrapProperties.WrapIsOptimal` | agent-tui/display-buffer-plugin.js:58-69 | No other way to cut the cells into fitting rows needs fewer rows. |
| `WrapProperties.EmptyRows` | agent-tui/display-buffer-plugin.js:58-69 | A cell that is too wide for a row stands behind one empty row, unless it follows another such cell; no other row is empty. |
| `WrapProperties.CellWidthIff` | agent-tui/display-buffer-plugin.js:15-39 | No room for control characters and combining marks, two cells for the wide ranges, one for everything else. |
| `WrapProperties.SpansCoalesced` | agent-tui/display-buffer-plugin.js:60-66 | No produced span is empty and neighbours differ in style or background. |
| `WrapProperties.CoalescedUnique` | agent-tui/display-buffer-plugin.js:60-66 | Coalesced spans are determined by their characters and looks, so a row has one rendering. |
| `WrapProperties.SplitFitsIff` | agent-tui/display-buffer-plugin.js:41-75 | Every produced line fits the width exactly when the width is at least two or the line holds no two-cell character. |
| `WrapProperties.ResplitIff` | agent-tui/display-buffer-plugin.js:41-75 | Splitting a produced line again returns that line alone exactly when the line fits. |
| `WrapProperties.SplitKeepsContent` | agent-tui/display-buffer-plugin.js:41-75 | Every character that takes room survives in order with its own style and background, at every width. |
| `WrapProperties.SplitKeepsEveryCharacterIff` | agent-tui/display-buffer-plugin.js:51-57 | No character at all is dropped exactly when the line does not start with a zero-width character and none follows a cell that fills its row. |
| `WrapProperties.AccentAtTheEdgeIsLost` | agent-tui/display-buffer-plugin.js:51-69 | A letter that fills the row followed by its accent: the accent is dropped. |
| `RowNumbers.PreserveNumbers` | agent-tui/display-buffer-plugin.js:112-128 | The in-place fill gives each row its own number, else one counted back from the next known one, else on from the last, else its position. |
| `RowNumbers.ConsecutiveIff` | agent-tui/display-buffer-plugin.js:109-130 | The result is consecutive exactly when the kept rows are as far apart as their numbers say. |
| `RowNumbers.AroundKept` | agent-tui/display-buffer-plugin.js:109-130 | New rows above and below a run of kept rows: the run keeps its numbers and everything is consecutive. |
| `RowNumbers.InsertedRowCollides` | agent-tui/display-buffer-plugin.js:118-127 | Rows inserted, any number of them in any list, between two rows with successive numbers are numbered back from the lower one; the last of them takes the number of the upper one, and the numbers are not consecutive. |
| `BufferResults.SplitAllAppend` | agent-tui/display-buffer-plugin.js:86-91 | The wrapped lines of an element stand in the order of its lines. |
| `BufferResults.SplitAllOne` | agent-tui/display-buffer-plugin.js:86-91 | A single line gives its own wrapped lines. |
| `BufferResults.ElementsStack` | agent-tui/display-buffer-plugin.js:76-94 | The rows of later elements stand below those of earlier ones. |
| `BufferResults.OneElement` | agent-tui/display-buffer-plugin.js:85-91 | The rows of one element are its wrapped lines in order, counted from zero, with its ids and lifecycle. |
| `BufferResults.RowsKeepNumbers` | agent-tui/display-buffer-plugin.js:109-130 | A reflow changes nothing but numbers in the rows of the elements: counted from zero at a new layout; at the same one each row that was there, by ids and place, has its number. |
| `BufferResults.RetainedIff` | agent-tui/display-buffer-plugin.js:167 | What is retained are the last rows, 1000 of them, or all if there are fewer. |
| `BufferResults.ReflowShows` | agent-tui/display-buffer-plugin.js:167-171 | A successful reflow shows exactly the retained ones of all numbered rows, cut in front of the first live one. |
| `BufferResults.ReflowKeepsTop` | agent-tui/display-buffer-plugin.js:172-176 | A reflow keeps the height and whether the tail is followed; then the window is at the end, and otherwise at its row as far as the new rows allow. |
| `BufferResults.ReflowRefusedIff` | agent-tui/display-buffer-plugin.js:148-166 | Each refusal of a reflow is made on exactly one condition: a layout without room, a stable element behind a live one, or at an unchanged layout a committed row of which the last stable row with its number has other content. |
| `BufferResults.SameContentIff` | agent-tui/display-buffer-plugin.js:101-105 | Two rows count as the same exactly when their ids, places and lines agree, whatever their lifecycle. |
| `BufferResults.SameLineIff` | agent-tui/display-buffer-plugin.js:101-105 | Two lines count as the same exactly when their spans have the same texts, styles and backgrounds, an absent background being an empty one. |
| `BufferResults.ScrollTakesRow` | agent-tui/display-buffer-plugin.js:179-189 | Scrolling goes to the row that was asked for if the window may begin there, else to the nearest row where it may; it follows the tail exactly when asked to and at the end, and leaves rows and layout alone. |
| `BufferResults.LastTopIff` | agent-tui/display-buffer-plugin.js:96-100 | The top rows from the last top on are exactly those from the first row on whose window reaches behind the last row. |
| `BufferResults.ResetShowsNothing` | agent-tui/display-buffer-plugin.js:136-147 | A reset drops all rows, goes to the top and follows the tail; layout and height stay. |
| `DisplayBuffer.RowsFor` | agent-tui/display-buffer-plugin.js:76-94 | The rows are the wrapped lines of all elements in order, with positions and places in their element; refused exactly when a stable element follows a live one. |
| `DisplayBuffer.TuiDisplayBuffer.Reset` | agent-tui/display-buffer-plugin.js:136-147 | Clears the rows, follows the tail, keeps layout and height, and counts a revision. |
| `DisplayBuffer.TuiDisplayBuffer.Reflow` | agent-tui/display-buffer-plugin.js:148-178 | Produces the specified snapshot, or one of the four errors with the snapshot unchanged. |
| `DisplayBuffer.TuiDisplayBuffer.SetViewport` | agent-tui/display-buffer-plugin.js:179-189 | Clamps the top row into the retained rows and follows the tail only if asked to and at the end. |
| `BufferRuns.ReachableInv` | agent-tui/display-buffer-plugin.js:131-194 | After any operations: committed rows are stable, live rows start with a live one, at most 1000 rows are retained, the top row lies between the first row and the last top, and a followed tail is at that last top. |
| `BufferRuns.RevisionGrows` | agent-tui/display-buffer-plugin.js:136-189 | The revision grows by one with every operation that succeeds; a failed one changes nothing. |
| `BufferRuns.CommittedStays` | agent-tui/display-buffer-plugin.js:158-166 | A reflow that succeeds at an unchanged layout still has every committed row, stable, with its number and content. |
| `BufferRuns.CommittedContentFixed` | agent-tui/display-buffer-plugin.js:158-170 | After a reflow that succeeds at an unchanged layout, whatever row has the key of a committed row is committed, with the same number and content, even where numbers collide beside it. |
| `BufferRuns.CommittedForGood` | agent-tui/display-buffer-plugin.js:131-194 | In every reachable state: from the moment a row is committed, through any operations, as long as no reflow changes the layout and the row stays retained, it is committed with the same number and content. |
| `BufferRuns.CommittedByNumber` | agent-tui/display-buffer-plugin.js:158-170 | The same read by number, for one reflow with consecutive numbers (`NumberedRowsIff` tells which): the number is found again while it is in range, and only with this content. |
| `BufferRuns.ElementsGiveDistinctKeys` | agent-tui/display-buffer-plugin.js:76-108 | Elements that differ in element or source id give rows with different keys, which is what stable numbering needs. |
| `BufferRuns.StableNumbering` | agent-tui/display-buffer-plugin.js:109-130 | If the new keys are unseen ones, a non-empty run of the previous rows, and unseen ones, the run keeps its numbers and all are consecutive: appending, prepending history, and showing evicted rows again. |
| `BufferRuns.NumberedRowsIff` | agent-tui/display-buffer-plugin.js:148-156 | One reflow gives consecutive numbers exactly when the layout changed or the kept rows are spaced as their numbers say. |
| `BufferRuns.ReachableNumbered` | agent-tui/display-buffer-plugin.js:131-194 | Over any run of operations that meet this condition the retained rows are numbered consecutively. |
| `TerminalOutput.FrameIsFull` | agent-tui/terminal-render-plugin.js:14-27 | A frame of a consecutively numbered reachable buffer holds exactly as many rows as the viewport is high, or all if there are fewer, consecutively from the top row. |
| `TerminalOutput.FrameOfSnapshot` | agent-tui/terminal-render-plugin.js:13-26 | A frame has the revision, layout, window and committed numbers of its snapshot, and its scrollback holds the committed rows, number and line, in order. |
| `TerminalOutput.FrameRowsIff` | agent-tui/terminal-render-plugin.js:14-18 | The rows of a frame are exactly the retained rows inside the window, each with its own number and line. |
| `TerminalOutput.FrameHoldsRows` | agent-tui/terminal-render-plugin.js:14-18 | In a consecutively numbered reachable buffer the i-th row of the frame is the retained row i places below the top row, with its line. |
| `TerminalOutput.ValidateFrame` | agent-tui/terminal-output-plugin.js:2-15 | Accepts exactly frames with fields in range and strictly increasing row numbers. |
| `TerminalOutput.TuiTerminalOutput.Reset` | agent-tui/terminal-output-plugin.js:24-32 | A new session key starts from the blank snapshot; the current key changes nothing; an empty one is refused. |
| `TerminalOutput.TuiTerminalOutput.Apply` | agent-tui/terminal-output-plugin.js:33-62 | Succeeds exactly on valid frames that are not older; then shows the frame, passes on the scrollback rows not known at this layout, and lists as dirty, in order, exactly the rows that changed. A refused frame changes nothing. |
| `TerminalOutput.DirtyRows` | agent-tui/terminal-output-plugin.js:47-57 | The two loops collect exactly the numbers that are on one screen only or differ in content, each once. |
| `TerminalOutput.ScreenShows` | agent-tui/terminal-output-plugin.js:45-46 | What stands on the screen at a number is the last row with that number. |
| `TerminalOutput.DirtyRowsSuffice` | agent-tui/terminal-output-plugin.js:45-58 | Repainting only the dirty rows shows the same as a full repaint, and every set of rows that does contains them all. |
| `TerminalOutput.FrameIsAccepted` | agent-tui/terminal-output-plugin.js:11-14 | A frame of a consecutively numbered buffer is never rejected for its row order. |
| `TerminalOutput.SteadyRunsRender` | agent-tui/terminal-render-plugin.js:9-29 | Over any steady run of the buffer every frame is full, holds the lines of the buffer at their places, and is accepted by the output. |
| `TerminalOutput.ScrollbackReceivesOnce` | agent-tui/terminal-output-plugin.js:40-43 | Frames rendered at any moments of a steady run at one layout, without eviction or return: the pending rows, one frame after another, are the committed rows of the buffer in order, each once, with their numbers and contents. |
| `TerminalOutput.CollidingRowsAreRejected` | agent-tui/terminal-output-plugin.js:11-14 | Two visible rows with one number, as an insertion between kept rows produces, make a frame that is rejected. |
| `Publication.PublishResumes` | deepseek-harness/scripts/publish-npm-baseline.ts:625-654 | A run started where another was stopped, after any number of its steps, takes exactly the steps that were left and ends with the same outcome. |
| `Publication.AnyInterruptions` | deepseek-harness/scripts/publish-npm-baseline.ts:625-654 | However often it was stopped before, a run to the end leaves the registry and the outcome of one uninterrupted run. |
| `Publication.PackageSteps` | deepseek-harness/scripts/publish-npm-baseline.ts:630-650 | A package needs at most one registry step and is then in place; if it fails, it has taken none. |
| `Publication.DoneNeedsNothing` | deepseek-harness/scripts/publish-npm-baseline.ts:639-649 | A package that is in place needs no step and passes verification. |
| `Publication.IntegrityNeverChanges` | deepseek-harness/scripts/publish-npm-baseline.ts:630-651 | After each step every version that existed has its integrity and every tag is still there; a version that is new is the release, and a tag that is new or has moved points to the release, in packages old and new. |
| `Publication.RunTouchesOnly` | deepseek-harness/scripts/publish-npm-baseline.ts:625-651 | No step of a run touches anything but the release version and the release tag of the bundle's own packages, and the latest tag of the entry package. |
| `Publication.PublishVerifies` | deepseek-harness/scripts/publish-npm-baseline.ts:625-698 | Told by the registry before the run: it succeeds exactly when the release version of each package is absent or has the recorded integrity, and the entry package is in the bundle, or is already published or tagged at the version. The verification that ends a run never objects. |
| `Publication.VerificationIff` | deepseek-harness/scripts/publish-npm-baseline.ts:656-698 | From any registry: the verification passes exactly when every package of the bundle is in place and the latest tag of the entry is at the release; otherwise it objects to the first package in bundle order that is not in place, or else to the entry. |
| `Publication.PackageVerifiedIff` | deepseek-harness/scripts/publish-npm-baseline.ts:662-681 | Which objection is made to a package: absent version, unusable integrity, other integrity and other tag are told apart by what the registry has recorded. |
| `Publication.PublishFailsWith` | deepseek-harness/scripts/publish-npm-baseline.ts:625-654 | A run that fails says why in terms of the registry before it: the first package whose recorded integrity is another or unusable, or the entry that is not there. The packages in front of it are in place, the others untouched. |
| `Publication.LatestMovesLastIff` | deepseek-harness/scripts/publish-npm-baseline.ts:630-651 | The latest tag of the entry package moves only once the whole bundle is in place, from every registry, exactly when the release tag is not latest or the entry package is published last. |
| `Publication.LatestMovesEarly` | deepseek-harness/scripts/publish-npm-baseline.ts:633-638 | Otherwise a first publication moves the tag before the packages after the entry exist. |
| `Publication.RegistryPublication.EnsureDistTag` | deepseek-harness/scripts/publish-npm-baseline.ts:755-764 | Moves a tag in one step if it is not at the release, none otherwise. |
| `Publication.RegistryPublication.PublishPackage` | deepseek-harness/scripts/publish-npm-baseline.ts:631-649 | One pass of the loop takes the steps of its trace, or is stopped in front of one of them. |
| `Publication.RegistryPublication.VerifyRemote` | deepseek-harness/scripts/publish-npm-baseline.ts:662-698 | The checks report the first missing package, wrong integrity or wrong tag, in bundle order, then the entry tag. |
| `Publication.RegistryPublication.Publish` | deepseek-harness/scripts/publish-npm-baseline.ts:625-654 | A run takes the steps of the trace in order until it ends or is stopped. |
| `ShellQuoting.CommandRoundTrip` | deepseek-harness/scripts/publish-npm-baseline.ts:994-1003 | Reading a printed command line with the quoting rules of the shell gives the command and its arguments, whatever characters they hold, empty ones included. |
| `ShellQuoting.CommandsPrintDifferently` | deepseek-harness/scripts/publish-npm-baseline.ts:994-1003 | Different command lines never print the same. |
| `ShellQuoting.PlainIff` | deepseek-harness/scripts/publish-npm-baseline.ts:998-1003 | An argument is printed without quotes exactly when it is not empty and consists of letters, digits and the eight listed characters. |
| `ShellQuoting.LexArgument` | deepseek-harness/scripts/publish-npm-baseline.ts:998-1003 | A printed argument in front of any text reads as exactly that argument, and the reading goes on right behind it. |
| `LintPool.Concurrency` | deepseek-harness/scripts/publint-all.ts:48-61 | With no targets the answer is zero; otherwise every returned number is at least one and at most the number of targets. |
| `LintPool.SettingAcceptedIff` | deepseek-harness/scripts/publint-all.ts:51-58 | A configured setting is accepted exactly when it is the plain decimal text of a positive safe integer, and is then capped at the number of targets. |
| `LintPool.UnsetConcurrency` | deepseek-harness/scripts/publint-all.ts:60 | Without a setting the number is the smaller of the number of targets and the parallelism of the machine. |
| `LintPool.StepKeepsInv` | deepseek-harness/scripts/publint-all.ts:127-138 | Every claim and every finished call keeps: targets are called in order, each called one is in flight at exactly one worker or has its own result, and the counter runs ahead by the returned workers only. |
| `LintPool.EveryMoment` | deepseek-harness/scripts/publint-all.ts:127-138 | At every moment of every interleaving each target so far was called once, at most `concurrency` calls are in flight, and no worker has returned while a target is uncalled. |
| `LintPool.RunsAreBounded` | deepseek-harness/scripts/publint-all.ts:127-138 | No interleaving takes more than two steps per target and one per worker. |
| `LintPool.NeverStuck` | deepseek-harness/scripts/publint-all.ts:127-138 | Some step is possible until every worker has returned, and none after. |
| `LintPool.CompleteRun` | deepseek-harness/scripts/publint-all.ts:127-144 | When all workers have returned, each target was called exactly once and its result stands at its own place, in exactly that many steps. |
| `LintPool.Collect` | deepseek-harness/scripts/publint-all.ts:140-144 | Reading the sparse list back gives the full list, or the target of the first hole. |
| `LintPool.RunAll` | deepseek-harness/scripts/publint-all.ts:127-145 | Under an arbitrary scheduler the pool ends with one result per target in order; the missing-result error is raised exactly when there are targets and no worker. |
| `PackageGraph.InOrderTransitive` | deepseek-harness/scripts/package-graph.ts:77-83 | The comparison inside a layer is transitive. |
| `PackageGraph.LayerOrderTotal` | deepseek-harness/scripts/package-graph.ts:77-83 | The comparison inside a layer is a total order. |
| `PackageGraph.InOrderIff` | deepseek-harness/scripts/package-graph.ts:77-83 | Inside a layer a package comes first by the place of its group in the given list, unlisted groups last, then by the collation of the group, then of the name. |
| `StableSort.SortIsStable` | deepseek-harness/scripts/package-graph.ts:66 | The sort of the language is stable: members that compare as equal keep the order they had. |
| `PackageGraph.TopoSort` | deepseek-harness/scripts/package-graph.ts:59-75 | Succeeds exactly when some order exists; then the output is every package once, in non-empty sorted layers, each package in the first layer that has all its dependencies above. Otherwise every reported name waits for an unknown or another reported one. |
| `PackageGraph.DependenciesFirst` | deepseek-harness/scripts/package-graph.ts:63-73 | In the output every dependency stands before its dependents. |
| `PackageGraph.LayerIsEarliest` | deepseek-harness/scripts/package-graph.ts:63-73 | No numbering that respects the dependencies puts a package lower than its layer. |
| `PackageGraph.LayersAreRanking` | deepseek-harness/scripts/package-graph.ts:59-75 | The layers themselves are such a numbering, so the error is never raised when an order exists. |
| `PackageGraph.StuckHasNoRanking` | deepseek-harness/scripts/package-graph.ts:64-67 | When nothing is ready no such numbering exists. |
| `PackageGraph.PlaceAll` | deepseek-harness/scripts/package-graph.ts:68-72 | The inner loop moves exactly the ready packages to the output and out of the remaining ones. |
| `PackageGraph.ByShortKeeps` | deepseek-harness/scripts/package-graph.ts:60 | Packages with different short names are all kept, in order. |
| `PackageGraph.ByShortIff` | deepseek-harness/scripts/package-graph.ts:60 | Of packages with one short name exactly the last is kept. |
| `ReferenceGraphs.ContainingIsOwner` | deepseek-harness/scripts/project-reference-faces.ts:116-121 | The first containing root of the list sorted by length is the innermost split project. |
| `ReferenceGraphs.OwnFaceIff` | deepseek-harness/scripts/project-reference-faces.ts:94-97 | A config has a face of its own exactly by one of the two leaf names, or as one of the two base configs of the root. |
| `ReferenceGraphs.IsSplitIff` | deepseek-harness/scripts/project-reference-faces.ts:65-71 | A directory is a split project exactly when it has the configs of both faces. |
| `ReferenceGraphs.BaseIff` | deepseek-harness/scripts/project-reference-faces.ts:105-109 | A config extends exactly the existing file to which its text leads, if the text begins with a dot. |
| `ReferenceGraphs.PathsOfConfigs` | deepseek-harness/scripts/project-reference-faces.ts:105-114 | A path that does not end in .json gets the config of that directory as a reference, and the ending as a base; any other is taken as it is. |
| `ReferenceGraphs.FaceIsFirst` | deepseek-harness/scripts/project-reference-faces.ts:88-103 | The visited set only cuts cycles of bases: following bases without any memory settles on the same face. |
| `ReferenceGraphs.Inspect` | deepseek-harness/scripts/project-reference-faces.ts:38-58 | The inner loop splits the references of a config into violations and targets to follow, each in order. |
| `ReferenceGraphs.CollectViolations` | deepseek-harness/scripts/project-reference-faces.ts:30-63 | The worklist ends and inspects every config that followed references reach from the two aggregates, each exactly once and no other; the violations are theirs, reference by reference. |
| `ReferenceGraphs.ViolationsExact` | deepseek-harness/scripts/project-reference-faces.ts:38-58 | A violation is reported exactly when a reached config has a reference that enters a split project without naming the leaf of its own face. |
| `ReferenceGraphs.ViolationSays` | deepseek-harness/scripts/project-reference-faces.ts:40-55 | A violation names the config, its reference and the split project entered, and the leaf expected there, or that the config has no face. |
| `ReferenceGraphs.NoViolationsIff` | deepseek-harness/scripts/project-reference-faces.ts:30-63 | Nothing is reported exactly when every reference that the aggregates reach, through any references, and that enters a split project names the leaf of its own config's face. |
| `ReferenceGraphs.AggregateFaceIsNotChecked` | deepseek-harness/scripts/project-reference-faces.ts:37-57 | Whenever the Host aggregate refers to a config on the Client base and that config to a Client leaf, the reference is accepted and the documented rule does not hold. |
| `ReferenceGraphs.HostReachesClientLeaf` | deepseek-harness/scripts/project-reference-faces.ts:37-58 | A concrete small repository, its paths resolved segment by segment, where that happens and nothing is reported. |
| `ReferenceGraphs.AboveIt` | deepseek-harness/scripts/project-reference-faces.ts:112-113 | The path resolution of that repository also goes up a directory and begins again at the root, as the resolution of the platform does. |
| `ReferenceGraphs.AggregateRuleIff` | deepseek-harness/scripts/project-reference-faces.ts:20-63 | If nothing is reported, every reference reached from an aggregate and entering a split project names the leaf of that aggregate exactly when every reached config with such a reference has the face of that aggregate; and where they have, that rule holds exactly when nothing is reported. |
| `ReferenceGraphs.ExploredIsReachable` | deepseek-harness/scripts/package-invariants.ts:143-160 | A worklist that keeps nothing pending has visited exactly the reachable configs. |
| `ReferenceGraphs.ReferencesTarget` | deepseek-harness/scripts/package-invariants.ts:138-161 | True exactly when some config, reached from the entry through configs inside the same owner, references the target; a missing entry is an error. |
| `ReferenceGraphs.OwnerEdgesIff` | deepseek-harness/scripts/package-invariants.ts:153-157 | The search goes on to exactly the existing configs of those references that stay strictly inside the directory of the owner. |
| `ReferenceGraphs.Scan` | deepseek-harness/scripts/package-invariants.ts:151-158 | The loop over one config stops exactly at a reference to the target, and otherwise collects the existing configs inside the owner. |
| `TextLines.JoinLines` | agent-tui/tool-card-plugin.js:276-277 | Splitting a text at newlines and joining the lines gives the text. |
| `TextLines.LinesHoldNoNewline` | agent-tui/tool-card-plugin.js:276-277 | No line holds a newline, so the text is split at every one. |
| `StructuredDiff.CardOf` | agent-tui/tool-card-plugin.js:278-296 | The loops produce the specified segments for one edit. |
| `StructuredDiff.StructuredDiffSegments` | agent-tui/tool-card-plugin.js:272-299 | The cards of all edits follow one another in order; a text that is absent counts as empty. |
| `StructuredDiff.Middles` | agent-tui/tool-card-plugin.js:278-284 | Old and new text are the same head, a middle of their own, and the same tail, without overlap; middles that are both non-empty share neither their first nor their last line. |
| `StructuredDiff.CardTurnsOldIntoNew` | agent-tui/tool-card-plugin.js:272-299 | The card can be followed by its numbers alone: taking out the removed lines and putting in the added ones turns the old text into the new one, and the reverse turns it back. |
| `StructuredDiff.CardsEditItems` | agent-tui/tool-card-plugin.js:272-299 | The whole card is made of one part for each item, in the order of the items, and each part, followed by its numbers, turns the old text of its own item into the new one and back; an absent text is an empty one. |
| `StructuredDiff.CardShows` | agent-tui/tool-card-plugin.js:285-296 | A card is a line above, removed lines, added lines and a line below: removed lines stand in the old text at their numbers, the others in the new text, all numbered on from the line above, and a line is missing above or below only at the end of the text. |
| `StructuredDiff.NoSmallerReplacement` | agent-tui/tool-card-plugin.js:278-284 | Every other way to turn the old lines into the new ones by replacing one block removes and adds at least as many lines. |
| `StructuredDiff.ChangesAreTight` | agent-tui/tool-card-plugin.js:287-292 | Removed and added lines differ at both ends, and there are neither exactly when nothing changed. |
| `StructuredDiff.ContextIsCommon` | agent-tui/tool-card-plugin.js:285-296 | The context lines are exactly the last line of the head and the first of the tail, numbered as in the new text. |
| `Channels.StepIsAlone` | Teams/network/session-channel-registry.ts:36-106 | One registry operation does to its channel what the channel alone would do, accepted or refused, with the same error. |
| `Channels.RegistryIsProduct` | Teams/network/session-channel-registry.ts:22-106 | After any operations on any channels each channel is in the state that its own accepted operations determine. |
| `Channels.TransitionIff` | Teams/control-protocol/channel-state.ts:30-99 | One transition from any state and with any context: each refusal is made on exactly one kind of defect, phase before generation before identity, and without a defect the state changes in the named fields only. |
| `Channels.ContextForIff` | Teams/network/session-channel-registry.ts:22-27 | The checks of the registry from any state of a channel, in their order. |
| `Channels.OthersDoNotMatter` | Teams/network/session-channel-registry.ts:22-106 | Running only the operations of one channel gives that channel the same state. |
| `Channels.MineIff` | Teams/network/session-channel-registry.ts:22-106 | The own operations of a channel, which that run consists of, are all of its operations, in order, and no others. |
| `Channels.InnerErrorsUnreachable` | Teams/network/session-channel-registry.ts:22-27 | The checks for a foreign channel or a missing session never fire, and an invalid generation is only reported by opening. |
| `Channels.HistoryFollowsProtocol` | Teams/control-protocol/channel-state.ts:51-99 | The accepted operations of a channel are an opening, then in order an acknowledgement, messages, a close and its acknowledgement, cut short anywhere, possibly by a failure; all of one generation. |
| `Channels.FinishedIsFinal` | Teams/control-protocol/channel-state.ts:57-99 | A closed or failed channel stays exactly as it is, whatever is tried on it afterwards. |
| `Channels.IdentityIsFixed` | Teams/network/session-channel-registry.ts:36-106 | Key, channel id, generation and session of a channel agree and never change after its opening; the opening moment never changes once set. |
| `Channels.RecordsMatchPhase` | Teams/control-protocol/channel-state.ts:15-99 | A closing moment is recorded exactly in closed channels, a problem exactly in failed ones, an opening moment in all that were acknowledged. |
| `CommentRanges.ScanComments` | deepseek-harness/scripts/markdown.ts:112-120 | The index searches produce the comments of one node in order. |
| `CommentRanges.ScanFindsComments` | deepseek-harness/scripts/markdown.ts:112-120 | They cover exactly the positions that a character-by-character reader finds inside comments, unclosed ones included. |
| `CommentRanges.AllCommentsExact` | deepseek-harness/scripts/markdown.ts:109-121 | The collected ranges cover exactly the source offsets that lie in a comment of some node. |
| `CommentRanges.ColumnRanges` | deepseek-harness/scripts/markdown.ts:123-139 | Each line that a comment touches is keyed by its number and gets exactly its own parts of the comments, in order. |
| `CommentRanges.ColumnsExact` | deepseek-harness/scripts/markdown.ts:127-135 | A column is in a range of its line exactly when its offset is in a comment. |
| `CommentRanges.LineRangesAppend` | deepseek-harness/scripts/markdown.ts:127-135 | The parts on a line keep the order of the comments. |
| `CommentRanges.TouchedIff` | deepseek-harness/scripts/markdown.ts:130-134 | A line has ranges exactly when a comment covers one of its columns, or the place of an empty line; the ranges lie in the line. |
| `CommentRanges.HasRenderedText` | deepseek-harness/scripts/markdown.ts:143-153 | With ranges in any order and however they overlap, the sweep answers whether some character outside all of them is not white space; without ranges it answers yes. |
| `CommentRanges.SweepRange` | deepseek-harness/scripts/markdown.ts:147-150 | One range of the sweep keeps the uncovered text before it and nothing it covers. |
| `CommentRanges.LineHasText` | deepseek-harness/scripts/markdown.ts:108-153 | From the nodes to the line: a line counts as text unless a comment touches it and every character of it outside all comments is white space. |
| `TextLines.LineAtOffset` | deepseek-harness/scripts/markdown.ts:124-137 | The running offset of the loop is where each line stands in the source. |
| `TextLines.SpaceIff` | deepseek-harness/scripts/project-doc-site.ts:67 | White space by code points, as the pattern of the language has it. |
| `LinkDestinations.LabelEnd` | deepseek-harness/scripts/project-doc-site.ts:71-87 | The loop with its depth and skipped escapes computes the specified position. |
| `LinkDestinations.ScanIff` | deepseek-harness/scripts/project-doc-site.ts:75-85 | A scan ends at a position exactly when everything before it is plain characters, escapes and brackets that match, and the character there ends it; so it is right however the brackets nest. |
| `LinkDestinations.EndOfLabelIff` | deepseek-harness/scripts/project-doc-site.ts:71-87 | A position is found exactly when the first bracket opens a label with matching brackets, and then it is the bracket that closes it. |
| `LinkDestinations.DestinationRange` | deepseek-harness/scripts/project-doc-site.ts:89-132 | The three forms of a destination give the specified range, or the error of the first part that is missing. |
| `LinkDestinations.DestinationFailsIff` | deepseek-harness/scripts/project-doc-site.ts:89-132 | Each error is reported exactly when the part it names is the first that is missing: the label, the separator of a definition, the opening of an inline destination, or the closing angle bracket. |
| `LinkDestinations.AngleEndIff` | deepseek-harness/scripts/project-doc-site.ts:109-113 | In angle brackets the range ends exactly at the first closing one that is not escaped. |
| `LinkDestinations.DestinationIsBehind` | deepseek-harness/scripts/project-doc-site.ts:89-132 | A range lies in the node and strictly behind its label, so nothing inside the label is touched. |
| `LinkDestinations.WrittenDestination` | deepseek-harness/scripts/project-doc-site.ts:89-132 | For every link or definition written out of a label, a connector, blanks, a destination, bare with matching parentheses or in angle brackets with any escapes, and a rest, the range is exactly that destination. |
| `LinkRewrite.Splice` | deepseek-harness/scripts/project-doc-site.ts:272-276 | Replacing from the last to the first in place weaves all values into the untouched source. |
| `LinkRewrite.SpliceIsSimultaneous` | deepseek-harness/scripts/project-doc-site.ts:272-276 | For replacements that are apart, found in any order: every character outside them is kept and moved by the growth before it, every value stands where its range began, and the length accounts for everything. |
| `LinkRewrite.DestinationsAreApart` | deepseek-harness/scripts/project-doc-site.ts:250-261 | The destinations of two nodes never touch, whether the nodes follow one another or one stands in the label of the other. |
| `LinkRewrite.RewriteMarkdown` | deepseek-harness/scripts/project-doc-site.ts:225-277 | An error exactly when some node has no destination to be found, and then that of the first such node; otherwise every destination is replaced by its target and every other character is kept. |

## Left out

- GateLoop.RunGates: the executor is a total function from gates to outcomes; one that rejects, and the observer and console output, are not modelled.
- GateLoop.ExitCode: the mode, worker and environment parsing around the exit rule, and the durations and output chunks in results, are not modelled.
- TypePaths.LookupReturns: gives a sufficient condition only, that no declaration reachable from the one that is looked up uses indexed access with a literal key; with such types some lookups return and some never do, and which is not decided by a check on the declarations that a caller could make.
- TypeAnswers.GuardCostsNothing: gives a sufficient condition only; that a declaration is entered twice does not settle whether the answer becomes unknown, since the first answer of an intersection, or a branch already unknown, may decide alone (`RepeatedPartIsStillFound`). For unions that name a declaration twice the answer is settled (`UnionNamingTwiceIsUnknown`).
- TypeAnswers.NamedOnceIsDefinite: is about declarations without literal-key indexed access along the path; with it, `GuardCostsNothing` still applies to every lookup whose guardless walk returns.
- TypePaths.LookupSound: name resolution across files and packages is a given map, with everything unresolved answered unknown; the TypeScript syntax tree is a datatype of the node kinds that the walk distinguishes.
- LineWrap.SplitLine: characters are Unicode scalar values; lone surrogates are not modelled, nor span texts that are not strings.
- DisplayBuffer.TuiDisplayBuffer.Reflow: arguments of the wrong JavaScript type, which are refused by type errors, are not modelled; the revision counter is unbounded.
- BufferRuns.ReachableNumbered: needs each reflow to keep the spacing of kept rows, which is exactly what `NumberedRowsIff` shows to be necessary for that reflow.
- BufferRuns.CommittedForGood: needs elements whose rows have different keys, which the buffer does not check; a row that has been evicted is no longer compared with what it was.
- TerminalOutput.DirtyRowsSuffice: contents are compared as sequences of style, background and text, where the source compares joined strings.
- Publication.RegistryPublication.Publish: `npm publish` is one step that adds the version and sets the tag; network errors, sign-in, confirmation, malformed registry answers and other writers are not modelled.
- ShellQuoting.CommandRoundTrip: is about quoting (section 2.2 of the POSIX.1-2017 Shell Command Language); a first word that the grammar would read as a reserved word or an assignment is not told apart.
- LintPool.RunAll: the linter is a total function from targets to results, since the source turns every exception into a failed result; file collection and printing are not modelled.
- LintPool.SettingAcceptedIff: numbers beyond the safe range are exact here, where the source rounds them; both refuse them.
- PackageGraph.TopoSort: locale collation is given by a sort key for every string; reading manifests and the Mermaid labels are not modelled.
- ReferenceGraphs.CollectViolations: the final alphabetic sort of the messages and their wording, unreadable configs, and Windows paths are not modelled; path resolution is a given function.
- ReferenceGraphs.ReferencesTarget: files that are not valid JSON are not modelled.
- StructuredDiff.StructuredDiffSegments: the padding of line numbers and the colour names are not modelled; the unified-diff branch of the same card is left out, as it only copies the hunk headers' numbers.
- Channels.RegistryIsProduct: messages carry no payload in the source's registry and none here.
- CommentRanges.LineHasText: Markdown parsing yields the HTML nodes and their offsets; fences and code blocks, which the caller removes first, are not modelled.
- LinkDestinations.WrittenDestination: a label that shows an unmatched bracket in a code span is not covered, since the scan does not know code spans.
- LinkRewrite.RewriteMarkdown: the nodes, their places and their new targets are given; resolving paths, routes and repository links (deepseek-harness/scripts/project-doc-site.ts:140-248) is not modelled.
- Gate lists, catalog rendering, packing and installing of releases, the tool titles and argument guesses of the terminal, and the small records of the Teams packages are left out: data and one-branch checks.
