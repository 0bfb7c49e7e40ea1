# Verified core of the issue tracker

A Dafny model of the algorithms and state machines at the heart of the issue tracker, with proofs.
The database is plain state (maps, sequences, objects whose fields the methods reassign); a transaction is
one step that applies as a whole or not at all, and claims about runs are about interleavings of whole
operations. `dafny verify dfyconfig.toml` checks everything.

| files | subject |
|---|---|
| `Graph`, `DependencyAnalysis`, `IssueLinks` | dependency analysis against walks in a graph; the guard on "blocks" links |
| `QueryTokens`, `QueryParser`, `QueryLanguage`, `QueryRoundTrip`, `QueryLimits` | the advanced query language |
| `QueryText`, `QueryGrammar`, `QueryErrors` | its tokens in terms of characters, its trees in terms of a concrete syntax, its rejections |
| `AuditChain`, `Retention` | the hash chain of audit events; governed deletion |
| `Issues`, `Workflow`, `Board`, `IssueEdit`, `Writers`, `Scenarios`, `Publications`, `ServiceQueues` | everything that writes issues, one writer at a time |
| `EditLaws`, `QueueLaws`, `WriterLaws`, `LinkLaws` | what each writer does to which column, and exactly when it does |
| `IssueRuns`, `StatusRuns`, `ParentRuns`, `LinkRuns` | runs that interleave all of those writers: versions, statuses, parents, links |
| `Forest`, `Hierarchy`, `Goals` | parent hierarchies |
| `Csv`, `CsvText` | the CSV codec, and the texts its reader reads |
| `DeliveryReports`, `DeliveryLaws`, `CapacityPlanning`, `CapacityLaws` | reports, and what their figures mean |
| `RateLimit` | the rate limiter |
| `Wrappers`, `Basics` | optional values, results, small shared facts |

Code that changes things step by step is a method or a class here; beside each stands a function of its
inputs or old state, and the theorems are about that function, over all inputs or all runs. So that such a
function cannot be wrong together with its method, the modules named after laws, texts and grammars say what
comes out in other words: about characters, columns, rows and events, without the functions that compute it.

## What came out differently than one might expect

Each of these comes with the exact condition under which the expected property holds, or with the exact bound.

- "Same version, same content" has four exceptions, none of which raises the version: deleting a status
  rewrites `statusId` (src/app/api/projects/[key]/workflow/route.ts:54), merging portal customers rewrites
  `reporterId` (src/app/api/projects/[key]/portal/customers/[id]/merge/route.ts:19), a label rule adds a label
  (ops/automation-worker.mjs:4), and purging an archived issue takes its id out of its children
  (prisma/migrations/20260818101637_init/migration.sql:387).
  - So the snapshot a publication records restores an issue if and only if the parent in it is none or still
    stored (`IssueRuns.AnyPublicationCanBeUndoneIff`); the parent can be purged while the change stays
    publishable (`IssueRuns.PurgeLeavesPublishable`).
  - And a row of a served queue snapshot shows the live status if and only if the status it shows still
    exists (`IssueRuns.AnyServedSnapshotAgrees`, `IssueRuns.DeletionOutdatesIff`).
- A link PATCH may turn a link of another kind into a blocking one without any cycle check
  (`IssueLinks.PatchCanCloseCycle`), and no check for link cycles stands between proposing a dependency in a
  scenario and publishing it (`LinkRuns.PublicationCanCloseCycle`). Over any run of everything that writes links
  the graph of blocks stays acyclic if and only if no accepted PATCH makes a blocking link that the guard of POST
  would have refused and no publication closes a cycle (`LinkRuns.RunKeepsSoundIff`).
- Publishing a scenario does not check parents again (`Publications.PublicationForestIff`), and an imported file
  may hold two rows that name each other as parent (`ParentRuns.ImportCanCloseCycle`). The hierarchy stays a
  forest if and only if no publication and no import breaks it by itself (`ParentRuns.RunKeepsForestIff`).
- Executing a deletion job for issues also deletes their comments, attachments and notifications
  (prisma/migrations/20260818101637_init/migration.sql:399 and :405,
  prisma/migrations/20260822100000_add_issue_notifications/migration.sql:8), which no preview listed and whose
  holds nobody asks about, against docs/retention-governance.md:5 (`Retention.HeldCommentIsDestroyed`). A step
  deletes only what previews and holds allow if and only if nothing hangs on the issues it deletes
  (`Retention.OnlyCoveredIff`), and over any run nothing is deleted under an active hold if and only if no
  execution deletes an issue with a comment or notification whose user is under one
  (`Retention.HoldsRespectedIff`).
- The public API asks for a version but for no transition, so it takes any issue to any status of its project
  (`StatusRuns.ApiMovesAnywhere`), and deleting a status moves its issues. What an issue's status goes through is
  a path along enabled transitions if and only if each accepted API move, and each replacement of its status,
  happens to go along one (`StatusRuns.StatusesFollowTransitionsIff`).
- Work-in-progress limits are not asked about by creation, import, restoring, the public API and the deletion of
  statuses, so a full column takes more (`StatusRuns.CreationPassesLimit`, `StatusRuns.ApiPassesLimit`). A count
  stays within a cap on the limits in force if and only if all that comes in without asking finds room
  (`StatusRuns.LimitsHoldIff`), and passes it by no more than what came in so (`StatusRuns.LimitsHold`).
- `completedAt` is set exactly while the status is done, if and only if no status the issue is in is deleted in
  favour of one, or turned into one, that differs in being done (`StatusRuns.CompletedWhileDoneIff`); an issue
  created in a done status starts without it (`StatusRuns.CreatedCompletionIff`).
- `requestType` is listed as a query field and documented in docs/advanced-query-language.md:5, but the parser
  compares a lower-cased token with the mixed-case list. Of all strings, exactly the other listed fields can be
  queried (`QueryLimits.QueryableIff`).
- The query limit of 100 bounds what is checked when a term is read, not what is reported: accepted queries
  cost up to 397, and that is reached (`QueryLimits.MostExpensiveQuery`).
- The audit digest is taken over columns joined by bars (src/lib/audit.ts:12). Two or more columns are determined
  by the joined text if and only if none of them holds a bar (`AuditChain.JoinedDeterminesIff`); the columns before
  the payload hold none and are determined together with the joined payload (`AuditChain.JoinedDetermines`).
- The cumulative flow of a day depends on the input order exactly when an issue's latest events by that day
  are simultaneous and disagree (`DeliveryReports.IgnoresOrderIffSettled`).
- The rate limiter lets through up to twice the limit less one within one window length, and that bound is
  met (`RateLimit.IntervalBoundIsMet`).

## Model

| member | source | states |
|---|---|---|
| DependencyAnalysis.AnalyzeDependencies | src/lib/dependency-graph.ts:8-28 | CYCLE is reported iff the visible "blocks" edges have a cycle and names only ids on cycles; each node is ordered once; without a cycle the order is topological, every distance is the greatest weight over all walks that end there (lags of any sign), the critical path is a real walk of that weight, the path starts at the greatest distance, ties by collation, and no walk outweighs the duration; MISSING_DATE, IMPOSSIBLE_ORDER, CROSS_PROJECT_CONFLICT and BLOCKED_MILESTONE are each reported for a pair of ids iff an edge between them meets that warning's own condition on dates, lag, projects and progress |
| DependencyAnalysis.DepthFirst | src/lib/dependency-graph.ts:13-15 | the search visits every id once, finds a nonempty set of ids on cycles iff the graph is cyclic, and otherwise leaves a post-order |
| DependencyAnalysis.Search.Visit | src/lib/dependency-graph.ts:14 | one call of the recursive visit on the shared sets: it terminates, finishes its id unless that id is on the current trail, and keeps the invariant that finished ids form a post-order |
| DependencyAnalysis.Search.ReportCycle | src/lib/dependency-graph.ts:14 | what a back edge adds to the cyclic ids is the closed part of the trail, all of it on a cycle |
| DependencyAnalysis.PostOrderIsAcyclic | src/lib/dependency-graph.ts:14-16 | a complete post-order exists only for a graph without cycles |
| DependencyAnalysis.BuildAdjacency | src/lib/dependency-graph.ts:11-12 | the two tables hold exactly the edges that leave, and those that enter, each id |
| DependencyAnalysis.LongestFromIncoming | src/lib/dependency-graph.ts:23 | the best candidate over incoming edges and the own duration is the greatest weight over all walks ending at the node |
| DependencyAnalysis.Distances | src/lib/dependency-graph.ts:22-23 | relaxing in topological order fills longest distances, each explained by its predecessor |
| DependencyAnalysis.CriticalPath | src/lib/dependency-graph.ts:24-25 | following predecessors terminates and traces a walk as heavy as the distance of its end |
| DependencyAnalysis.Furthest | src/lib/dependency-graph.ts:24 | the start of the path has the greatest distance, ties decided by collation |
| DependencyAnalysis.NoConflictIffPathsInOrder | src/lib/dependency-graph.ts:17-20 | no MISSING_DATE, IMPOSSIBLE_ORDER or CROSS_PROJECT_CONFLICT iff along every dependency path both ends are dated and the last due date is at least the sum of the lags after the first |
| DependencyAnalysis.WarningsMean | src/lib/dependency-graph.ts:17-20 | for all pairs of ids each of the four kinds is among the warnings of the edges iff an edge with its condition leads from the one to the other |
| DependencyAnalysis.Relax | src/lib/dependency-graph.ts:23 | the loop over incoming edges keeps the greatest of the own duration and all candidates, and remembers the first edge that gives it |
| IssueLinks.IntroducesCycle | src/lib/dependency-graph.ts:32 | the queue loop ends on every graph and answers true iff the ends are equal or the source is reachable from the target |
| IssueLinks.NewEdgeAcyclicIff | src/lib/dependency-graph.ts:32 | adding an edge to an acyclic graph keeps it acyclic iff that answer is false |
| IssueLinks.LocalGuardIsGlobal | src/app/api/issues/[id]/links/route.ts:11 | looking only at links of the own workspace decides the question for the whole table |
| IssueLinks.LinkTable.Post | src/app/api/issues/[id]/links/route.ts:11-12 | status of every case in the order of the checks, and the new table |
| IssueLinks.LinkTable.Patch | src/app/api/issues/[id]/links/[linkId]/route.ts:3 | status of every case; refused requests change nothing, an accepted one changes kind, lag and version of the addressed row only; a sound table stays sound iff the change makes no blocking link that POST would have refused |
| IssueLinks.LinkTable.Delete | src/app/api/issues/[id]/links/[linkId]/route.ts:4 | status of every case; an accepted request removes one row and keeps all rows with other ids, and a sound table stays sound |
| IssueLinks.PostKeepsSound | src/app/api/issues/[id]/links/route.ts:11-12 | any POST keeps links within workspaces and the blocks graph acyclic |
| IssueLinks.PatchKeepsSoundIff | src/app/api/issues/[id]/links/[linkId]/route.ts:3 | an accepted PATCH keeps that iff it does not turn a link into a blocking one or the POST guard would have let it through |
| IssueLinks.PatchCanCloseCycle | src/app/api/issues/[id]/links/[linkId]/route.ts:3 | an accepted PATCH that closes a cycle |
| IssueLinks.RunKeepsSoundIff | src/app/api/issues/[id]/links/route.ts:11-12 | over every run of link requests the graph of blocks stays acyclic all the way iff no accepted PATCH closes a cycle |
| LinkRuns.RunKeepsSoundIff | src/lib/planning-scenarios.ts:77 | over any run of link requests, publications, imports and deletions of issues, links stay within workspaces and the graph of blocks acyclic all the way, iff no accepted PATCH closes a cycle and every publication stays within workspaces and closes none |
| LinkRuns.PublicationCanCloseCycle | src/lib/planning-scenarios.ts:77 | a publication within one workspace that closes a cycle |
| IssueLinks.SoundLinksShowNoCycle | src/lib/dependency-graph.ts:13-16 | while it is acyclic, so are the visible blocks of any part of the links, which is when an analysis reports no CYCLE |
| LinkLaws.PostAnswers | src/app/api/issues/[id]/links/route.ts:11-12 | which POST is answered 404, 400, 409 or 201, with the refusal for a cycle in terms of chains of blocking rows |
| LinkLaws.PostMeans | src/app/api/issues/[id]/links/route.ts:11-12 | every column of the row an accepted POST adds |
| LinkLaws.PatchAnswers | src/app/api/issues/[id]/links/[linkId]/route.ts:3 | which PATCH is answered 404, 409, 400 or 200 |
| LinkLaws.PatchMeans | src/app/api/issues/[id]/links/[linkId]/route.ts:3 | an accepted PATCH writes kind and lag of the row it names, an absent lag as none, and no other row |
| LinkLaws.DeleteAnswers | src/app/api/issues/[id]/links/[linkId]/route.ts:4 | which DELETE is answered 404, 409 or 204 |
| IssueLinks.GrownAcyclicIff | src/lib/dependency-graph.ts:32 | adding any number of edges at once keeps an acyclic graph acyclic iff no newly linked pair is reachable backwards |
| QueryTokens.Tokenize | src/lib/advanced-query.ts:80-88 | the index loop computes the token stream defined on suffixes of the source, with offsets counted in UTF-16 code units |
| QueryTokens.LexRender | src/lib/advanced-query.ts:80-88 | tokenizing undoes rendering, for every list of bare and quoted lexemes, escapes included |
| QueryTokens.LexOffsets | src/lib/advanced-query.ts:80-88 | every token and every rejection stands at a character of the source |
| QueryTokens.BeforeWithin | src/lib/advanced-query.ts:80-88 | so its offset in code units is within the length of the source in code units |
| QueryText.LexMeans | src/lib/advanced-query.ts:80-88 | the tokens cut the source: between them stands white space alone, and each is the sign, the quotation or the longest word that stands there |
| QueryText.HeadMeans | src/lib/advanced-query.ts:82-86 | with the characters written out: a word holds no white space, parenthesis, comma, =, <, >, ! or ~ and ends before one or at the end; of two-character signs the longer is taken; a quotation ends at the first quote no backslash escapes |
| QueryText.UnquoteIff | src/lib/advanced-query.ts:85 | what a quotation says: each escaped character stands for itself, for every text |
| QueryText.KeywordMeans | src/lib/advanced-query.ts:23-33 | which texts are AND, OR, NOT, IN and NOT IN, letter by letter under upper-casing |
| QueryText.SignMeans | src/lib/advanced-query.ts:29-33 | which tokens are which comparison signs |
| QueryText.FieldMeans | src/lib/advanced-query.ts:27-28 | which texts name which field, letter by letter under lower-casing |
| QueryParser.Parser.Expression | src/lib/advanced-query.ts:23 | the OR loop on the shared cursor and cost agrees with the grammar function and terminates |
| QueryParser.Parser.Conjunction | src/lib/advanced-query.ts:24 | the same for AND |
| QueryParser.Parser.Unary | src/lib/advanced-query.ts:25 | the same for NOT and parentheses |
| QueryParser.Parser.TermNode | src/lib/advanced-query.ts:26-39 | the same for terms, with the cost check |
| QueryParser.ParseAdvancedQuery | src/lib/advanced-query.ts:17-44 | length check in UTF-16 code units, tokens, tree, trailing tokens, in that order |
| QueryGrammar.AcceptedIff | src/lib/advanced-query.ts:17-44 | a source is accepted with a tree iff it is short enough and its tokens are a concrete form of that tree: OR over AND over NOT, both to the left, parentheses anywhere, lists with commas between values, every term affordable when it is read |
| QueryErrors.RejectionMeans | src/lib/advanced-query.ts:17-44 | which of the rejections is given, and at which offset, for every source that is not accepted |
| QueryLanguage.AcceptedQueries | src/lib/advanced-query.ts:18-43 | an accepted tree is well formed, the reported cost is its structural cost, terms and NOTs cost at most 100 over at most 100 terms, the total is at most 397 |
| QueryLanguage.AffordableBounds | src/lib/advanced-query.ts:23-37 | passing the check at every term from the left bounds the cost of terms and NOTs by 100 and the total by 397 |
| QueryLanguage.WithinLimitIsAffordable | src/lib/advanced-query.ts:36-37 | a tree of structural cost within the limit passes every check on the way |
| QueryLanguage.RejectionsPointIntoSource | src/lib/advanced-query.ts:18-42 | every rejection carries an offset within the source or at its end |
| QueryRoundTrip.RoundTrip | src/lib/advanced-query.ts:17-44 | printing a tree with minimal parentheses and parsing gives back that tree at its structural cost iff it is well formed, affordable from the left and prints within 2000 UTF-16 code units |
| QueryRoundTrip.RoundTripWithinCost | src/lib/advanced-query.ts:17-44 | in particular for every well-formed tree of cost at most 100 that prints within 2000 code units |
| QueryRoundTrip.Reprint | src/lib/advanced-query.ts:17-44 | printing the tree of any accepted query and parsing again gives the same result |
| QueryRoundTrip.ParsesExpression | src/lib/advanced-query.ts:23-25 | a printed tree at any precedence level is read back with the cursor behind it and its cost added |
| QueryLimits.QueryableIff | src/lib/advanced-query.ts:27-28 | for every string: some accepted query uses it as a field iff it is one of the listed fields other than requestType |
| QueryLimits.MostExpensiveQuery | src/lib/advanced-query.ts:23-37 | one hundred terms nested to the right under OR are accepted at cost 397 |
| QueryLimits.CostMeans | src/lib/advanced-query.ts:23-36 | the cost is two per NOT, one per AND, three per OR, five per term that searches texts, one per other term and two per listed value |
| Csv.ParseCsv | src/lib/csv.ts:4-14 | the character loop with lookahead computes the scan of the text, then header, limit and width errors |
| Csv.ParseOfEncode | src/lib/csv.ts:4-17 | what parsing an export gives, for any rows over arbitrary strings |
| Csv.RoundTrip | src/lib/csv.ts:4-17 | an export parses without errors to its rows, formula-leading cells behind an apostrophe, iff it is within the row limit and every row has a nonempty cell |
| Csv.Reencode | src/lib/csv.ts:16-17 | exporting what was read back gives the same text |
| CsvText.ParseMeans | src/lib/csv.ts:4-14 | every text is lines of bare or quoted cells or breaks off inside a quotation; what is read is what the cells say, rows cut or filled to the columns, blank ones dropped, and each complaint is given iff its own condition holds |
| CsvText.HeaderPassesIff | src/lib/csv.ts:10 | a header passes iff its fields, taken apart at NULs, are the columns |
| CsvText.WidthComplaints | src/lib/csv.ts:12 | a kept row is complained about iff it has more fields than the header or at least two fewer, under its own number |
| CsvText.GuardMeans | src/lib/csv.ts:16 | no exported text begins like a formula, and only texts that did get an apostrophe |
| AuditChain.VerifyAuditChain | src/lib/audit.ts:12 | nothing is reported iff the chain is one that grew by continuing from its anchor; reported are exactly the rows that break it |
| AuditChain.IntactIffNothingBroken | src/lib/audit.ts:12 | the row-by-row test and the definition by growth agree |
| AuditChain.IntactMeans | src/lib/audit.ts:12 | in the columns: sequence numbers go up one by one from one or from the anchor, each row names the hash of the one before it, and each hash is the digest of its own row |
| AuditChain.AppendKeepsIntact | prisma/migrations/20260831151000_add_audit_chain_anchors/migration.sql:3-8 | an append continues from the last event or the anchor and keeps the chain intact |
| AuditChain.AppendMeans | prisma/migrations/20260831151000_add_audit_chain_anchors/migration.sql:3-8 | every column of the event an append adds behind the others |
| AuditChain.PruneKeepsIntact | src/lib/retention.ts:41 | a deletion removes exactly the longest eligible prefix, moves the anchor to its last event, and leaves an intact chain with the same tip |
| AuditChain.PruneSparesFrom | src/lib/retention.ts:41 | an ineligible event and everything behind it survive |
| AuditChain.AuditStore.DeleteEvents | src/lib/retention.ts:41 | the loops over workspaces and events, stopped after any workspace, prune exactly the workspaces reached |
| AuditChain.RunKeepsIntact | src/lib/retention.ts:41 | every run of appends and deletions, each stopped after any per-workspace transaction, leaves all chains verifying |
| AuditChain.SameTipSameChain | src/lib/audit.ts:12 | with a digest that does not collide, two verifying chains behind one anchor that end in the same hash are equal, up to where bars stand in the joined payload |
| AuditChain.JoinedDeterminesIff | src/lib/audit.ts:12 | no other columns of the same number are hashed as the same text, iff there is one column or none holds a bar |
| AuditChain.BarMovesUnnoticed | src/lib/audit.ts:12 | other columns are hashed as the same text when a bar moves from one column to the next |
| Retention.RetentionStore.PreviewDeletion | src/lib/retention.ts:31 | the new job freezes exactly the ids of the rows that are past the cutoff and under no active hold; earlier jobs, rows and holds stay, and so does the invariant of all runs |
| Retention.PreviewMeans | src/lib/retention.ts:16-31 | on the stored columns: a row is listed iff it is of the class, deleted or archived before the cutoff where the class asks that, and no active hold is on the organization or its workspace, project, issue or user |
| Retention.RetentionStore.PlaceHold | src/app/api/organization/legal-holds/route.ts:4 | an improper definition or one outside the organization is refused and changes nothing; otherwise a candidate is held at an instant iff it was before or the new hold matches it and is active then |
| Retention.RetentionStore.ReleaseHold | src/app/api/organization/legal-holds/[id]/route.ts:2 | the released hold is active at no instant, and every other hold is as before |
| Retention.RetentionStore.ApproveJob | src/app/api/organization/deletion-jobs/[id]/route.ts:2 | approves only a previewed job whose hash is presented |
| Retention.RetentionStore.ExecuteDeletion | src/lib/retention.ts:33-43 | batch by batch, ending completed, failed or dead after any batch; issues go in one statement together with what hangs on them, which the count leaves out |
| Retention.CompletionMeans | src/lib/retention.ts:33-43 | after a completed execution a row is gone iff it was due, or hangs on an issue that was; said on the stored columns |
| Retention.RemovedWasDue | src/lib/retention.ts:33-43 | however an execution ends, a row it removed was listed by an approved job and due under the holds active then, or hung on such an issue |
| Retention.ExecutionRecords | src/lib/retention.ts:33-43 | what an execution writes into its job: one attempt more, how it ended, and the counts of what was due and deleted |
| Retention.RunsIff | src/lib/retention.ts:33 | which jobs an execution takes up |
| Retention.GoneIsEligible | src/lib/retention.ts:33-42 | whatever the class and the ending, what is deleted by its own id are eligible candidates |
| Retention.PrefixIsPruned | src/lib/retention.ts:41 | the audit batch of a workspace is what pruning its chain takes away |
| Retention.RunKeepsSound | src/lib/retention.ts:15-43 | over every run of previews, approvals, holds, releases, executions, failures and retries each deletion was of an approved frozen candidate past the cutoff and under no hold active at that execution's discovery, or of a record that hangs on such an issue deleted with it; and deleted count <= eligible <= candidates |
| Retention.OnlyCoveredIff | src/lib/retention.ts:33-42 | a step deletes only approved frozen candidates past the cutoff and under no active hold, iff nothing hangs on the issues it deletes |
| Retention.HoldsRespectedIff | src/lib/retention.ts:33-42 | over any run no record is deleted while an active hold covers it, iff no execution deletes an issue with a comment or a notification whose user is under an active hold |
| Retention.HeldCommentIsDestroyed | src/lib/retention.ts:35 | a held comment that was never previewed is destroyed by an approved job for its issue |
| Retention.HangingHeldIff | src/lib/retention.ts:16-22 | on an issue no hold covers, a comment or notification is held iff its user is, and an attachment never |
| Retention.CompletedIsFinal | src/lib/retention.ts:33 | a completed job deletes nothing more and never changes |
| Workflow.EvaluateTransition | src/lib/workflow.ts:18-28 | free iff nothing is enabled in the project; otherwise the first transition that fits and holds its conditions decides: it is taken iff it violates no validator |
| EditLaws.VerdictMeans | src/lib/workflow.ts:18-28 | the same with every condition and validator said on roles, columns and proposed values |
| Board.BoardSettings.UpdateColumn | src/app/api/projects/[key]/workflow/route.ts:66-67 | sets or clears the limit of one column, leaves every other column alone, or changes nothing; no limit outside 1 to 999 is ever stored |
| Board.EditsStayStorable | src/app/api/projects/[key]/workflow/route.ts:66-67 | any request leaves a configuration with limits in 1 to 999 or none |
| IssueEdit.Fill | src/app/api/issues/[id]/route.ts:47-101 | the columns filled field by field are those the body asks for, description, level, labels and custom fields included, or a field is invalid |
| IssueEdit.RunEffects | src/app/api/issues/[id]/route.ts:123 | the loop over transition actions composes their effects on columns and custom fields in order and collects the comments |
| IssueEdit.Desk.Patch | src/app/api/issues/[id]/route.ts:43-135 | status in the order of the checks, the new table, custom field values included, and the comments added; a refused edit changes nothing, an accepted one raises the version of its row by one and touches no other, and a move goes where the limit was not reached |
| EditLaws.PatchAnswers | src/app/api/issues/[id]/route.ts:43-135 | which PATCH is answered 404, 409, 400 or 200, said on its keys and the row, with the transition and the limit |
| EditLaws.PatchMeans | src/app/api/issues/[id]/route.ts:47-133 | column by column: each key arrives, each absent one leaves its column alone, an empty resolution is stored as none, completion follows the status, the last transition action on priority, assignee or a custom field has the last word, and nothing else changes |
| EditLaws.RemarksMean | src/app/api/issues/[id]/route.ts:123-134 | the comments added are by the actor on the issue, one for each comment action of the transition taken |
| WriterLaws.ApiAnswers | src/app/api/v1/issues/[id]/route.ts:4 | which API request is answered 400, 404, 409 or 200 |
| WriterLaws.ApiMeans | src/app/api/v1/issues/[id]/route.ts:4 | column by column what an accepted API request writes |
| WriterLaws.BulkGoesIff | ops/bulk-worker.mjs:4 | when an item of a bulk operation goes through |
| WriterLaws.BulkMeans | ops/bulk-worker.mjs:4 | column by column what it writes |
| IssueEdit.MoveCounts | src/app/api/issues/[id]/route.ts:122 | moving one issue adds one to the count it enters and raises no other |
| Scenarios.ScenarioStore.SaveScenarioChange | src/lib/planning-scenarios.ts:55-62 | a save is accepted iff the issue is live and a proposal that is there has the version named; it never makes a second proposal for an issue, leaves every other proposal alone, keeps the base of the first save or records the live row, changes nothing when refused, and keeps every recorded base true or visibly outdated |
| Scenarios.ScenarioStore.PublishScenario | src/lib/planning-scenarios.ts:70-80 | issues, dependency links, allocations and record of a publication, or nothing at all |
| Scenarios.ScenarioStore.ApplyValid | src/lib/planning-scenarios.ts:78 | the guarded updates of issues, links and allocations in order, given up as a whole when one finds its row changed or refers to an issue that is gone |
| Scenarios.SplitOfFound | src/lib/planning-scenarios.ts:73-77 | applied and conflicting changes together are the found ones, with multiplicity |
| Scenarios.SidesAreDisjoint | src/lib/planning-scenarios.ts:73-77 | and no change is on both sides |
| Scenarios.AppliedOnce | src/lib/planning-scenarios.ts:78 | in a publication that goes through each issue is named once and gets its patch and one version more |
| Scenarios.SavedSlot | src/lib/planning-scenarios.ts:55-62 | after an accepted save the slot of the issue holds the patch, with the base it had, or the live row's version and four columns; other slots are as before |
| Publications.AppliedColumns | src/lib/planning-scenarios.ts:12 | column by column: an issue whose change is applied has the due date, assignee, parent and estimate the patch names, the others as they were, and one version more |
| Publications.UntouchedRows | src/lib/planning-scenarios.ts:78 | every other issue is as it was |
| Publications.RecordMeans | src/lib/planning-scenarios.ts:73-79 | which changes the record lists as applied, which as conflicts and why, what it keeps to take them back, and its status |
| Publications.PublishedIff | src/lib/planning-scenarios.ts:70-79 | when a publication goes through |
| Publications.RelinkKeeps | src/lib/planning-scenarios.ts:77 | which dependency links a publication keeps and which it replaces |
| Publications.RelinkOnce | src/lib/planning-scenarios.ts:77 | one row for each pair and kind stays one, and each row's version goes up once for each time the changes ask for it |
| Publications.ReallocatedSlots | src/lib/planning-scenarios.ts:77 | which allocations it writes |
| Publications.PublicationForestIff | src/lib/planning-scenarios.ts:70-79 | a publication keeps the parents a forest iff above every issue it gave a parent the chain still ends |
| Publications.PublicationAcyclicIff | src/lib/planning-scenarios.ts:70-79 | and the graph of blocks acyclic iff afterwards no issue reaches one that the publication made block it |
| ServiceQueues.QueueDesk.CreateQueueSnapshot | src/lib/service-queues.ts:66-81 | the rows found, one by one, iff both limits, on rows and on active snapshots, allow it |
| ServiceQueues.ReadSnapshot | src/lib/service-queues.ts:83-92 | serves a live snapshot of this queue and user only if the queue version is current and every row is visible at its version |
| QueueLaws.TakenMeans | src/lib/service-queues.ts:66-81 | every column of a new snapshot and of its rows, and its five minutes |
| QueueLaws.ServedIff | src/lib/service-queues.ts:83-92 | rows are served iff they are those of the reader's first live snapshot with the id, taken of the queue as it is now, and each is about a visible live issue of the project at the same version |
| ServiceQueues.QueueDesk.ApplyQueueAction | src/lib/service-queues.ts:100-165 | the action on a copy that replaces the table only if every selected request went through |
| ServiceQueues.TriageIsAllOrNothing | src/lib/service-queues.ts:126-144 | an action that goes through advances every selected request by one version from its snapshot row, touches no other issue, and a claim takes only unassigned ones |
| QueueLaws.TriageMeans | src/lib/service-queues.ts:126-144 | column by column what an action writes into every selected request, and that nothing else changes |
| QueueLaws.TriagedIff | src/lib/service-queues.ts:100-144 | an action goes through iff it makes sense, refers to what there is, every selected request lets it, and the column it moves requests to has room for all of them |
| ServiceQueues.ServedRowsAgree | src/lib/service-queues.ts:83-92 | served rows agree with the live issues on version, summary, priority and assignee, and on the status iff the status shown still exists |
| IssueRuns.RollbackRestoresIff | src/lib/planning-scenarios.ts:55-79 | writing back the rollback snapshot restores every column of a named issue, version aside, iff the recorded parent is none or still stored, and every other column in any case; unnamed issues were never touched |
| IssueRuns.PurgeLeavesPublishable | src/lib/retention.ts:35 | purging leaves the changes of other issues publishable, also where it removed the parent they recorded |
| IssueRuns.StepAdvances | src/app/api/issues/[id]/route.ts:131 | every writer of issues keeps references sound, gives no id out twice, and raises the version of each row whose content it changes, up to deleted statuses, reporters, labels and parents that are gone |
| IssueRuns.RunKeepsSound | src/lib/planning-scenarios.ts:55-79 | over any run of all writers at most one scenario change is applied per issue and version across all scenarios, and recorded bases and snapshots are true or visibly outdated |
| IssueRuns.AnyPublicationCanBeUndoneIff | src/lib/planning-scenarios.ts:70-79 | after any run of all writers from a start without proposals, what any publication records restores an issue iff the recorded parent is none or still stored |
| IssueRuns.AnyServedSnapshotAgrees | src/lib/service-queues.ts:71-92 | after any such run a row of any served snapshot agrees with the live issue, its status iff the status shown still exists |
| IssueRuns.ServedStatusesAgree | src/lib/service-queues.ts:71-92 | over runs in which no status is deleted the statuses agree too |
| IssueRuns.DeletionOutdatesIff | src/app/api/projects/[key]/workflow/route.ts:53-54 | deleting a status in favour of another leaves a snapshot served as it was, and its rows all show their live status iff none shows the deleted one |
| StatusRuns.StatusesFollowTransitionsIff | src/lib/workflow.ts:18-25 | over any run of all writers each change of an issue's status goes along a transition enabled in its project at the time, if any is, iff every accepted API move and every replacement of its status does |
| StatusRuns.ApiMovesAnywhere | src/app/api/v1/issues/[id]/route.ts:4 | the public API takes any live issue to any status of its project |
| StatusRuns.CompletedWhileDoneIff | src/app/api/issues/[id]/route.ts:51-58 | over any run completedAt is set exactly while the status is done, iff no status the issue is in is replaced by, or recategorised into, one that differs in being done |
| StatusRuns.StatusStepKeepsCompletionIff | src/app/api/projects/[key]/workflow/route.ts:49-54 | the same for one deletion or recategorisation |
| StatusRuns.CreatedCompletionIff | src/app/api/issues/route.ts:81 | a new issue starts out so marked iff its first status is not a done one |
| StatusRuns.LimitsHold | src/app/api/issues/[id]/route.ts:122 | for every configuration the editor can store, over any run of all writers: a count passes the limits in force, or where it started above them, by at most the number of issues brought in without asking for the limit |
| StatusRuns.LimitsHoldIff | src/app/api/issues/[id]/route.ts:122 | a count that starts within a cap on the limits in force stays within it all along a run iff whatever comes in without asking finds room for all of it |
| StatusRuns.CreationPassesLimit | src/app/api/issues/route.ts:81 | a new issue is accepted into a full column and leaves it over its limit |
| StatusRuns.ApiPassesLimit | src/app/api/v1/issues/[id]/route.ts:4 | so is an issue the public API moves there |
| StatusRuns.ClaimsAreExclusive | src/lib/service-queues.ts:126-144 | over any run, from any snapshots, a request is claimed at most once more than it is unassigned |
| Forest.WalkUp | src/lib/hierarchy.ts:28-29 | the walk with a seen set ends on any data and tells apart a clear chain, one that meets the child, and a loop |
| Forest.HangKeepsForest | src/lib/hierarchy.ts:24-32 | a node hung under a chain that avoids it leaves a forest |
| Forest.HangUnderDescendantLoops | src/lib/hierarchy.ts:29 | under a chain that meets it, it does not: the guard is exact |
| Forest.MovedForestIff | src/lib/hierarchy.ts:24-32 | moving any number of nodes at once leaves a forest iff the chains of the moved nodes still end |
| Hierarchy.IssueTree.ReparentIssue | src/lib/hierarchy.ts:16-38 | status in the order of the checks and the new table |
| Hierarchy.CycleRefusalIsExact | src/lib/hierarchy.ts:28-29 | in a forest a move is refused for a cycle iff it would make one |
| Hierarchy.MovesKeepForest | src/lib/hierarchy.ts:24-32 | any run of moves keeps the parent pointers a forest |
| WriterLaws.MoveAnswers | src/lib/hierarchy.ts:16-38 | which move is answered 400, 404 or 200: the new parent stands strictly higher, and the chain of its parents has a top and does not hold the issue |
| WriterLaws.MoveMeans | src/lib/hierarchy.ts:33-37 | an accepted move writes the parent and the version of one issue |
| ParentRuns.RunKeepsForestIff | src/lib/hierarchy.ts:24-32 | over any run of all writers of issues the parents stay a forest all the way iff no publication leaves a chain above an issue it moved that does not end, and no import brings a loop |
| ParentRuns.ImportForestIff | src/app/api/projects/[key]/issues/csv/route.ts:50-51 | importing a file keeps the parents a forest iff the parents within the file form one |
| ParentRuns.ImportCanCloseCycle | src/app/api/projects/[key]/issues/csv/route.ts:45-51 | an import in which two rows name each other as parent goes through and closes a cycle |
| Goals.ValidateGoalParent | src/lib/goals.ts:57-68 | accepts no parent, or iff the visible chain reaches a root within 100 goals and avoids the goal; what each refusal means; ends on any data |
| Goals.AcceptedIff | src/lib/goals.ts:57-68 | an update goes through iff there is no parent, or at most a hundred goals lead from it to one without a parent, all visible and none of them the goal |
| Goals.GoalStore.UpdateGoal | src/app/api/goals/[id]/route.ts:3 | an update goes through iff the check accepts |
| Goals.RunKeepsForest | src/lib/goals.ts:57-68 | any run of creations and checked updates by viewers who see different parts keeps a forest |
| DeliveryReports.UtcDays | src/lib/delivery-reports.ts:3 | the last millisecond of every day of the range, once each |
| DeliveryReports.CumulativeFlow | src/lib/delivery-reports.ts:5 | group, sort, filter and take the last refines: count each issue by its latest event at or before the end of the day |
| DeliveryLaws.FlowMeans | src/lib/delivery-reports.ts:5 | each count is the number of issues whose deciding event, the last in time and of simultaneous ones the last in the input, has that category |
| DeliveryReports.SortedLastIsLatest | src/lib/delivery-reports.ts:5 | the last event not later than an instant in the sorted group is the latest event in the input |
| DeliveryReports.SortIsStable | src/lib/delivery-reports.ts:5 | the modelled sort keeps simultaneous events in input order |
| DeliveryReports.TotalIsSeen | src/lib/delivery-reports.ts:5 | the total is the number of issues with any event by the day |
| DeliveryReports.TotalNeverDecreases | src/lib/delivery-reports.ts:5 | and never falls |
| DeliveryReports.IgnoresOrderIffSettled | src/lib/delivery-reports.ts:5 | a day's counts are the same for every order of the input iff no issue has disagreeing events at its latest time |
| DeliveryReports.DistinctTimesSettle | src/lib/delivery-reports.ts:5 | distinct event times per issue are enough |
| DeliveryReports.Burndown | src/lib/delivery-reports.ts:7 | one point a day up to the end or now; remaining and completed are the unfinished and finished work in scope and add up to it; with estimates that are not negative 0 <= remaining <= scope |
| DeliveryLaws.MemberMeans | src/lib/delivery-reports.ts:7 | when a member is in scope or finished and what its estimate is, by its newest event and its newest coming or going |
| DeliveryLaws.WorkOfOne | src/lib/delivery-reports.ts:7 | what one member adds to scope, remaining, completed and unestimated |
| DeliveryLaws.WorkPiecewise | src/lib/delivery-reports.ts:7 | and members add up |
| DeliveryReports.LoadedInOrder | src/lib/delivery-reports.ts:7 | on histories in order of time both reports look at the same latest event |
| CapacityPlanning.WeekKeyIsUnique | src/lib/capacity-planning.ts:2 | the week key is the one Monday midnight whose week holds the instant |
| CapacityPlanning.DefaultIsInForce | src/lib/capacity-planning.ts:3 | the default capacity is that of the latest change effective when the week begins, or zero |
| CapacityLaws.MondayIff | src/lib/capacity-planning.ts:2 | weeks begin a whole number of weeks from 5 January 1970 |
| CapacityLaws.DefaultMeans | src/lib/capacity-planning.ts:3 | of simultaneous changes the first is in force |
| CapacityLaws.MembersOfOne | src/lib/capacity-planning.ts:3 | what one member brings to a week: nothing if not on the team then, else the entry for the week, the own points or the team's |
| CapacityLaws.ReportMeans | src/lib/capacity-planning.ts:3 | each team's capacity, allocated points and remainder, when it is over-allocated, and totals that are the sums |
| CapacityPlanning.CalculateCapacity | src/lib/capacity-planning.ts:3 | one entry per week with every team's figures; the weekly totals together are the points of listed teams' allocations that start on one of the weeks, and unassigned points are counted once |
| CapacityPlanning.AllPointsReported | src/lib/capacity-planning.ts:3-4 | for allocations on Mondays of the range that is all points |
| CapacityPlanning.AllocationStore.Allocate | src/lib/capacity-planning.ts:5 | writes team and points of the slot of plan, issue and the week its date falls in, leaves every other slot alone, and keeps one row per slot on a Monday |
| CapacityPlanning.SaveWritesItsSlot | src/lib/capacity-planning.ts:5 | a save writes the slot of the week its date falls in, leaves every other slot alone, and keeps one row per slot |
| CapacityPlanning.SavedPointsAreReported | src/lib/capacity-planning.ts:3-5 | whatever was saved on whatever dates, a covering report accounts for every point |
| RateLimit.Limiter.ConsumeRateLimit | src/lib/security.ts:4-22 | decision, reply and new bucket; no other key is touched |
| RateLimit.WindowKeepsLimit | src/lib/security.ts:4-22 | no window lets through more than the limit, or one if the limit is not positive, on any clock |
| RateLimit.WindowsAreDisjoint | src/lib/security.ts:14-17 | a new window starts no earlier than the previous one ends |
| RateLimit.CountIsHonest | src/lib/security.ts:18-20 | the stored count is the number of requests the window has let through |
| RateLimit.AdmittedIff | src/lib/security.ts:4-22 | without buckets: a request is let through iff fewer than the limit came before it since the one that opened its window |
| RateLimit.IntervalKeepsTwice | src/lib/security.ts:4-22 | on a clock that does not go back, any interval of one window length lets through at most twice the limit less one |
| RateLimit.IntervalBoundIsMet | src/lib/security.ts:4-22 | and some trace lets through that many |
| RateLimit.KeysAreIndependent | src/lib/security.ts:5-10 | among requests of many keys each key is treated as if it were alone |

## Left out

- User interface, authentication, encryption, mail, file storage, DNS, and the term-level database predicates of the query language: library calls, foreign policy or database semantics.
- Permissions, notifications, webhooks, realtime messages and audit inserts inside the modelled steps: a `permitted` flag or a set of visible ids, or dropped.
- Interleavings inside one operation: several guards read outside the transaction that writes, and the model takes every operation as one step.
- Ids are integers, so an id is never the empty string; numbers are integers and instants are milliseconds.
- Strings are sequences of Unicode scalar values, so a lone surrogate is not represented; lengths and offsets are counted in UTF-16 code units as the program counts them.
- `localeCompare` is a real-valued rank per id, and the default sort of the ids in a CYCLE warning is dropped: the warning carries a set.
- Display fields of the report (keys, summaries, messages, `critical` and `atRisk` flags) and parse error messages are not modelled; codes and offsets are.
- Recursion depth: the visit and the parser are modelled without a stack limit.
- Case folding of query words is exact for comparison with the listed words only; `compile` and date parsing of query values are absent.
- The digest of the audit chain is an arbitrary function of workspace, sequence, previous hash, id and the joined remaining columns.
- One organization in retention; cascades of issue deletion onto tables that are no governed class (history, watchers, allocations and the like) and storage objects of attachments are not modelled; preview hashes are given values.
- The checks on saving a proposal (parent walk, members, visible targets) are the flag `permitted`: publication repeats none of them, so the theorems hold whatever was saved. Baselines of scenarios are not modelled.
- Links have runs of their own, in which a publication appears by its valid changes; allocations are part of no run. Teams of published allocations are taken to exist.
- Columns of issues that no claim is about (rank, number, sprint, security level) are not modelled; ordering the backlog writes ranks only.
- The workflow editor appears in the runs by the transitions it leaves; merging customers of the portal appears by its effect on reporters only.
- The issue editor looks a status up by name, here by id; the check of custom field values is a given function of project, type and values.
- Participants and request type rows of queue actions are reduced to booleans and the new issue type; the query that finds the rows of a snapshot is a given list.
- New rate-limit buckets start with the column's default count of one; the digest of the client identifier is the key itself.
- Calendar years before 100, for which Date.UTC shifts the century, and the report's cap of 5,000 allocations.
- Cells of a CSV export are strings or absent; other values would go through String() first.
- Goal archiving and version checks of goal updates do not affect parents and are left out.
