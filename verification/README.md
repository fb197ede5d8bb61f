# Derived engineering history: models and proofs

The service turns provider deliveries (issues, change requests, merges, usage events, agent
sessions) into derived records: closure episodes, correlations, links, rollups, pointers. This
project models the code that derives them and proves what the derivations promise, for all inputs.

- **Closure episodes** (`ClosureModel`, `LinkStates`, `Episodes`, `EpisodeLaws`, `Projector`,
  `ProjectorLaws`, `DuplicateFacts`, `HistoryLaws`, `AttributionLaws`). An unordered bag of facts becomes link
  states, one chain of episodes per issue, and unresolved records. `Project` says what is derived,
  as a closed form; the methods are the source's own passes over dictionaries and timestamp
  groups, proved to derive exactly that. The laws are about `Project`: any delivery order gives
  the same output, an incremental recompute equals the full one, late snapshots change nothing,
  every close has one verdict, and a repeated delivery is harmless if and only if it is not an
  `issue.closed` of a projected issue.
- **ULIDs** (`Ulid`). Text order equals numeric order, the stateful generator only moves forward
  under any clock, and its drift ahead of the clock is bounded.
- **Transcript retention** (`Retention`, `RetentionJob`). Bounded, guarded deletes over three
  tables whose foreign keys do not cascade. `LIMIT` picks any eligible rows. Whatever earlier runs
  did, a complete run ends in one closed-form set difference per table.
- **Correlation** (`Correlation`, `Confidences`, `ConfidenceLaws`, `EntityLinks`, `LinkPasses`, `LinkLaws`). First word wins over the
  stream of rule outputs; duplicate copies collapse; four link passes never collide.
- **Rollup backfill** (`Rollup`) and **aggregate verifier** (`Verifier`, `VerifierLaws`). Phased
  backfills converge exactly when their budgets cover the disagreements; the verifier raises no
  false alarm and misses nothing inside its window.
- **Session forest** (`Sessions`, `SessionWalk`, `SessionTree`). Nodes and child arrays are heap
  objects shared between the lookup table, parents and roots; the recursive rendering terminates
  and visits exactly the sessions whose parent chain meets no cycle, each once.

Beside each closed form stands a module that reads it back in plain fields (`LinkMeaning`,
`EpisodeMeaning`, `RetentionMeaning`, `CorrelationMeaning`, `EntityLinkMeaning`, `RollupMeaning`,
`VerifierMeaning`, `SessionMeaning`): which facts, rows, columns and comparisons each result rests on,
as an if-and-only-if wherever the result is a set of things.

`Sequences`, `Sorting`, `Text`, `Numbers` and `Options` hold the shared vocabulary.

Where comments in the repository and the code disagree, the model follows the code:

- "a dry run reports exactly what a write run would delete" (`scripts/retention_transcripts.py:125-129`)
  fails when an expiring parent still has a child. `RetentionJob.DryRunIsExactIff` gives the exact
  condition under any limit; `RetentionJob.DryRunCanUndercount` is an input on which a run without a
  limit deletes more than was reported, `RetentionJob.DryRunCanOvercountATable` one on which a
  limited run deletes less from a table.
- "historical attribution never changes" (`afk_outcomes/models.py:533-542`) fails when change-request
  facts arrive later, because the final declarations decide every close.
  `AttributionLaws.DeclarationsRewriteAttribution` gives the facts, `AttributionLaws.AttributionKeptIff`
  the exact condition, fact by fact and close by close, and `HistoryLaws.LaterIssueEventsKeepHistory`
  what does stay fixed.
- Repeated deliveries are not always harmless; `DuplicateFacts.RepeatIsHarmlessIff`.
- "rules in descending confidence order" (`afk_outcomes/correlation.py:3-5`, `:56`) is not quite so: the
  second rule also proposes mere mentions, at 0.1, which lock before the branch rule's 0.8.
  `ConfidenceLaws.MentionLocksBeforeBranch` is an input, `ConfidenceLaws.HighestConfidenceBoundIff` says
  for any rules when the most confident proposal wins, and `ConfidenceLaws.DefaultRulesBindHighestIff`
  that for the default rules mentions are the only leak.

`dafny verify dfyconfig.toml` checks everything.

## Model

| member | source | states |
|---|---|---|
| `ProjectorLaws.DeliveryOrderConverges` | afk_outcomes/closure_episodes.py:405-515 | any permutation of the facts gives the same links, episodes and records, element by element |
| `ProjectorLaws.SameHistorySameProjection` | afk_outcomes/closure_episodes.py:405-515 | more than permutations converge: the projection depends only on the set of facts and on how often each issue's events were delivered, so repeated snapshots and merges are harmless |
| `ProjectorLaws.IncrementalEqualsFull` | afk_outcomes/closure_episodes.py:419-489 | projecting, for `issues=S`, a part that holds every fact about S and about each change request that ever declared an issue of S gives exactly the full projection's episodes and records of S |
| `ProjectorLaws.RestrictionIsFilter` | afk_outcomes/closure_episodes.py:469-508 | `issues` restricts episodes and records to those issues, in the same order, and leaves all links |
| `ProjectorLaws.LateArrivalIsHarmless` | afk_outcomes/closure_episodes.py:165-199 | a snapshot older than another one of its change request, delivered at any point, changes no episode and no record, and adds or removes only revoked links |
| `ProjectorLaws.OutdatedChangesNothing` | afk_outcomes/closure_episodes.py:446-467 | such a snapshot changes no declaration of any issue, no merge time and no link that is not revoked |
| `ProjectorLaws.SeenInSnapshot` | afk_outcomes/closure_episodes.py:165-199 | a link is known only if some snapshot of the change request shows it |
| `Projector.ProjectClosureEpisodes` | afk_outcomes/closure_episodes.py:405-515 | the passes over the dictionaries derive exactly the closed form, for all facts and any restriction |
| `LinkMeaning.LinkListedIff` | afk_outcomes/closure_episodes.py:155-200 | exactly which links a projection lists and in what state: some opened or updated snapshot that decided at its time showed the target, and the deciding snapshots of the last time make it active, parked or revoked |
| `LinkMeaning.LatestSnapshotDecides` | afk_outcomes/closure_episodes.py:77-79 | after a change request's last snapshot, taken at opening or update, each of its targets is an active link of its kind and every other link of the change request is revoked |
| `LinkMeaning.DroppedLinkStaysRevoked` | afk_outcomes/closure_episodes.py:177-183 | a link once shown and absent from the last snapshot stays listed as revoked |
| `LinkMeaning.OtherFactsMoveNoLink` | afk_outcomes/closure_episodes.py:165-168 | a fact of any other event type, of another entity type, or without `issue_links`, delivered anywhere, changes no link |
| `LinkMeaning.LinksInOrder` | afk_outcomes/closure_episodes.py:491-508 | links come by provider, repository and identifier of the change request, then kind, then issue, none twice |
| `EpisodeMeaning.IssueMeans` | afk_outcomes/closure_episodes.py:324-489 | for every projected issue: one closed episode per close of its timeline, each starting at the last reopen since the previous close, else the first open; each attributed to the one change request that the same projection links as active and that merged strictly before, with no parked one; records list exactly the candidates in order; an open episode exactly when it should, with its status |
| `EpisodeMeaning.TimelineIs` | afk_outcomes/closure_episodes.py:345 | an issue's events are taken by time, at one time closes before opens before reopens, each as often as delivered |
| `EpisodeMeaning.CandidateIffEligible` | afk_outcomes/closure_episodes.py:226-235 | eligible for a close are exactly the change requests the projection itself links that merged strictly before it |
| `EpisodeMeaning.EpisodesInIssueOrder` | afk_outcomes/closure_episodes.py:476 | episodes come issue by issue, the issues by provider, repository and identifier |
| `Projector.ReadFacts` | afk_outcomes/closure_episodes.py:428-444 | one pass groups the change-request facts, keeps each earliest merge, and lists each issue's events in delivery order |
| `Projector.DeriveAllStates` | afk_outcomes/closure_episodes.py:446-450 | every change request present gets the link states of its own snapshots |
| `Projector.AddDeclarations` | afk_outcomes/closure_episodes.py:456-467 | one change request's active and parked declarations go into their buckets and revoked ones into neither |
| `Projector.FillBuckets` | afk_outcomes/closure_episodes.py:452-467 | the buckets list exactly the change requests with an active, or a parked, declaration of each issue |
| `Projector.EpisodesAndRecords` | afk_outcomes/closure_episodes.py:473-489 | the episodes and records of the selected issues, in order |
| `Projector.AllLinks` | afk_outcomes/closure_episodes.py:491-508 | every link of every change request, in order of both, with its final state |
| `LinkStates.DeriveLinkStates` | afk_outcomes/closure_episodes.py:155-200 | the fold over timestamp groups refines a closed form: a link is known if any group ever showed it, and the last group alone fixes its state |
| `LinkStates.AdvanceExtendsClosedForm` | afk_outcomes/closure_episodes.py:171-199 | applying one later group to the closed form gives the closed form with that group |
| `LinkStates.GroupByTime` | afk_outcomes/closure_episodes.py:165-168 | the groups hold exactly the opened/updated facts that carry a snapshot, by timestamp; a missing snapshot takes no part |
| `LinkStates.ApplyResolution` | afk_outcomes/closure_episodes.py:173-199 | both branches set states as the closed form of one group says, absent links revoked |
| `LinkStates.ResolveNeverGuesses` | afk_outcomes/closure_episodes.py:121-149 | a group resolves to a view exactly when all its snapshots show it, or it has webhook snapshots and all of those do |
| `LinkStates.StateMeans` | afk_outcomes/closure_episodes.py:173-199 | in a conflict a link is active when every snapshot shows it, parked when only some do, revoked when none does; a resolved group parks nothing |
| `Episodes.VerdictOfClose` | afk_outcomes/closure_episodes.py:206-289 | one close has exactly one verdict: an attribution to the only eligible active change request with no parked one eligible, or one record with the sorted eligible candidates; the status tells which |
| `Episodes.AttributedMeans` | afk_outcomes/closure_episodes.py:226-247 | attribution in terms of declarations and merge times alone; a merge at the instant of the close never counts |
| `Episodes.CloseEpisodes` | afk_outcomes/closure_episodes.py:343-364 | the state machine yields one episode per close, its start the last reopen since the previous close, else the first open |
| `Episodes.MarkSuperseded` | afk_outcomes/closure_episodes.py:397-398 | overwriting in place supersedes every episode but the last and changes nothing else |
| `Episodes.ProjectIssueEpisodes` | afk_outcomes/closure_episodes.py:324-399 | the chain of an issue: closed episodes, open tail, superseding |
| `EpisodeLaws.EpisodeChainShape` | afk_outcomes/closure_episodes.py:343-399 | closed episodes correspond to the closes in time order; an open episode comes last, exactly when the last event leaves the issue open and there is an active declaration or an earlier close, or there are no events and an active declaration; intervals follow each other; all but the last are superseded and the last one's status tells its verdict or whether a declaring request has merged |
| `EpisodeLaws.EveryCloseHasOneVerdict` | afk_outcomes/closure_episodes.py:206-399 | every closed episode, superseded or not, is attributed or has exactly one record, never both; open ones have neither |
| `EpisodeLaws.ClosedChainMatches` | afk_outcomes/closure_episodes.py:351-364 | the i-th closed episode belongs to the i-th close and carries its verdict |
| `EpisodeLaws.CloseTimesOfSorted` | afk_outcomes/closure_episodes.py:345 | the close times of the ordered events are the delivered close times in order |
| `EpisodeLaws.HistoryIsStable` | afk_outcomes/closure_episodes.py:343-399 | appending events later than all existing ones keeps each closed episode's interval, attribution and record in place; only its status may become superseded |
| `HistoryLaws.LaterIssueEventsKeepHistory` | afk_outcomes/closure_episodes.py:405-489 | over whole projections: later issue facts, delivered anywhere in the sequence, leave every closed episode of an issue and every record of it in place; only an episode's status may become superseded |
| `HistoryLaws.OneRecordPerUnattributedClose` | afk_outcomes/closure_episodes.py:479-489 | over a projection the unresolved records and the unattributed closes correspond one for one, in order |
| `AttributionLaws.DeclarationsRewriteAttribution` | afk_outcomes/closure_episodes.py:446-489 | an issue opened, a change request merged, the issue closed without attribution; one later snapshot that declares the issue, and the projection attributes the past close |
| `AttributionLaws.AttributionKeptIff` | afk_outcomes/closure_episodes.py:446-489 | for any one fact about a change request, delivered anywhere: every closed episode keeps its interval, and keeps its attribution if and only if another parked request is eligible, or two other active ones are, or, with exactly one other active one, this request is eligible after as before, or, with none, it is eligible as active after as before |
| `AttributionLaws.OnlyItsOwnRoleMoves` | afk_outcomes/closure_episodes.py:446-467 | a fact about one change request leaves the eligibility of every other one alone |
| `AttributionLaws.EligibleByOwnFacts` | afk_outcomes/closure_episodes.py:226-235 | whether a change request is eligible for a close depends on its own facts alone |
| `ProjectorLaws.IssueInProjection` | afk_outcomes/closure_episodes.py:469-489 | what a projection holds of an issue is exactly that issue's chain, and nothing of an issue it was not asked for |
| `DuplicateFacts.RepeatIsHarmlessIff` | afk_outcomes/closure_episodes.py:432-444 | delivering a fact again changes the projection if and only if it is an `issue.closed` of a projected issue |
| `DuplicateFacts.RepeatedOpenIsHarmless` | afk_outcomes/closure_episodes.py:345-350 | a repeated open or reopen changes nothing in the chain |
| `DuplicateFacts.RepeatedCloseAddsAnEpisode` | afk_outcomes/closure_episodes.py:351-364 | a repeated close makes the chain one episode longer |
| `Ulid.EncodeBits` | afk_outcomes/serialization.py:39-45 | taking five bits from the low end and reversing gives the base-32 digits, most significant first |
| `Ulid.EncodeOrder` | afk_outcomes/serialization.py:39-45 | at equal length the texts are ordered as the numbers, and different numbers have different texts |
| `Ulid.DecodeEncode` | afk_outcomes/serialization.py:39-45 | round trip: a text of enough digits decodes to the number it encodes |
| `Ulid.AlphabetIsCrockford` | afk_outcomes/serialization.py:32-33 | the alphabet is the digits and the capital letters without I, L, O and U |
| `Ulid.MakeUlid` | afk_outcomes/serialization.py:48-54 | a ULID is made exactly for 48-bit timestamps and 80 random bits, and has 26 characters |
| `Ulid.UlidReadsBack` | afk_outcomes/serialization.py:48-54 | the first ten characters give the timestamp back, the other sixteen the random bits; out of range is refused, the timestamp first |
| `Ulid.UlidOrder` | afk_outcomes/serialization.py:48-54 | text order is exactly the order of (timestamp, randomness), so no two pairs share a text |
| `Ulid.MonotonicULID.NextUlid` | afk_outcomes/serialization.py:82-93 | a later clock starts over from fresh random bits; otherwise the 80 bits count up, and their wrap moves the timestamp one millisecond on; the fields move even when the ULID cannot be made |
| `Ulid.StateMovesForward` | afk_outcomes/serialization.py:82-93 | along any run, every call moves (timestamp, randomness) strictly forward past each earlier state |
| `Ulid.EmittedStrictlyIncrease` | afk_outcomes/serialization.py:64-93 | for any clock readings and random bytes each emitted text is greater than all emitted before it |
| `Ulid.LeadGrowsSlowly` | afk_outcomes/serialization.py:82-93 | invariant: drift * 2^80 + random is at most 2^80 - 1 plus the calls after the first |
| `Ulid.DriftIsAtMostOne` | afk_outcomes/serialization.py:82-93 | within 2^80 calls the timestamp is at most 1 ms ahead of the greatest clock reading, and never behind it |
| `Ulid.NeverFails` | afk_outcomes/serialization.py:48-93 | with clocks one millisecond inside 48 bits no call of such a run fails |
| `Ulid.DriftHappens` | afk_outcomes/serialization.py:88-91 | the bound is met: on overflow the code advances the millisecond instead of failing |
| `Ulid.SequenceULID.NextUlid` | afk_outcomes/serialization.py:103-106 | the counter advances exactly when its value could be encoded |
| `Ulid.SequenceCounts` | afk_outcomes/serialization.py:96-106 | the k-th ULID is the one of `start + k` until the 80 bits are used up, and the counter then stays |
| `Ulid.SequenceStrictlyIncreases` | afk_outcomes/serialization.py:96-106 | each sequence ULID is greater than those before it |
| `Retention.BatchKeepsReferences` | scripts/retention_transcripts.py:101-122 | no surviving row references a row a batch deleted |
| `Retention.BatchesKeepReferences` | alembic/versions/0029_add_execution_transcript_tables.py:147-239 | the foreign keys hold after any number of batches over any tables |
| `Retention.BatchIsExpired` | scripts/retention_transcripts.py:143-167 | an earlier batch deletes only rows a later complete run deletes anyway |
| `Retention.EarlierWorkIsAbsorbed` | scripts/retention_transcripts.py:76-80 | whatever batches ran at earlier times, with any sizes and row choices, a complete run ends in the same tables, one closed-form set difference each |
| `Retention.PurgedIffNothingEligible` | scripts/retention_transcripts.py:143-167 | the tables are purged exactly when no delete statement finds a row |
| `Retention.PurgeIsIdempotent` | scripts/retention_transcripts.py:76-80 | a rerun at the same time deletes nothing |
| `RetentionMeaning.PurgedMeans` | scripts/retention_transcripts.py:252-286 | after a complete run a tool call stays exactly if it has no source time or is within its own table's window; a part if that holds of it with its window or a call of it stays; a message likewise, or if a part or call of it stays; rows are unchanged |
| `RetentionMeaning.EligibleMeans` | scripts/retention_transcripts.py:101-167 | a count or delete ranges over the rows strictly past their own table's window without a remaining child |
| `RetentionMeaning.BatchesLose` | scripts/retention_transcripts.py:143-167 | whatever batches run, only rows past their window go, and nothing left refers to them |
| `RetentionJob.Database.DeleteBatch` | scripts/retention_transcripts.py:143-167 | deletes some choice of eligible rows, as many as the limit allows, and nothing else |
| `RetentionJob.Database.Drain` | scripts/retention_transcripts.py:268-284 | the inner loop stops with the budget spent or nothing eligible left, counts exactly what it deleted, and every batch was allowed when it ran |
| `RetentionJob.Database.RunRetention` | scripts/retention_transcripts.py:233-286 | a write run loses only rows past their own table's window with nothing left referring to them, table by table all that expires as far as the limit reaches, and reports what each table lost; unless the limit stopped it exactly the rows to retain survive; a dry run changes nothing and counts what is eligible at once; the cutoffs are `now` less each window |
| `RetentionJob.RunIsComplete` | scripts/retention_transcripts.py:256-286 | draining children first, within the budget, removes exactly the expired rows |
| `RetentionJob.DryRunIsLowerBound` | scripts/retention_transcripts.py:256-284 | under any limit, after each table in turn, the dry run has counted at most what the write run has deleted, and neither exceeds the limit; without a limit the same holds table by table |
| `RetentionJob.DryRunIsExactIff` | scripts/retention_transcripts.py:125-140 | under any limit, the dry run is exact table by table if and only if wherever an expiring parent still has a child the rows counted so far have used up the limit; and when the totals agree |
| `RetentionJob.DryRunCanUndercount` | scripts/retention_transcripts.py:125-140 | an input on which the dry run reports one row and the write run deletes two |
| `RetentionJob.DryRunCanOvercountATable` | scripts/retention_transcripts.py:256-284 | an input on which, with a limit of two, the dry run counts a message that the write run has no budget left to delete |
| `Correlation.Resolve` | afk_outcomes/correlation.py:624-647 | the nested loops lock exactly the entities whose first output is a proposal |
| `Correlation.ReadAmbiguities` | afk_outcomes/correlation.py:630-633 | one rule's ambiguities extend the resolution by that part of the stream |
| `Correlation.ReadProposals` | afk_outcomes/correlation.py:634-647 | one rule's proposals extend it, with identifiers drawn in order of locking |
| `Correlation.FirstWordWins` | afk_outcomes/correlation.py:624-647 | each correlation is the first output about its entity; no entity is correlated twice, or both correlated and ambiguous |
| `CorrelationMeaning.FateOf` | afk_outcomes/correlation.py:621-647 | an entity is correlated or ambiguous by the first word about it, rules in order and in a rule ambiguities before proposals; a correlation carries that proposal's fields, the run's identifier, which was drawn first, and its own, drawn in order |
| `CorrelationMeaning.CorrelationsInOrder` | afk_outcomes/correlation.py:628-647 | correlations come in the order in which their proposals are read |
| `Correlation.EveryEntityIsDecided` | afk_outcomes/correlation.py:624-647 | every entity any rule spoke about ends correlated or ambiguous |
| `Correlation.LaterRulesNeverOverride` | afk_outcomes/correlation.py:628-647 | with more rules appended, the earlier correlations stay as a prefix |
| `ConfidenceLaws.HighestConfidenceBoundIff` | afk_outcomes/correlation.py:624-647 | for any rule outputs, every correlation carries the greatest confidence proposed for its entity if and only if no proposal that is the first word about its entity is outbid later |
| `ConfidenceLaws.DescendingBindsHighest` | afk_outcomes/correlation.py:3-5 | rules that really run in descending confidence order always bind the highest |
| `ConfidenceLaws.DefaultRulesBindHighestIff` | afk_outcomes/correlation.py:544-550 | the five default rules do so if and only if no issue that is first merely mentioned is proposed more confidently by a later rule |
| `ConfidenceLaws.MentionLocksBeforeBranch` | afk_outcomes/correlation.py:320-402 | an issue the owning request mentions and whose number is in the branch name is bound at 0.1, not 0.8 |
| `EntityLinkMeaning.OwnerMeans` | afk_outcomes/correlation.py:695-700 | there is an owning change request exactly when one single fetched copy of a change request carries the run's title |
| `EntityLinks.DedupeEntities` | afk_outcomes/correlation.py:702-739 | per identifier, in order of first appearance, the first copy the owner carries stays, else the first copy |
| `EntityLinks.DedupedIsDistinct` | afk_outcomes/correlation.py:727-739 | no identifier survives twice |
| `EntityLinkMeaning.DedupedMeans` | afk_outcomes/correlation.py:717-739 | of each identifier survives the first copy the owning change request carries, or if it carries none the first copy; survivors come as their identifiers first appear |
| `EntityLinkMeaning.AfterColonMeans` | afk_outcomes/correlation.py:724-726 | the owner's external identifier is what follows the first colon |
| `LinkPasses.DirectPass` | afk_outcomes/correlation.py:749-766 | one direct link per correlation, its role by the threshold |
| `LinkPasses.LineagePass` | afk_outcomes/correlation.py:768-808 | the growing set of linked identifiers gives the lineage links and never suppresses a different entity |
| `LinkPasses.NoisePasses` | afk_outcomes/correlation.py:810-845 | the two noise passes over change requests and commits |
| `LinkPasses.EntityLinksOf` | afk_outcomes/correlation.py:741-847 | the four passes yield direct, lineage, change-request noise and commit noise, in that order |
| `EntityLinkMeaning.LinkThereIff` | afk_outcomes/correlation.py:741-847 | exactly which links a run has: direct links of correlations, links unbound commits and reviews inherit from the owner, noise marks of unbound unrelated entities, each with its confidence and role (`resolved` from 0.5) |
| `EntityLinkMeaning.LineageConfidence` | afk_outcomes/correlation.py:777-790 | every inherited link has the confidence of the owner's own correlation, its role by that; without one, 1.0 and `resolved` |
| `EntityLinkMeaning.DirectLinksFirst` | afk_outcomes/correlation.py:749-766 | the correlations' links come first, in the order of the correlations |
| `EntityLinkMeaning.LinksInPassOrder` | afk_outcomes/correlation.py:749-847 | direct links, inherited ones, noise of change requests, noise of commits, within a pass by identifier |
| `LinkLaws.PassesDoNotCollide` | afk_outcomes/correlation.py:741-847 | each identifier gets at most one link |
| `LinkLaws.LineageShape` | afk_outcomes/correlation.py:771-808 | lineage links exactly the unbound commits and reviews the owning request carries |
| `LinkLaws.PassesInIdOrder` | afk_outcomes/correlation.py:791-831 | lineage links, and the links of each noise pass, come in the order of their identifiers |
| `LinkLaws.LinksIgnoreFetchOrder` | afk_outcomes/correlation.py:741-847 | determinism: the links do not depend on the order of the distinct entities |
| `LinkLaws.NoiseIffUnrelated` | afk_outcomes/correlation.py:810-845 | noise are exactly the unbound change requests, and unbound commits not carried by the owner that name a number the run does not know |
| `LinkLaws.KeptCopyIsOwned` | afk_outcomes/correlation.py:717-722 | if any copy of an entity is carried by the owner, the copy that survives is |
| `EntityLinkMeaning.OwnedCopyIsLinked` | afk_outcomes/correlation.py:702-808 | whatever copies were fetched, an unbound commit or review with an owned copy gets exactly one link: inherited, with the confidence of the owner's correlation or 1.0 |
| `LinkLaws.RunLinksEachEntityOnce` | afk_outcomes/correlation.py:624-660 | from rule outputs to links: a run links each entity at most once |
| `Rollup.Store.RunBackfill` | scripts/backfill_client_project_rollup.py:137-166 | the upsert gives the chosen disagreeing groups their event sums and leaves every other row |
| `Rollup.Store.DeleteStaleRows` | scripts/backfill_client_project_rollup.py:178-188 | deletes exactly the rows without an event group |
| `Rollup.Store.Run` | scripts/backfill_client_project_rollup.py:328-395 | the control flow: consistent, dry run, a rejected limit and integer overflow change nothing; otherwise the repair and what remains; a run that is not dry exits with 0 exactly when the table now equals the event sums |
| `Rollup.AgreesIffNoMismatch` | scripts/backfill_client_project_rollup.py:87-127 | the mismatch count is zero exactly when the rollup equals the event sums |
| `Rollup.ChosenComeFirst` | scripts/backfill_client_project_rollup.py:168-171 | a limited run takes the disagreeing groups that come first in key order |
| `Rollup.RunShrinksDisagreement` | scripts/backfill_client_project_rollup.py:191-205 | with limit n and D disagreements a run leaves exactly max(0, D - n), no stale row, and every agreeing row as it was |
| `Rollup.RunsShrinkDisagreement` | scripts/backfill_client_project_rollup.py:340-390 | k runs leave max(0, D - n*k) |
| `Rollup.BackfillConverges` | scripts/backfill_client_project_rollup.py:340-390 | after at least one run the table equals the event sums if and only if n times the runs reaches D |
| `RollupMeaning.RowMeans` | scripts/backfill_client_project_rollup.py:66-79 | there is a row exactly for the client, project and UTC day of some event, and each column is the sum of its own non-null amounts over those events |
| `RollupMeaning.RunMeans` | scripts/backfill_client_project_rollup.py:137-205 | one run row by row: chosen missing or different rows take their sums, the first in key order as far as the limit goes; others stay; rows without events go |
| `RollupMeaning.RangeMeans` | scripts/backfill_client_project_rollup.py:70-73 | a run goes through exactly if every token sum fits 32 bits |
| `RollupMeaning.ColumnsConserved` | scripts/backfill_client_project_rollup.py:66-79 | column by column the rows together hold what all events with a project hold |
| `Verifier.CanonicalLatest` | scripts/verify_helpers.py:212-255 | per resource the newest delivery, latest time and then lowest identifier, and the number of deliveries, whatever their order |
| `Verifier.NewestIsUnique` | scripts/verify_helpers.py:220-222 | the newest delivery pointer is unique |
| `Verifier.Compare` | scripts/verify_helpers.py:258-401 | the mismatches reported are exactly those of the three kinds, at most one per resource |
| `VerifierMeaning.ReportsMean` | scripts/verify_helpers.py:294-399 | exactly when each of the three kinds of mismatch is reported, and with which day, difference sides, time delta (canonical less stored) and delivery count |
| `VerifierMeaning.NewestMeans` | scripts/verify_helpers.py:243-253 | newest is the latest usable delivery, of those the lowest identifier |
| `VerifierMeaning.WindowMeans` | scripts/verify_reporting_resource_aggregates.py:90-98 | a window selects the deliveries of its UTC days, first and last included |
| `VerifierLaws.NewestInWindow` | scripts/verify_reporting_resource_aggregates.py:90-98 | a newest delivery that lies in the window is the newest of the window's deliveries |
| `VerifierLaws.NoFalseAlarms` | scripts/verify_helpers.py:258-401 | if every stored pointer is the newest delivery over all history, no window reports anything |
| `VerifierLaws.NoMisses` | scripts/verify_helpers.py:294-364 | a resource whose newest delivery lies in the window, its pointer not past the window's end, is reported if and only if the pointer is missing or differs |
| `SessionTree.FillTable` | frontend/app.js:4334-4337 | the table holds the last session of every identifier, each with its own fresh, empty child array |
| `SessionMeaning.WinnerMeans` | frontend/app.js:4334-4337 | under an identifier, external if there is one, else internal, the table holds the session delivered last |
| `SessionTree.Push` | frontend/app.js:4341-4342 | pushing into one parent's array leaves every other array as it was |
| `SessionTree.LinkChildren` | frontend/app.js:4338-4348 | every array holds its children, and the roots the parentless and the dangling sessions, in delivery order |
| `SessionTree.BuildSessionTree` | frontend/app.js:4330-4350 | the two passes give a linked table and the roots with their missing parents |
| `SessionMeaning.ChildrenMean` | frontend/app.js:4338-4342 | a child array lists the sessions whose parent link is that identifier, as delivered |
| `SessionMeaning.RootsMean` | frontend/app.js:4343-4347 | the roots are the sessions without a parent in the run, as delivered, each with the missing parent it names, if any |
| `SessionTree.Render` | frontend/app.js:4352-4374 | rendering a node of the forest terminates and visits its subtree in order |
| `SessionTree.RenderForest` | frontend/app.js:4330-4374 | rendering all roots visits exactly what the walk of the forest visits |
| `SessionWalk.ForestVisitsTheAcyclicOnce` | frontend/app.js:4330-4374 | no session is visited twice, and visited are exactly those whose parent chain does not run into a cycle |
| `SessionMeaning.VisitedMeans` | frontend/app.js:4330-4374 | visited are exactly the sessions from which parent links lead up to a session without a parent in the run |
| `SessionMeaning.ParentFirst` | frontend/app.js:4352-4373 | a parent is visited before all that is below it |
| `SessionMeaning.SiblingsInOrder` | frontend/app.js:4366-4372 | of two children the one delivered first is visited first, with all below it |
| `SessionMeaning.RootsInOrder` | frontend/app.js:4343-4347 | and of two roots likewise |
| `SessionWalk.WalkReachesGrounded` | frontend/app.js:4366-4372 | a session at any depth below a root is visited |
| `Sessions.GroundedIffNoCycle` | frontend/app.js:4338-4348 | a session lies under a root, parentless or with a dangling parent, exactly when its parent chain does not come back to itself |
| `Sessions.DepthBound` | frontend/app.js:4352-4374 | the recursion is never as deep as there are sessions |

## Left out

- Datetimes and days are integers; clocks, random bytes and the ULIDs a resolution draws are inputs.
- Provider, entity and event names are enumerations ranked as their names sort; an `observed_via` other than `webhook` is the one value `Backfill`, as the code treats it.
- The active and parked change requests passed between the projector's passes, sorted duplicate-free lists in the source, are sets; the order of the conflicting views (`afk_outcomes/closure_episodes.py:149`) is not modelled because only their union and intersection are used.
- Iteration over dictionaries and sets is in arbitrary order wherever the source does not sort; results are proved for every order.
- Loading the facts of an incremental recompute from the database: what must be loaded is the hypothesis `ProjectorLaws.Covers`.
- The five correlation rules and their regular expressions: rules are arbitrary producers of proposals and ambiguities (for the default rules, at their confidences), text patterns arbitrary functions from a text to a set of numbers, confidences reals.
- Session links, outcome and unresolved records of a correlation run, and the sorted entity and event lists of its result.
- RetentionJob.Database.RunRetention: asks for a limit that is not negative and a batch size of at least one, which the command line enforces (`scripts/retention_transcripts.py:317-321`); no rows are written by others during a run.
- Rollup.Store.Run: no concurrent writes; log output is not modelled, and a sum beyond 32 bits is the single outcome `OutOfRange`; costs are reals, and project identifiers are ordered by code point, not by a database collation.
- The schema of `usage_events` is not part of this model; its amounts may be null.
- Reading a resource identity from a delivery payload (`app/core/reporting_aggregates.py`): a delivery comes with its identity, or with none.
- The per-day comparison, window parsing and report formatting of `scripts/verify_helpers.py`.
- SessionTree.Render: returns the identifiers it visits instead of markup; identifiers that collide with built-in property names of a JavaScript object are not modelled.
- SessionTree.RenderForest: for sessions with distinct identifiers, as the walk's promise needs; `SessionTree.BuildSessionTree` is for any sessions.
- Group-by associations, run status, tool-call backfill, dashboards, execution reconciliation, provider adapters, HTTP, migrations, argument parsing and logging.
