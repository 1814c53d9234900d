# stapel-reviews: a verified model

A Dafny model of the review engine of stapel-reviews: the review and response
tables, the visibility facts emitted on every change, the account merge and the
erasure, the aggregates, and the two keyset walks (owner-key backfill and
snapshot export).

Check it with `dafny verify dfyconfig.toml`.

## How it is laid out

| file | what it holds |
|---|---|
| `Model.dfy` | rows, replies, facts, the store |
| `Registry.dfy` | target-type layers, policies, the questions put to the host |
| `Rounding.dfy`, `Aggregates.dfy` | tallies, the three-decimal mean, the keyed and owner reads |
| `Engine.dfy` | every write as a function from store to store |
| `Service.dfy` | the same writes as methods over mutable tables, proved against `Engine.dfy` |
| `Invariants.dfy` | keys and cascades, the partial unique constraint, facts in step with rows |
| `Outcomes.dfy` | what a caller of one write may rely on |
| `Contracts.dfy` | every write told from the policies as the host wrote them and the columns of the rows, errors included |
| `Reads.dfy` | every aggregate read and the export page told the same way |
| `Merging.dfy` | `user.merged`: post-state, constraint, counts, facts |
| `Runs.dfy` | whole runs: facts agree with rows, redelivery, erasure, ratings |
| `Verdicts.dfy` | streams of moderation verdicts |
| `Interleaving.dfy` | concurrent creates: check, insert and second look as separate steps |
| `SelfReviewRule.dfy` | the exact scope of the self-review rule |
| `Ordering.dfy` | keyset order, distinct sorted targets |
| `Cursor.dfy` | the export cursor: JSON and base64url |
| `Exporting.dfy` | the snapshot walk |
| `Convergence.dfy` | facts and snapshot rows consumed together, from the start or by a host that joins later |
| `ProjectionKey.dfy` | the keys a host may file facts under, and when what it holds there is right |
| `Backfilling.dfy` | the owner-key walk: window, stopping point, accounting, resumption |
| `BackfillStability.dfy` | the same walk with others writing between its pages |
| `Slicing.dfy` | the walk called again and again with a limit |
| `Counterexamples.dfy` | runs from the empty store after which the code does not do what its documentation leads to expect |

## How the source is read

- A review's id is its creation number. Ids are never reused (the source draws
  random UUIDs), and the default ordering, newest first, is descending ids.
- User ids are strings, as `is_owner` compares them. A policy callback is a
  function that answers or raises; a resolver is a function that answers a key,
  nothing, or raises. The policies in force may differ from one write to the
  next.
- Means are exact rationals rounded once, half to even, and held in thousandths.
  The database's floating-point average is not modelled.
- A transaction is one step and transactions are serial, except for creates in
  `Interleaving.dfy`, where the existence check, the insert and the look after a
  refusal are three steps. Two overlapping read-committed transactions could each
  compute an aggregate that misses the other; serial transactions are an
  assumption.
- A row is saved first and its fact emitted after it, `lag` ticks later, where
  the lag may change between writes and be nothing. Each fact has its own time,
  later than the one before. The host projection in `Convergence.dfy` is assumed
  to keep the entry with the highest `seq`; what it does on a tie is left open.
- A rebuilding host is given a finished export and every fact emitted from then
  on. Whether it clears its table first is decided in stapel_core, which is not
  part of this model, so it may start from any entry; `Convergence.RebuildConverges`
  says exactly which entries end right.
- A projection is keyed by the pair (type, key). For the joined string facts are
  published under (`services.py:474`) and for the key alone, as in the repository's
  `README.md:154-158`, `ProjectionKey.JoinedKeyServesIff` and
  `ProjectionKey.KeyedHostAgreesIff` say exactly when they serve as well.
- The database's order on each key column is an arbitrary strict total order;
  `Ordering.CodePointsAreLawful` shows that one exists.
- Moderation and replies act on the row as stored: loading it and acting on it
  are one step.

Places where the code and its own documentation disagree, and the code was
followed. Each names a theorem for all inputs and, from the empty store, a run
that gets there:

- `management/commands/reviews_backfill_owner_keys.py:43-49` promises to stop
  after `limit` candidate targets. The test is skipped by a target that is not
  stamped, so the walk can run on to the end of its page:
  `Backfilling.LimitIsOverrunByLessThanAPage`,
  `Counterexamples.BackfillCanOverrun`.
- `services.py:301-302` says an unregistered type is counted as `unresolved`; it
  is counted as `no_resolver` (`services.py:347-349`):
  `Backfilling.UnregisteredHasNoResolver`, `Counterexamples.LetGoIsNoResolver`.
- `management/commands/reviews_backfill_owner_keys.py:46-49` offers the limit for
  going through a large table in slices. Every call starts at the first
  candidate, so targets nobody can resolve hold up those behind them:
  `Slicing.SlicesFinishIff`, `Counterexamples.SlicesCanStandStill`.
- `actions.py:62-66` presents two reviews by one author as a state the merge
  avoids. A guest with several old unflagged reviews of a target the survivor
  never reviewed still brings them all: `Merging.MergeLeavesOneEachIff`,
  `Counterexamples.MergeCanLeaveTwo`.
- `services.py:548-553` answers a refused insert with "the same answer the check
  gives". If the author's reviews are erased or merged away before the second
  look, the database's own error comes out instead:
  `Interleaving.LateLookAnswers`, `Counterexamples.RefusalCanSurface`.
- `services.py:521-525` refuses a review by the owner of its target when it is
  created. A later merge or backfill can still leave one:
  `SelfReviewRule.RuleScope`, `Counterexamples.MergeCanBreakSelfReview`,
  `Counterexamples.BackfillCanBreakSelfReview`.
- `actions.py:223-225` has a redelivered verdict find its review already in the
  status it asks for. It does unless another verdict came in between, and then
  the old one takes effect again: `Verdicts.RedeliveryIsNothingIff`,
  `Counterexamples.StaleVerdictReturns`.
- `services.py:395-408` offers the export to a host that has drifted. An entry that
  nothing delivered outranks stays as it is, right or wrong:
  `Convergence.RebuildConverges`, `Counterexamples.LostFactOutlivesSnapshot`.

## Model

| member | source | states |
|---|---|---|
| Runs.FactsAgreeWithRows | services.py:456-475 | after any sequence of creates, moderations, verdicts, replies, erasures, merges and backfills, each target's last fact carries its live aggregate, the reviews whose last fact says published are exactly the visible ones, facts of a review alternate, the unique constraint holds and no response dangles |
| Runs.RunKeeps | services.py:534-546 | the full invariant (keys, cascade, constraint, projection, ledger, fact times) survives every run from any state that has it |
| Runs.ApplyKeeps | services.py:595-604 | and every single write |
| Runs.RunForward | services.py:595-604 | along any run the log only grows and no stored review goes back to pending |
| Runs.MeansStayHonest | services.py:505-507 | with fixed rating bounds of at least one, every aggregate a run shows lies within them and is zero exactly when it counts nothing |
| Runs.RedeliveredMergeIsNothing | actions.py:99-136 | a completed merge delivered again, after anything short of new writes by the guest, under any policies and with or without the survivor, changes nothing and emits nothing |
| Runs.ErasureIsCompleteAndOnce | gdpr.py:44-64 | after an erasure nothing by the user remains, no response dangles, and everything by others remains as it was; a second erasure is the identity, log included |
| Runs.EraseContract | gdpr.py:51-53 | exactly the reviews of others are kept, and on those exactly the replies of others, each unchanged |
| Runs.RedeliveredErasureIsNothing | gdpr.py:44-64 | and so is an erasure delivered again after any run in which the user writes nothing new |
| Runs.EraseFacts | gdpr.py:45-64 | an erasure emits exactly one hidden fact per visible review removed, newest first, and none for pending or hidden ones |
| Invariants.InsertKeeps | services.py:533-546 | inserting a row and emitting its fact in one transaction keeps facts and rows in step |
| Invariants.SetStatusKeeps | services.py:595-604 | so does a status change, from pending as well as between published and hidden |
| Invariants.EraseKeeps | gdpr.py:44-64 | deleting a user's rows and replies and then emitting one fact per visible review keeps the full invariant |
| Invariants.AgreesDuringRemoval | gdpr.py:45-64 | in between, with the first facts out, facts and rows agree about a target if and only if nothing visible of it was deleted or its fact is already out |
| Invariants.RemoveAndAnnounceKeeps | gdpr.py:45-64 | the same for any set of rows and the order in which its visible members are announced |
| Invariants.RelabelKeeps | actions.py:131-136 | re-authoring, flag clearing and owner stamping need no fact |
| Invariants.AnnounceAggregates | gdpr.py:60-64 | every fact of an erasure carries the aggregate of the store after the deletion |
| Contracts.CreateContract | services.py:481-555 | a create succeeds if and only if the type is registered, the rating in range, the policy's one review not yet written, its can_review callback true where it has one, and an owner answered who is not the author unless the policy lets that be; it then adds the described row, and otherwise names the first check that failed |
| Contracts.ModerateContract | services.py:564-604 | a human moderates if and only if the type is registered with a can_moderate that answers true; the row changes in status and save time alone, with one fact, and a refusal names its reason |
| Contracts.VerdictContract | services.py:607-628 | the four words of a verdict are taken and no others, and approved and rejected do what they say |
| Contracts.VerdictEventContract | actions.py:227-274 | the event acts on exactly the review it names and gives the fact the machine word as reason, the note where there is none |
| Contracts.RespondContract | services.py:668-696 | a reply is stored if and only if it comes from a human, the type takes replies, its can_respond callback answers true or, where it has none, the human is the stamped owner, and there is no reply yet; a refusal names its reason |
| Contracts.EraseFactsContract | gdpr.py:45-64 | the facts of an erasure are those of the published reviews that went, newest first |
| Contracts.DeletedContract | actions.py:35-46 | the event without a user id does nothing, and with one erases that user alone |
| Contracts.MergeContract | actions.py:99-136 | a merge is nothing without two different ids or with nothing to carry, waits with an error for a survivor who is missing, and otherwise carries everything over: per row and reply, what goes, what changes hands and what loses its flag |
| Contracts.AnswerContract | registry.py:148-191 | a target has an owner if and only if its type is registered and its resolver names somebody; without a registered resolver nobody is asked |
| Contracts.BackfillContract | services.py:309-375 | a call stamps exactly the visited rows that have no owner, are of the type asked for and whose owner is named, and changes nothing else |
| Contracts.FullBackfillContract | services.py:309-375 | without a limit those are all such rows |
| Contracts.StatsContract | services.py:313-368 | the five numbers are those of the targets visited, by what the host answers, and of the rows that changed |
| Outcomes.CreateOutcome | services.py:481-555 | a create succeeds if and only if every check passes, then adds exactly the described row under a fresh id; otherwise nothing changes |
| Outcomes.ModerateOutcome | services.py:564-604 | moderation is open exactly to the system actor and to whom the type's own callback admits; a repeated action leaves no trace |
| Outcomes.RespondOutcome | services.py:668-696 | a reply is accepted exactly where none exists from a human the callback answers true for or, without a callback, the stamped owner; a callback that raises is a host failure and leaves the store |
| Outcomes.RepliesAreFinal | models.py:129-149 | whatever is written later, a reply keeps its words and changes author only by a merge |
| Merging.MergePostState | actions.py:130-136 | the exact tables after a transfer, row by row and reply by reply |
| Merging.MergeFoldsPerTarget | actions.py:60-73 | per target: the guest ends with nothing, the survivor keeps just its own reviews where the policy is on and it had one, and has both accounts' everywhere else |
| Merging.MergeLeavesOneEachIff | actions.py:62-66 | under the policy the survivor ends with at most one review of a target if and only if it had at most one and, having none, met a guest with at most one |
| Merging.MergeLeavesOthers | actions.py:131-133 | nobody else's row changes |
| Merging.MergeCountsTheDropped | actions.py:149-201 | rows before are rows after plus the count returned; a merge that must wait leaves the store alone |
| Merging.MergeFacts | actions.py:188-200 | a merge emits one hidden fact for each visible row it drops and nothing else |
| Merging.MergeEmptiesGuest | actions.py:118-136 | after a merge that did not have to wait the guest owns no review and no reply |
| Merging.EveryMoveKeepsConstraint | actions.py:131-133 | the unique constraint holds after every row of the bulk update, whatever order the rows are taken in |
| Merging.FoldKeepsMovable | actions.py:160-187 | dropping and unflagging duplicates is what makes that update safe |
| Merging.DropDuplicatesTables | actions.py:170-201 | the duplicate loop equals one filter over the tables it started from |
| Merging.DropDuplicatesKeeps | actions.py:188-200 | every pass of the loop leaves facts and rows in step |
| Interleaving.OneReviewPerAuthor | services.py:509-554 | for a type that starts empty and keeps its policy on, no interleaving of creates with creates, merges, erasures, moderation and backfills gives an author two reviews of a target |
| Interleaving.DoAllKeepsInv | services.py:533-546 | facts and rows agree in every reachable state of interleaved creates, whatever the policies |
| Interleaving.DoKeepsGuard | models.py:94-100 | every step keeps all rows and all drafts of the type flagged, so that the partial constraint covers them |
| Interleaving.RefusalIsDuplicate | services.py:547-554 | a refused insert that looks again at the same store answers DuplicateReview |
| Interleaving.LateLookAnswers | services.py:552-554 | with any steps in between it answers DuplicateReview if and only if, since the refusal, no erasure or merge took the author's reviews away after the last step that brought one of this target; otherwise the database's own error comes out |
| Interleaving.StepsHave | services.py:558-561 | a review the existence check found is found again after any interleaved steps if and only if none of them took the author's reviews away after the last that brought one |
| Interleaving.NobodyLeavesMeansDuplicate | services.py:548-553 | so while nobody erases the author or merges the account away the late answer is the one the check gives |
| Interleaving.ErasureInBetweenSurfacesRefusal | services.py:552-554 | an erasure just before the look brings out the database's own error |
| Interleaving.MergeInBetweenSurfacesRefusal | services.py:552-554 | and so does a merge of the author into another account |
| Interleaving.StepsOfOneCall | services.py:481-555 | the steps of one call with nothing in between change the store as the serial create does and give its answer |
| Interleaving.SerialCreateIsNeverRefused | services.py:509-510 | without interleaving the existence check is enough and the constraint never fires |
| Verdicts.StreamOutcome | services.py:57-62 | after any stream of verdict events, malformed ones included, a review has the status of the last approved or rejected it received and one fact per real change |
| Verdicts.StutterLeavesNoTrace | services.py:616-628 | a verdict that does not act or repeats the present status can be inserted anywhere with no trace in rows, log or clock |
| Verdicts.VerdictIsNothingIff | actions.py:223-225 | at any store a verdict leaves everything alone if and only if its review is gone, it does not act, or the review already has the status it asks for |
| Verdicts.RedeliveryIsNothingIff | actions.py:223-225 | a verdict redelivered after any others changes nothing if and only if no later verdict about the review asked for anything else last |
| Verdicts.RedeliveredVerdict | actions.py:223-225 | in particular, the same verdict twice in a row is the verdict once |
| Verdicts.OneEvent | actions.py:239-274 | one event moves exactly the review it names and only if it acts |
| Verdicts.VerdictVocabulary | services.py:57-62 | approved makes visible, rejected hides, from any status and under any policy; every other word, foreign target type, bad key or unknown review leaves everything |
| SelfReviewRule.RuleScope | services.py:521-525 | with allow_self_review off a write keeps "nobody reviews what they own" if and only if it is not a merge keeping a guest review of something the survivor owns, nor a backfill reaching a review by the owner it stamps |
| SelfReviewRule.MergeRule | actions.py:131-133 | the merge half, both directions |
| SelfReviewRule.StampRule | services.py:362-367 | the backfill half, both directions |
| Convergence.FactsAndSnapshotsConverge | services.py:402-408 | all facts of a run and any snapshot rows exported along it, in any order and with repeats, bring a highest-seq-wins consumer to the live aggregate |
| Convergence.RebuildConverges | services.py:395-408 | a host that holds anything at all of a target, beside a store with any history, is given every later fact and snapshot rows that have each target visible all along, in any order and with repeats; it ends at the live aggregate if and only if it held nothing, already held that aggregate, or is given something that outranks what it held |
| Convergence.LaterFactMends | services.py:404-408 | an entry no newer than what the store had said of the target is always mended once the store says anything more of it |
| Convergence.EmptyHostRebuilds | services.py:395-398 | a host just created always ends at the live aggregate |
| Convergence.RebuildFromExport | services.py:392-454 | end to end, with the same if and only if: the rows of a finished export whose pages were read at any points of a run, with the facts of that run |
| Convergence.SnapshotIsCovered | services.py:431-444 | a row's seq never exceeds the time of its target's latest fact |
| Aggregates.LatestSaveIsNewest | services.py:429-431 | the save behind a row's seq is the newest among the target's visible reviews |
| Convergence.SnapshotIsNoNewer | services.py:406-408 | a snapshot row taken at any point is never newer than the final fact and agrees with it on a tie |
| Convergence.ExportedRowIsSnapshot | services.py:438-447 | the rows the export sends are those snapshot rows |
| Reads.ExportContract | services.py:410-454 | a page lists the targets with a published review past its cursor, in order and up to the limit, has a cursor exactly when it leaves some out, announces their number on the first page alone, and an unreadable cursor is the one error |
| Reads.RowContract | services.py:438-447 | a row carries the mean and number of the target's published reviews and the newest save among them |
| Ordering.TypesThenKeys | services.py:429-432 | types stand together in their order, keys in theirs within a type |
| Exporting.ExportIsStable | services.py:410-454 | with arbitrary writes between pages the rows are strictly increasing, every target visible throughout is there, and each row is true of the store its page was read from |
| Exporting.FrozenExportIsComplete | services.py:416-453 | over an unchanged store the pages are exactly the sorted visible targets, max(1, ceil(n/limit)) of them, the first announcing n, for any requested limit |
| Exporting.FrozenExportFinishes | services.py:448-453 | and following the cursors over an unchanged store always comes to such an end |
| Exporting.WalkIncreases | services.py:422-427 | the keyset filter never lets a later page go back |
| Exporting.PageHas | services.py:429-436 | a page has every visible target between its own cursor and the next |
| Exporting.CursorNamesLastRow | services.py:448-452 | a page has a cursor exactly when more is to come, and it names the page's last row |
| Exporting.JsonCursorsRoundTrip | services.py:378-389 | the cursor codec used by the export meets what the walk asks of it |
| Cursor.CursorRoundTrip | services.py:378-389 | every pair of strings of Unicode scalar values comes back from its cursor |
| Cursor.CursorsAreDistinct | services.py:378-381 | two targets never share a cursor |
| Cursor.PairReads | services.py:380 | the JSON half: escapes, ASCII-only output and surrogate pairs read back |
| Cursor.BytesRead | services.py:381 | the base64url half, with padding |
| Cursor.CursorIsUrlSafe | services.py:381 | a cursor is letters, digits, '-', '_' and padding in whole groups of four |
| Cursor.GroupsSpellTheBytes | services.py:381 | by section 4 of RFC 4648 with the alphabet of section 5, a group of four spells the 24-bit number of its bytes, missing bytes count as zero and their symbols are padding |
| Cursor.PastTildeIsEscaped | services.py:380 | every character past '~' is one escaped code unit in four lower-case digits of its number, or above the basic plane the two halves of its surrogate pair |
| Cursor.UpToTilde | services.py:380 | up to '~' a character stands for itself, but for the quote, the backslash and the controls, which take the escapes of section 7 of RFC 8259 |
| Cursor.EveryEscapeReads | services.py:384-389 | in a cursor each two-character escape of section 7 of RFC 8259 reads as its character, and no other does |
| Backfilling.FullRunIsPointwise | services.py:309-375 | an unlimited run stamps exactly the rows with an empty key, of the type asked for or of any, whose resolver answers |
| Backfilling.ResumedRunIsOneRun | services.py:291-296 | any limited or crashed first part followed by a full run gives the table of one full run |
| Backfilling.SecondRunStampsNothing | services.py:291-293 | a second full run stamps no target and no row |
| Backfilling.RestOfCandidates | services.py:323-334 | stamped or not, the candidates past the cursor are exactly the targets not yet visited |
| BackfillStability.BackfillIsStable | services.py:291-299 | with arbitrary writes between the pages no target is visited twice, and a target with a candidate row at every page read until its visit is visited |
| BackfillStability.BatchHas | services.py:323-334 | a page has every candidate target between the cursor and its own last one |
| Slicing.SlicesFinishIff | services.py:323-375 | calls with a limit of at least one, repeated, end with the table of one full run if and only if each candidate that resolves has fewer unresolvable ones ahead than the least whole number of pages not below the limit; as many calls as resolvable candidates are then enough |
| Slicing.SliceMakesHeadway | services.py:369-374 | under that condition every call stamps a target while one is left, and keeps the condition |
| Slicing.SliceMisses | services.py:369-374 | a target with that many unresolvable ones ahead is not visited and is no nearer after the call |
| Backfilling.WalkAccounting | services.py:338-368 | every visited target is stamped, unresolved or without resolver, and stamped rows are the drop in empty-key rows |
| Backfilling.AnswersAreCounted | services.py:341-368 | the three target counts are the numbers of visited targets stamped, unresolved and without resolver |
| Backfilling.BackfillStampsWhatCreateWould | services.py:285-287 | an old row is stamped with the very owner key a review of that target created now would carry |
| Backfilling.UnregisteredHasNoResolver | services.py:341-361 | no_resolver is the number of visited targets whose type is unregistered or names no resolver, unresolved that of the others which got no owner |
| Backfilling.LimitIsOverrunByLessThanAPage | services.py:369-374 | targets stay below limit plus batch, and exceed the limit if and only if more candidates remain, the limit-th does not resolve and the limit is not a whole number of pages |
| Backfilling.NegativeLimitIsOne | services.py:369-374 | a negative limit stops the walk where a limit of one does |
| Backfilling.LimitIsExactWhenAllResolve | services.py:369-374 | when every candidate resolves the limit is exact |
| Backfilling.StampKeepsLive | services.py:362-367 | backfilling changes no target's aggregate |
| Service.Store.BackfillOwnerKeys | services.py:276-375 | the call visits the same targets, stops at the same one and returns the same five numbers whether or not it writes, and writes exactly their stamps, never to a row of another type than the one asked for |
| Service.Store.WalkCandidates | services.py:323-375 | the outer loop, re-reading the table for each page |
| Service.Store.BackfillPage | services.py:338-370 | the inner loop, whose early continues pass by the limit test |
| Service.Store.PredictThenBackfill | services.py:305-307 | a dry run announces exactly the statistics of the real run after it |
| Service.Store.CreateReview | services.py:481-555 | the create over mutable tables does what Engine.Create says and keeps the invariant |
| Service.Store.ModerateReview | services.py:564-604 | likewise Engine.Moderate |
| Service.Store.OnModerationCompleted | actions.py:205-274 | likewise Engine.HandleModerationCompleted |
| Service.Store.RespondTo | services.py:668-696 | likewise Engine.Respond; a reply is stored if and only if the gate lets the human in and there is none, and nothing else changes |
| Service.Store.EraseUser | gdpr.py:38-64 | likewise Engine.Erase: nothing by the user is left, and everything by others is |
| Service.Store.DropDuplicateReviews | actions.py:149-201 | the loop over the guest's reviews, with its count |
| Service.Store.ReauthorReviews | actions.py:131-133 | the bulk update row by row, under the constraint at every row |
| Service.Store.OnUserMerged | actions.py:48-136 | the whole handler does what Engine.Merge says and keeps the invariant |
| Reads.LiveContract | services.py:181-198 | the aggregate of a target is the three-decimal mean, ties to even, and the number of its published rows |
| Reads.KeysContract | services.py:201-232 | the keyed read has a key exactly when it was asked for and has a published row of the type given, or of any, and answers their mean and number |
| Reads.OwnersContract | services.py:235-273 | the owner read has an owner exactly when a non-empty one was asked for with a published row stamped so, and answers their mean and number |
| Aggregates.TypedKeysAgree | services.py:201-232 | the typed keyed read has a key exactly when its count is positive and then equals the single-target aggregate |
| Aggregates.UntypedKeysSpanTypes | services.py:212-217 | the untyped read is the total over all types sharing the key |
| Aggregates.OwnersAgree | services.py:235-273 | the owner read answers exactly the asked-for non-empty owners with a visible review, each with its own tally |
| Aggregates.OwnersAndUnstampedAreEverything | services.py:252-254 | the rows of all owners and the rows without one add up to the published rows, as those of all types do |
| Aggregates.LabelsAddUp | services.py:266-273 | single labels add up to the set of labels |
| Aggregates.LiveIsHonest | services.py:186-198 | the count is the number of visible rows, the mean lies in the rating bounds, and zero means empty |
| Rounding.RoundIsNearestEven | services.py:197 | the rounding is to nearest, ties to even |
| Rounding.MeanIsHonest | services.py:197 | the shown mean lies in the rating bounds and within half a thousandth of the exact mean |
| Rounding.MeanIsMonotone | services.py:197 | a larger exact mean never shows a smaller number |
| Registry.TargetTypes.GetTargetTypes | registry.py:76-85 | the merged registry is the upper layer's word where it has one, else the lower's, with None removing |
| Registry.TargetTypes.Register | registry.py:65-68 | registering sets one runtime entry |
| Registry.RegisterIsLocal | registry.py:65-112 | registering a name puts that policy in force for that name, over the settings, and None takes it out; every other name keeps its policy |
| Registry.EmptyPolicyMeaning | registry.py:88-112 | a type registered with nothing said is open to review, closed to moderation and to replies by anyone but a stamped owner, allows several reviews per author and no self-review, and takes the two axes from the settings |
| Outcomes.CreateFollowsPolicyFirst | registry.py:103-112 | hosts that differ only in their settings answer a create alike if and only if it is refused, the policy says how it moderates, or both defaults come to the same |
| Outcomes.RespondFollowsPolicyFirst | registry.py:103-112 | and a reply alike if and only if it comes from the system, the type is unknown, the policy says whether it takes replies, or both settings are the same |
| ProjectionKey.JoinedKeysMeetIff | services.py:474 | two targets over a set of types are published under one key if and only if some type followed by a colon begins another |
| ProjectionKey.JoinedKeyServesIff | services.py:456-475 | what a host holds under the joined key is the live aggregate, for every target of some types after every run over them, if and only if no type followed by a colon begins another |
| ProjectionKey.NestedTypesMislead | services.py:474 | where one does, a single review is enough to give a target nobody reviewed a count |
| ProjectionKey.FiledFactsAgreeWithRows | services.py:456-475 | where none does, the host is right after any run |
| ProjectionKey.KeyedHostAgreesIff | services.py:201-232 | after any run the last fact about a key carries what the untyped keyed read answers for it if and only if every visible review of the key is of that fact's target; without a fact the read answers nothing |
| Counterexamples.BackfillCanOverrun | services.py:338-370 | three stored targets without a resolver, in pages of two: a limit of one visits two, under any order of the database |
| Counterexamples.MergeCanLeaveTwo | actions.py:60-73 | two reviews written before the policy was on both pass to the survivor under it |
| Counterexamples.MergeCanBreakSelfReview | actions.py:131-133 | a guest's review of the member's own shop becomes the member's |
| Counterexamples.BackfillCanBreakSelfReview | services.py:362-367 | a member's old review is stamped with the member as owner |
| Counterexamples.RefusalCanSurface | services.py:533-554 | two creates race from an idle start, the author is erased or merged away, and the refused one answers with the database's own error |
| Counterexamples.StaleVerdictReturns | actions.py:223-225 | rejected, approved, and the rejection redelivered: the review is hidden again |
| Counterexamples.SlicesCanStandStill | services.py:323-375 | two shops of which only the second has an owner: in slices of one target it is never stamped |
| Counterexamples.LetGoIsNoResolver | services.py:347-349 | the one target of a type the host has let go of is counted under no_resolver |
| Counterexamples.LostFactOutlivesSnapshot | services.py:395-408 | a host that kept the entry a lost fact should have replaced goes on showing it after the whole snapshot |

## Left out

- HTTP views, serializers, DTOs, throttling, the guest wall, error keys and URL wiring: plumbing around the calls modelled here.
- Anchor pagination of the list endpoint and the list queries: the algorithm is in stapel_core, which is not part of this model.
- The comm bus, the outbox and the Projection class of stapel_core: emitting is an append to a log, and the consumer is the stated assumption.
- Cascades from deleting a user row without an erasure or a merge first: the database then removes reviews with no fact, and the facts fall behind.
- Admin edits, which bypass the services and emit nothing.
- Ids that are not UUIDs in user.merged, column lengths, and other values the database itself rejects.
- Stale in-memory instances: a caller that loads a review, waits, and then moderates it compares against an old status.
- A callable resolver answers text, nothing, or raises; other Python values turned into text are not modelled.
- Cursor.DecodeCursor: reads the compact two-string arrays that are issued, with every JSON escape; other JSON values, white space, lone surrogates, bytes outside ASCII and base64 with stray characters, all of which the source's libraries tolerate in a cursor it never issued, are refused here.
- Moderation content, data export for GDPR, log messages, code generation, migrations and translations: easy reads and documents.
