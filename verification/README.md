# Belay engine: verified models

Dafny models of five parts of the Belay engine, with proofs of what they promise. `dafny verify dfyconfig.toml` checks
everything. Each file holds one module.

- **Event preparation and attempts** (`Session`, `Pairing`, `Matching`, `GroupOrder`, `PairingLoop`, `Coalesce`,
  `CoalesceLaws`, `CoalesceEvidence`, `CoalesceMeaning`, `CoalesceDoubles`, `CoalesceIdempotent`, `CoalesceRange`,
  `Prepare`, `Citations`, `AttemptPairs`, `Attempts`, `AttemptLaws`, `AttemptMeaning`). A session's events are sorted,
  the historical and the live record of one action are merged when each is the other's only compatible opposite, and
  command events are folded into attempts. Main results: the result does not depend on map iteration or input order;
  no evidence is lost, and none is doubled exactly when no event is merged a second time; a second pass changes
  nothing in range, and otherwise exactly when nothing can be paired in the first output; attempts partition the
  command events. `CoalesceMeaning`, `CoalesceDoubles` and `AttemptMeaning` say what an output event and an attempt
  are in terms of the events they cite, without the functions that compute them.
- **The detector catalog** (`Fingerprints`, `Catalog`, `CatalogMeaning`, `SlotProtocol`, `CatalogRun`). The
  aggregation is all or nothing and its duplicate keys are injective. The slot protocol is a state machine over the
  steps of any number of calls, carried out by slot objects; a current result needs a free slot for every detector.
- **Experience governance and selection** (`NormalForms`, `Experience`, `Approval`, `NarrowingMeaning`,
  `NarrowingOrder`, `NarrowingWitness`, `PathMatch`, `SegmentMeaning`, `Selection`, `Disjointness`, `Conflict`,
  `PreflightMeaning`, `SelectionBudget`, `SelectionMeaning`). Canonical content, narrowing, disjoint scopes and the
  path matcher are related to what selection can later choose; what a narrowing, an advisory and a selection amount to
  is said in terms of proposals, scopes, scores and tokens alone.
- **MCP registration** (`McpConfig`, `McpManage`, `McpFaithful`). Install, update with rollback and uninstall against
  a command line whose answers are arbitrary functions of the whole history, with the ownership manifest's shared map:
  which exchanges and which status every reading calls for, and the discipline they keep; then the same runs against a
  truthful command line, and against one that works.
- **Smaller algorithms**: reading and grouping findings (`SmallestFifty`, `Findings`, `FindingsRun`, `FindingMeaning`,
  `FindingLevels`, `FindingsOrder`, `FindingsInput`), benchmark schedules (`BenchmarkSchedule`, `ScheduleLaws`,
  `ScheduleOrder`) and version 7 UUIDs after section 5.7 of RFC 9562 (`UuidV7`, `UuidExact`).
- `Ordering` and `Text` hold sorting, compaction and the string functions.

## Where the code does less than it seems to

- `durationAbsolute` (`internal/detection/coalesce.go:254-259`) leaves the least 64-bit duration negative, and time
  differences saturate there, so of two events 2^63 ns or more apart one counts as the other's opposite and not the
  reverse. A session is *reciprocal* when every event whose only opposite has one opposite itself is that opposite;
  sessions in range are (`Matching.GraphSymmetric`). `Pairing.PairingExact` and `GroupOrder.PairingIsMutual` show that
  the loop pairs exactly the mutual pairs if and only if the session is reciprocal. Independence of map and input
  order, and that no evidence is lost, hold of every session.
- The output loop asks whether an event is consumed, and not whether its opposite is
  (`internal/detection/coalesce.go:68-82`), so an event can be merged twice. `CoalesceEvidence.EvidenceConserved`
  shows that each evidence ID is cited once if and only if that does not happen, and
  `CoalesceRange.OutOfRangeRepeatsEvidence` gives a session where it does.
- A second pass can merge more than the first: `CoalesceRange.SecondPassMergesMore` gives a session out of range, and
  `CoalesceIdempotent.CoalescedTwiceExact` says exactly when it does not.
- The adjacency test of command results (`internal/detection/attempts.go:96-101`) uses the same function: it accepts
  results at most five seconds away and also those 2^63 ns or more before the execution.
- A narrowing may add task families where there were none. Without a path in the request this can make the narrowed
  proposal eligible where the original was not: `NarrowingWitness.NarrowingCanWiden` is such a case, and
  `Approval.NarrowingSoundness` gives the exact condition.
- An approval edited by the user is accepted only if the content hash differs; nothing is assumed about the hash.
- `sameBenchmarkArms` (`internal/evalrun/missionpack_benchmark.go:207-224`) decides permutation only for a wanted list
  without repetitions, which is how it is called.
- A plan whose task is neither `task_a` nor `task_b` passes the plan validator but its schedule is refused by the
  schedule validator (`ScheduleLaws.OtherTaskRefused`).
- The bounded writer reports overflow on an empty write when it is full, although nothing is dropped.

Two remarks concern findings that cannot arise, because the store refuses a finding without citations
(`internal/storage/local/store.go:356-358`) and the parser admits only the known levels
(`internal/acquisition/numbat/parser.go:184-187`). For findings as they do arise, `FindingsOrder.RunsAgree` says that
the order does not matter.

- The truncation flag is set when a finding follows after exactly 1000 citations, even one that cites nothing
  (`FindingsOrder.FlagIgnoresOrder`).
- `lowerConfidence` restarts after an empty level and keeps the first unrecognized one, and unrecognized severities
  tie (`FindingLevels.ConfidenceOrderExact`, `FindingLevels.SeverityOrderExact`).

## Conventions

Text is ASCII: a character is a byte, and blanks and letter case are those of ASCII. Times are integers (nanoseconds,
or milliseconds for UUIDs). The library's sorts are modelled by one stable sort; where the program's sort is not
stable, a lemma shows that there are no ties. The tokenizer is a function from trimmed texts to sets of terms, and the
terms of texts joined by spaces are the union of theirs. Hashes and JSON sizes are arbitrary functions given as
parameters. Validators enter with the limits and alphabets the results rest on; a `checked` field stands for the
verdict on other fields. Cancellation is a predicate on event positions. The store of findings is the list of a
session's rows in their stored order, fixed by the snapshot under which the pages are read. In `UuidV7` bytes are
integers below 256.

## Model

| member | source | states |
|---|---|---|
| Session.WithinWindowExact | internal/detection/coalesce.go:254-259 | the window test accepts exactly the pairs at most the window apart, plus the pairs whose saturated difference negates to itself |
| Pairing.PairingExact | internal/detection/coalesce.go:46-66 | whatever the order of visiting, the loop pairs exactly the events that are each other's only opposite if and only if every event whose only opposite has one opposite itself is that opposite |
| Pairing.PairingInvolution | internal/detection/coalesce.go:46-66 | a pairing is an involution without fixed points |
| Pairing.PairingUnique | internal/detection/coalesce.go:46-66 | there is one pairing |
| Matching.InRangeExact | internal/detection/coalesce.go:87-115 | the opposite test means "comparable and at most a second apart" for every pair exactly when no comparable pair lies 2^63 ns or more apart |
| Matching.GraphSymmetric | internal/detection/coalesce.go:87-115 | in range, being an opposite is symmetric, so the opposites are reciprocal |
| Matching.UniqueOppositeCandidates | internal/detection/coalesce.go:87-115 | the candidates returned are one per opposing position of the group, and the only one when there is one |
| PairingLoop.PairGroup | internal/detection/coalesce.go:50-66 | the inner loop visits a group of at most 256 in session order and applies the uniqueness step to each member |
| PairingLoop.PairCandidates | internal/detection/coalesce.go:46-66 | in whatever order the map yields its groups, the loop computes one and the same pairing, for every session |
| GroupOrder.GroupOrderIrrelevant | internal/detection/coalesce.go:46-66 | two orders of visiting that agree within each group pair the same events, symmetric or not |
| GroupOrder.AnyGroupOrder | internal/detection/coalesce.go:46-66 | so every order of the groups pairs as the session order does |
| GroupOrder.PairingIsMutual | internal/detection/coalesce.go:46-66 | that pairing is exactly the mutual one if and only if the opposites are reciprocal |
| Coalesce.MergeCoalesced | internal/detection/coalesce.go:173-190 | the merge edits the retained event in place of the pair; what it must be is what CoalesceMeaning.OutputMeans says of every output |
| CoalesceMeaning.OutputMeans | internal/detection/coalesce.go:68-84 | every output event, in range or not: historical or live exactly when an input it cites is; the union of their evidence; the event that none of them covers better; each enrichment field from that one, or where it has none, from the other |
| CoalesceMeaning.TieGoesToEarlier | internal/detection/coalesce.go:173-190 | of equally covered events the earlier one survives, where none is merged a second time |
| CoalesceMeaning.CoverageOrder | internal/detection/coalesce.go:199-223 | coverage compares the depth first and the confidence only between equal depths, in their published orders; anything else ranks below |
| CoalesceMeaning.OutputInOrder | internal/detection/coalesce.go:68-84 | the output is ordered by sequence, time and event ID |
| CoalesceDoubles.IdentityExact | internal/detection/coalesce.go:117-171 | two events have one identity if and only if they record the same action: session, kind, actor, outcome, exit code and what the action was about; which events have one at all |
| CoalesceDoubles.OppositesAreDoubles | internal/detection/coalesce.go:87-115 | in range, the opposites of an event are its doubles: another source, the same action, no contradicting IDs, at most a second apart |
| CoalesceDoubles.PairsAreOnlyDoubles | internal/detection/coalesce.go:46-66 | in range, two events are paired if and only if each is the other's only double, in a group of at most 256 |
| CoalesceDoubles.MergesOnlyDoubles | internal/detection/coalesce.go:26-85 | two events end up in one output event if and only if they are each other's only double |
| Coalesce.MergedKeepsIdentity | internal/detection/coalesce.go:128-190 | merging never moves the retained event to another identity |
| Coalesce.CoalescedAnyOrder | internal/detection/coalesce.go:26-85 | the coalesced session is the same for every order of the groups, for every session |
| Coalesce.PairedIsDeclarative | internal/detection/coalesce.go:46-66 | the pairing is the declarative one if and only if the session is reciprocal |
| Coalesce.GroupCandidates | internal/detection/coalesce.go:27-44 | the groups hold exactly the events of each identity, unless the run was cancelled at a 64th event |
| Coalesce.AssembleOutput | internal/detection/coalesce.go:68-82 | the output loop with its consumed set computes the assembled session |
| Coalesce.CoalesceEvents | internal/detection/coalesce.go:26-85 | a cancelled run returns its input; any other returns the coalesced session |
| CoalesceLaws.PairingIsInvolution | internal/detection/coalesce.go:46-66 | nothing is paired with itself or twice |
| CoalesceEvidence.NothingLost | internal/detection/coalesce.go:68-84 | in every session the output cites exactly the IDs that the input cites |
| CoalesceEvidence.EvidenceBalance | internal/detection/coalesce.go:68-84 | in every session the output cites what the input cites, and once more the evidence of each event that is merged a second time |
| CoalesceEvidence.EvidenceConserved | internal/detection/coalesce.go:68-84 | every evidence ID of the input is cited by exactly one output event if and only if the loop never merges an event into one already consumed |
| CoalesceEvidence.ReciprocalMergesOnce | internal/detection/coalesce.go:68-84 | reciprocal sessions, those in range among them, merge no event a second time |
| CoalesceEvidence.OutputLength | internal/detection/coalesce.go:68-84 | in every session the output is shorter than the input by half the paired events, and longer by half of those merged again; by the pairs alone if and only if none is |
| CoalesceLaws.AssembleIsOutputs | internal/detection/coalesce.go:68-84 | the loop with its consumed set equals keeping each unpaired event and the first of each pair, merged |
| CoalesceLaws.OutputOrigin | internal/detection/coalesce.go:68-84 | every output event is an unpaired input event or the merge of a pair |
| CoalesceIdempotent.MergedOpposed | internal/detection/coalesce.go:117-190 | a merged event opposes no more than the event it retains |
| CoalesceIdempotent.NoSecondPair | internal/detection/coalesce.go:46-84 | no two output events are each other's only opposite |
| CoalesceIdempotent.CoalescedTwiceExact | internal/detection/coalesce.go:26-85 | coalescing again changes nothing if and only if the uniqueness test succeeds for no two output events |
| CoalesceIdempotent.InRangeKept | internal/detection/coalesce.go:26-85 | coalescing keeps a session in range |
| CoalesceIdempotent.CoalescedTwice | internal/detection/coalesce.go:26-85 | coalescing its own output changes nothing in range |
| CoalesceIdempotent.CoalesceTwice | internal/detection/coalesce.go:26-85 | a second run over the result of a first one returns it, cancelled or not |
| CoalesceRange.OutOfRangeRepeatsEvidence | internal/detection/coalesce.go:68-84 | three events, two of them 2^63 ns apart, whose coalescing merges one a second time and cites its evidence ID twice |
| CoalesceRange.SecondPassMergesMore | internal/detection/coalesce.go:26-85 | four events that are not reciprocal, whose coalescing keeps every evidence ID once and whose second coalescing merges two more |
| Prepare.PrepareSession | internal/detection/prepare.go:33-65 | which error exactly when, the missing context and the cancellation signal included; otherwise the sorted session, coalesced unless cancelled |
| Prepare.SortedAlike | internal/detection/prepare.go:67-79 | with distinct event IDs the sort order has one result |
| Prepare.PrepareIgnoresOrder | internal/detection/prepare.go:33-79 | any reordering of the input events gives the identical result, for every session with distinct event IDs |
| Prepare.EveryEventCited | internal/detection/prepare.go:33-79 | the IDs cited by a prepared session are exactly those of its input events, for every session |
| Prepare.EveryEventCitedOnce | internal/detection/prepare.go:33-79 | with distinct event IDs each is cited by exactly one event if and only if coalescing merges no event a second time |
| Prepare.PreparedWhen | internal/detection/prepare.go:33-79 | a session is prepared if and only if it has an ID, at most ten thousand events and none of another session; under its ID and trimmed scope, its events in the order of sequence, time and ID |
| Prepare.PreparedMeans | internal/detection/prepare.go:33-79 | what OutputMeans says holds of every prepared event, of the raw input events it cites: historical when one of them is marked so or comes from an artifact, live when one comes from a hook and is not historical |
| Citations.CitationIDs | internal/detection/prepare.go:160-183 | the first fifty non-blank IDs in order of appearance, and whether there were more |
| Citations.CitationsAreEvidence | internal/detection/prepare.go:160-183 | citations are distinct evidence of the events, and all of it when complete |
| Citations.CompletenessIgnoresOrder | internal/detection/prepare.go:160-183 | whether a citation list is complete does not depend on the order of the events |
| AttemptPairs.PairedUnique | internal/detection/attempts.go:77-104 | an execution has at most one result and a result at most one execution |
| AttemptPairs.ToolResultAnswers | internal/detection/attempts.go:77-92 | a result with a tool-call ID answers exactly the waiting execution with that ID and signature |
| AttemptPairs.PlainResultAnswers | internal/detection/attempts.go:93-104 | a result without one answers only the execution just before it |
| Attempts.CommandToolCallMultiplicity | internal/detection/attempts.go:134-159 | how often each tool-call ID occurs on executions and on results, unless cancelled |
| Attempts.ExplicitOutcome | internal/detection/attempts.go:258-286 | succeeded or failed exactly when exit code or text says so and neither says the opposite; a contradiction is reported |
| Attempts.MergeAttempt | internal/detection/attempts.go:205-251 | the field-by-field update; what it must yield is what AttemptMeaning.AttemptsMean says of every attempt |
| AttemptMeaning.AttemptsMean | internal/detection/attempts.go:58-127 | of every attempt: succeeded exactly when some event says so and none says failed, failed the other way round, in conflict exactly when both are said; the one known class its events name, in conflict when they name two; first and last are the earliest and latest times; where it stands, how its result was found, and when it counts as a repetition |
| AttemptMeaning.JoinsWhatBelongs | internal/detection/attempts.go:77-104 | an execution and a result are in one attempt if and only if they belong together: by a tool-call ID that occurs once on each side, or as neighbours without IDs inside the window; with compatible signatures |
| Attempts.ToolDecision | internal/detection/attempts.go:77-92 | the branch for a result with a tool-call ID decides the declarative pairing |
| Attempts.PlainDecision | internal/detection/attempts.go:93-104 | the branch for a result without one decides the declarative pairing |
| Attempts.FoldJoins | internal/detection/attempts.go:205-251 | a paired result changes only the attempt of its execution |
| Attempts.FoldOpens | internal/detection/attempts.go:107-124 | any other event changes no attempt and opens one exactly when it has a signature |
| Attempts.CommandAttempts | internal/detection/attempts.go:58-127 | the loop with its pending map computes one attempt per opening event, with its paired result |
| AttemptLaws.AttemptsShaped | internal/detection/attempts.go:58-127 | an attempt is one event or an execution and its one result, conflict means unknown outcome, and attempts are ordered by first position |
| AttemptLaws.AttemptsDisjoint | internal/detection/attempts.go:58-127 | no event belongs to two attempts |
| AttemptLaws.AttemptsCover | internal/detection/attempts.go:58-127 | every command event with a signature belongs to an attempt |
| AttemptLaws.PairsJoin | internal/detection/attempts.go:58-127 | paired events are always in one attempt |
| Fingerprints.ChunkReadsBack | internal/detection/catalog.go:315-328 | a length-prefixed chunk can be read back off any text it begins |
| Fingerprints.DimensionKeyInjective | internal/detection/catalog.go:315-328 | different dimension lists have different keys |
| Fingerprints.MatchKeyInjective | internal/detection/catalog.go:303-313 | for detector IDs without NUL the duplicate key identifies detector and dimensions |
| Fingerprints.SortedKeyMeansSameDimensions | internal/detection/catalog.go:271-301 | after sorting, equal keys mean the same dimensions in any order |
| Catalog.ValidateMatch | internal/detection/catalog.go:271-301 | accepts exactly the valid matches and normalizes them |
| Catalog.Validate | internal/detection/catalog.go:132-152 | keeps the matches before the first invalid one, or reports more than a hundred in all |
| Catalog.Collect | internal/detection/catalog.go:108-153 | gathers matches, failures and one row per detector reached, stopping above a hundred matches |
| Catalog.DuplicateMatch | internal/detection/catalog.go:303-313 | reports exactly the lists with a repeated key |
| Catalog.Run | internal/detection/catalog.go:84-167 | all or nothing: every result that is not current has no matches; a current one is the sorted collection, without failures, with a row for every detector |
| CatalogMeaning.CurrentExactly | internal/detection/catalog.go:84-167 | a prepared run is current if and only if every detector answered with valid matches alone, at most a hundred came back in all, and no two have one detector and one set of dimensions |
| CatalogMeaning.CurrentPublishes | internal/detection/catalog.go:271-345 | its matches are exactly those that came back, each with the sorted distinct first fifty citations, complete only if there were no more, and dimensions in order; strictly ordered |
| CatalogMeaning.AccountsForAll | internal/detection/catalog.go:84-167 | a prepared run that is not truncated has a row of every detector with its own account, and charges exactly those that did not answer well, each with its code, or, if all did, nobody in particular |
| Catalog.NoFailures | internal/detection/catalog.go:108-158 | no failure is recorded exactly when every detector answered properly |
| Catalog.SortedMatchesStrict | internal/detection/catalog.go:330-345 | a current result is strictly increasing in detector and key |
| Catalog.CurrentIgnoresOrder | internal/detection/catalog.go:330-345 | a current result does not depend on the order matches were produced in |
| Catalog.DuplicatesAreReal | internal/detection/catalog.go:303-313 | duplicate keys are duplicate matches when detector IDs have no NUL |
| CatalogRun.BusyIsNotCurrent | internal/detection/catalog.go:84-258 | a detector whose slot is busy fails with its caller's code, has a failure row, and leaves the run without a current result |
| CatalogRun.FailsExactly | internal/detection/catalog.go:179-242 | a call leaves a failure exactly when its caller gave up, or its evaluation failed, panicked, or came back with an unknown absence or a match that is not well formed; with the code of that |
| CatalogRun.CurrentIsOwn | internal/detection/catalog.go:84-258 | a current result is made only of evaluations that this run's own calls started on free slots and that ended before it |
| SlotProtocol.Runtime.Take | internal/detection/catalog.go:179-258 | with the slots as objects, each step through tryStart and finish moves the runtime as the state machine says |
| SlotProtocol.Runtime.Execute | internal/detection/catalog.go:179-258 | any schedule is carried out as a run of the state machine up to its first step that is not enabled |
| SlotProtocol.StepKeepsInvariant | internal/detection/catalog.go:179-258 | every step of every goroutine, caller, timeout or panic keeps the protocol invariant |
| SlotProtocol.RunInvariant | internal/detection/catalog.go:179-258 | the invariant holds in every state of every interleaving |
| SlotProtocol.NoOverlap | internal/detection/catalog.go:244-258 | two evaluations of one slot never overlap, and the flag says whether one is under way |
| SlotProtocol.SendNeverBlocks | internal/detection/catalog.go:196-242 | a goroutine that has released its slot can always send |
| SlotProtocol.SetFlagHasHolder | internal/detection/catalog.go:179-258 | a set flag always has a goroutine whose finish clears it, possible at once or as soon as its evaluation has ended, however that ends |
| SlotProtocol.OnlyHolderClears | internal/detection/catalog.go:244-258 | a set flag stays set until exactly that goroutine finishes |
| SlotProtocol.CallsPersist | internal/detection/catalog.go:179-242 | a call keeps its slot and its response for ever |
| SlotProtocol.AnswersAreOwn | internal/detection/catalog.go:196-242 | a caller is only ever answered with the response of its own evaluation |
| SlotProtocol.FreeCallAnswers | internal/detection/catalog.go:179-258 | from any state, a call on a free slot that nobody disturbs is evaluated, frees the slot and answers its caller with what the evaluation ended with |
| SlotProtocol.BusyCallRefused | internal/detection/catalog.go:244-258 | a call on a taken slot is refused at once with its code, and touches nothing |
| SlotProtocol.GivingUpKeepsSlot | internal/detection/catalog.go:196-242 | a caller that times out or is cancelled leaves the evaluation and its slot as they are |
| NormalForms.NormalizedStrings | internal/experience/hash.go:367-377 | builds, sorts and compacts a copy; the caller's list is only read |
| Ordering.CompactInPlace | internal/experience/hash.go:387-398 | compaction within the array, the rest of which stays as it was |
| Ordering.SortedDistinctCopy | internal/experience/hash.go:387-398 | sorting and compacting a copy leaves the original alone |
| Ordering.SortedDistinctCanonical | internal/experience/hash.go:387-398 | two lists have one sorted-distinct form exactly when they have the same members |
| NormalForms.NormalStrict | internal/experience/hash.go:367-377 | a normal form is strictly sorted |
| NormalForms.NormalIdempotent | internal/experience/hash.go:367-377 | a normal form is its own normal form |
| NormalForms.NormalCanonical | internal/experience/hash.go:367-377 | two lists have one normal form exactly when their trimmed non-blank values are the same set |
| Experience.NormalConditionsCanonical | internal/experience/hash.go:290-308 | two condition lists have one normal form exactly when they hold the same normalized conditions |
| Experience.PayloadCanonical | internal/experience/hash.go:153-168 | two proposals have one canonical payload exactly when they agree up to order, repetition and surrounding blanks |
| Approval.NarrowedComparableSet | internal/experience/approval.go:164-184 | decides containment with the empty list as no restriction, and strictness |
| Approval.ValidateNarrowedProposal | internal/experience/approval.go:82-162 | accepts exactly the narrowings; which they are, NarrowingMeaning.NarrowedExactly says |
| NarrowingMeaning.NarrowedExactly | internal/experience/approval.go:82-194 | a proposal narrows another if and only if kind, project, session, description, exclusions, conditions, guidance and verifier agree up to order, repetition and blanks, it expires no later, each of the four scope lists keeps within its counterpart (an empty one restricts nothing), and one of them differs |
| NarrowingMeaning.PayloadsAgree | internal/experience/approval.go:82-123 | with the four lists and the expiry set aside, the canonical payloads of the two are the same |
| NarrowingMeaning.ConditionsMean | internal/experience/hash.go:290-308 | condition lists agree exactly when each condition of one has a counterpart of that kind with the same trimmed values in the other |
| Approval.ValidateApprovedProposal | internal/experience/approval.go:55-80 | what each approval mode accepts, exactly, whatever the content hash is |
| Approval.NarrowingSoundness | internal/experience/approval.go:82-162 | an eligible narrowing has an eligible original exactly under a condition on the two proposals and the request |
| NarrowingWitness.NarrowingCanWiden | internal/experience/approval.go:82-162 | an original, a narrowing and a request for which the narrowing is eligible and the original is not |
| Approval.NarrowingKeepsExpiry | internal/experience/approval.go:186-194 | an unexpired narrowing has an unexpired original |
| NarrowingOrder.NarrowingIrreflexive | internal/experience/approval.go:82-162 | nothing narrows itself |
| NarrowingOrder.NarrowingTransitive | internal/experience/approval.go:82-162 | narrowing is transitive |
| NarrowingOrder.RankFalls | internal/experience/approval.go:82-162 | every narrowing to a valid proposal lowers the rank |
| NarrowingOrder.RankBounds | internal/experience/validate.go:402-443 | the rank of a valid proposal lies between 4 and 390 |
| NarrowingOrder.ChainsAreShort | internal/experience/validate.go:402-443 | at most 386 narrowings can follow one another |
| PathMatch.MatchesMeansDenotes | internal/experience/pathmatch.go:11-37 | the backtracking matcher accepts exactly the files that can be divided among the pattern's segments |
| SegmentMeaning.SegmentMatchesExactly | internal/experience/pathmatch.go:24-34 | one segment matches exactly the names that divide among its characters: a star takes any of them, a question mark one, every other character itself |
| PathMatch.MatchesConcat | internal/experience/pathmatch.go:11-37 | a concatenation matches exactly the files that split into a match for each part |
| PathMatch.AdjacentAnyCollapse | internal/experience/pathmatch.go:11-37 | adjacent ** segments say no more than one |
| PathMatch.PatternTextsCompose | internal/experience/pathmatch.go:11-37 | the same for pattern texts joined by a slash |
| Disjointness.ExactSetsDisjoint | internal/experience/conflict.go:278-292 | decides that both lists restrict and share nothing |
| Disjointness.DisjointIsSound | internal/experience/conflict.go:254-276 | no request finds two disjoint scopes eligible, except that task-family disjoint ones may be reached through a shared term |
| Disjointness.DisjointIsExact | internal/experience/conflict.go:254-276 | scopes are disjoint exactly when no request without usable hint finds both eligible; up to 126 conditions together, no request that carries at most 128 valid paths |
| Disjointness.NoneFindsBothExactly | internal/experience/conflict.go:254-276 | no request without usable hint and with at most 128 valid paths finds both eligible if and only if the scopes are disjoint or no 128 paths meet all path restrictions |
| Disjointness.JointlyEligible | internal/experience/conflict.go:254-276 | for scopes not disjoint, a request with valid paths that finds both eligible |
| Disjointness.ConcreteIsValidFile | internal/experience/validate.go:1003-1042 | a valid pattern with letters for wildcards is a valid path |
| Disjointness.PatternMatchesConcrete | internal/experience/pathmatch.go:11-37 | and the pattern matches it |
| Disjointness.OppositionIsExact | internal/experience/conflict.go:294-325 | verifiers are opposed exactly when no set of modified files satisfies both, and symmetrically |
| Ordering.SortedMembers | internal/experience/conflict.go:327-352 | the strictly sorted list of a map's keys, whatever order the map yields them in |
| Conflict.Preflight | internal/experience/conflict.go:142-221 | an error exactly for invalid input; otherwise state, reasons and the 64 first references that the set of active experiences calls for |
| PreflightMeaning.StateMeans | internal/experience/conflict.go:142-221 | no conflict exactly when every active experience is apart: another project, two different sessions, or two lists that share nothing; a contradiction exactly when for one that is not, no set of modified files satisfies both verifiers |
| PreflightMeaning.RefsMean | internal/experience/conflict.go:142-221 | the references are the smallest of those that are not apart, all of them up to 64, in order |
| PreflightMeaning.ReasonsMean | internal/experience/conflict.go:155-221 | a reason is given if and only if it is called for: why an experience is apart when all are, else how one that is not touches the proposal, and that references were left out when more than 64 do |
| Conflict.AdvisoryDeterminate | internal/experience/conflict.go:142-221 | the advisory depends only on which experiences are active |
| Conflict.NoConflictIsSound | internal/experience/conflict.go:204-221 | after "no conflict", a request that reaches both does so through a shared term |
| Conflict.AdvisoryValidates | internal/experience/conflict.go:77-136 | the preflight's own final validation never fails |
| Conflict.MarkQueryCap | internal/experience/conflict.go:226-252 | keeps the references, adds the cap reason, and no longer claims the absence of conflict |
| Selection.LexicalOverlap | internal/localapp/experience_compiler.go:555-571 | the number of shared terms, at most ten, in whatever order they are counted |
| Selection.SelectionPathsMatch | internal/localapp/experience_compiler.go:541-553 | some pattern matches some path |
| Selection.ScoreSelection | internal/localapp/experience_compiler.go:457-539 | eligible exactly when every explicit restriction admits the request and what is undecided is backed by a shared term; the score is the sum of the matched parts |
| SelectionBudget.SelectWithinBudget | internal/localapp/experience_compiler.go:292-310 | an item is taken exactly when fewer than three items above it were and their tokens and its own are at most 600 |
| SelectionBudget.GreedyUnique | internal/localapp/experience_compiler.go:292-310 | that rule has one solution |
| SelectionBudget.GreedyIsFirst | internal/localapp/experience_compiler.go:292-310 | against any other choice within the limits, greedy takes the item at the first rank where they differ |
| SelectionBudget.GreedyMaximal | internal/localapp/experience_compiler.go:292-310 | with fewer than three taken, every item left out would exceed the tokens |
| SelectionBudget.EstimateTokens | internal/localapp/experience_compiler.go:613-627 | a quarter of the bytes of guidance and canonical verifier, rounded up |
| SelectionBudget.TokensIgnoreListOrder | internal/localapp/experience_compiler.go:613-663 | the estimate does not depend on order or repetition in the verifier's lists |
| SelectionBudget.ValidateRefs | internal/localapp/experience_compiler.go:171-197 | accepts exactly the valid generations of distinct valid references |
| SelectionBudget.Consider | internal/localapp/experience_compiler.go:210-277 | the checks of one stored experience, in their order |
| SelectionBudget.CollectEligible | internal/localapp/experience_compiler.go:209-278 | fails exactly when some referenced experience is damaged, otherwise collects the eligible ones |
| SelectionBudget.Select | internal/localapp/experience_compiler.go:152-311 | an error for a damaged source or an unset clock; otherwise a selection, of which SelectionMeaning says what it is worth |
| SelectionMeaning.SelectedWell | internal/localapp/experience_compiler.go:254-311 | the items are active, unexpired, eligible experiences of the generation with their points and tokens, best first: higher score, then smaller experience ID, then smaller version; at most three, at most 600 tokens in all, which is what is reported |
| SelectionMeaning.EveryCandidateHasItsPlace | internal/localapp/experience_compiler.go:279-310 | every available experience of the generation is selected, or comes after better selected ones that are three or leave too few tokens for it, and before all the others |
| SelectionMeaning.UnnamedMeetsNothing | internal/localapp/experience_compiler.go:457-539 | a request that leaves out its session, harness or model is never given an experience restricted to some, whatever it lists |
| SelectionMeaning.DamagedExactly | internal/localapp/experience_compiler.go:210-277 | a reference fails the selection exactly when its experience is missing or not the one that reference and generation name, or is available and its verifier cannot be encoded |
| SelectionMeaning.TokensCover | internal/localapp/experience_compiler.go:613-627 | four times the estimate covers every byte of guidance, exceptions and canonical verifier, with at most three to spare |
| SelectionBudget.SelectionIgnoresOrder | internal/localapp/experience_compiler.go:178-310 | the order of the generation's references does not matter |
| SelectionBudget.RankingIsDetermined | internal/localapp/experience_compiler.go:279-290 | distinct references leave the ranking no ties, so an unstable sort gives the same list |
| SelectionBudget.SelectedAreEligible | internal/localapp/experience_compiler.go:254-310 | everything selected is active, unexpired, eligible and of the generation; at most three items and 600 tokens |
| McpConfig.RecordManifestIdentity | internal/localapp/mcp_config.go:1045-1060 | a record is seen through every copy that shares the map, and only by the returned copy when there was none |
| McpConfig.ClassifyExact | internal/localapp/mcp_config.go:987-1022 | whose an entry is: current, recognized, nobody's or unknown, each with its exact condition on the reading and the record |
| McpConfig.RemoveOwned | internal/localapp/mcp_config.go:635-665 | the second half of an uninstall |
| McpConfig.ExchangeRecorded | internal/localapp/mcp_config.go:554-606 | the part of an update after its second look |
| McpConfig.StatusTarget | internal/localapp/mcp_config.go:398-437 | one inspection, classified; nothing changes |
| McpConfig.AddAndInspect | internal/localapp/mcp_config.go:508-515 | an add follows an inspection that read absent and is followed by an inspection |
| McpConfig.RemoveAndInspect | internal/localapp/mcp_config.go:554-555 | a remove follows an inspection that read an entry of ours and is followed by an inspection |
| McpConfig.InstallAbsent | internal/localapp/mcp_config.go:499-528 | exactly one add of the current identity and one inspection; installed if and only if that reads the identity, otherwise failed with the code that the command calls for |
| McpConfig.UpdateRecognized | internal/localapp/mcp_config.go:530-606 | a second look; if it still reads the recorded identity, a remove and a look; if that reads absent, the replacement; every other reading ends it with its own error and no further command; only this agent's record changes |
| McpConfig.ReplaceOrRestore | internal/localapp/mcp_config.go:565-606 | the current identity is added and looked for: updated if and only if it is read; if nothing is, the recorded identity is added again, and restored is reported if and only if that add succeeded and it is read |
| McpConfig.InstallTarget | internal/localapp/mcp_config.go:439-497 | for every first reading exactly the exchanges and the status it calls for: an absent entry is added to whenever it may be, a recorded one replaced, the current one left, a foreign one preserved; never a remove where adds may duplicate, never an add there without the opt-in |
| McpConfig.UninstallTarget | internal/localapp/mcp_config.go:608-665 | an entry of ours is looked at again, removed and looked for, removed if and only if nothing is left; everything else ends without a remove; never an add |
| McpManage.ManageTarget | internal/localapp/mcp_config.go:300-353 | one agent's turn has exactly the exchanges and the status that the action calls for and changes no other agent's record; an agent without a command line is skipped or unavailable |
| McpManage.RunTargets | internal/localapp/mcp_config.go:299-353 | the same of every agent after the loop, and the shared map holds exactly the records that follow from the results |
| McpManage.MarkChanged | internal/localapp/mcp_config.go:355-365 | a failed write puts its error on exactly the results that changed something |
| McpManage.OperationComplete | internal/localapp/mcp_config.go:1062-1089 | complete exactly when every result is, for the action |
| McpManage.Manage | internal/localapp/mcp_config.go:299-371 | every agent's turn goes as it must; the file gets the new records exactly when some changed and every step of the write succeeds; every changed result carries the error of a failed write and none otherwise; complete exactly when every result is |
| McpManage.ManifestFile.Write | internal/localapp/mcp_config_manifest.go:107-151 | through all eight stages the file has its old content until the rename; a failed or invalid write leaves it so |
| McpManage.CompletionIsVerified | internal/localapp/mcp_config.go:1062-1089 | a turn without an error is complete, and what it read last is what was asked for: the current identity after an install, nothing after an uninstall |
| McpManage.NotFoundCompletes | internal/localapp/mcp_config.go:1062-1089 | an agent without a command line is no obstacle to a complete install, and one to anything else |
| McpManage.CodexIsOnlyInspected | internal/localapp/mcp_config.go:460-484 | without the opt-in an install only inspects Codex |
| McpManage.EntriesStayValid | internal/localapp/mcp_config_manifest.go:71-105 | a run keeps a valid manifest valid |
| McpManage.BoundedWriter.Write | internal/localapp/mcp_config.go:751-764 | keeps the first bytes up to the limit, always reports the whole length, and remembers whether anything was dropped |
| McpFaithful.ForeignUntouched | internal/localapp/mcp_config.go:439-665 | against a truthful command line, an entry that is not ours is there after any part of a run exactly if it was before |
| McpFaithful.OnlyOursAppears | internal/localapp/mcp_config.go:439-665 | nothing but the current or the recorded identity is ever registered |
| McpFaithful.ReportsAreTrue | internal/localapp/mcp_config.go:439-665 | every reported status describes the final state of the registration |
| McpFaithful.WorkingInstall | internal/localapp/mcp_config.go:439-606 | against a command line that works, an install leaves the current identity registered wherever it may and says how; any other entry is left alone |
| McpFaithful.WorkingUninstall | internal/localapp/mcp_config.go:608-665 | against a command line that works, an uninstall leaves nothing of ours and any other entry alone |
| SmallestFifty.SmallestAbsorbs | internal/analysis/reconciler.go:613-622 | truncating to the fifty smallest before adding more loses nothing of the fifty smallest of everything |
| SmallestFifty.SmallestCanonical | internal/analysis/reconciler.go:780-784 | the fifty smallest depend only on which citations there are |
| Findings.DeriveKey | internal/analysis/reconciler.go:526-556 | the group key from the scope, the rule and the sorted event types |
| Findings.KeyIgnoresCitationOrder | internal/analysis/reconciler.go:533-553 | the group does not depend on the order of the citations |
| Findings.MergeFinding | internal/analysis/reconciler.go:598-622 | the field-by-field update of an occurrence |
| Findings.MergedSummarizes | internal/analysis/reconciler.go:557-623 | merging one more finding keeps the simple form of its group |
| FindingsRun.Admit | internal/analysis/reconciler.go:510-525 | the two truncations and the exhausted allowance, each of which shows that the limits are exceeded |
| FindingsRun.NumbatOccurrences | internal/analysis/reconciler.go:497-635 | the bounds always hold; truncated exactly when the findings exceed the limits; otherwise one occurrence per group with its fifty smallest citations, their completeness, extent and grade |
| FindingMeaning.GroupsAreAlike | internal/analysis/reconciler.go:526-556 | for a hash without collisions, two findings join one group if and only if scope, rule, rule version and the set of their event types agree |
| FindingMeaning.PresentsGroups | internal/analysis/reconciler.go:557-635 | of every occurrence of an untruncated run: the fifty smallest citations of its group and whether those are all, the earliest and latest time, the smallest finding ID, a severity that none exceeds, a confidence that none undercuts, and the rule name when all agree on one |
| FindingMeaning.EveryFindingPresented | internal/analysis/reconciler.go:497-635 | every finding is in the group of exactly one occurrence |
| FindingsOrder.RunsAgree | internal/analysis/reconciler.go:497-635 | any two runs over the same findings, each citing something and with known levels, report the same truncation and, untruncated, the same keys, occurrences and levels |
| FindingsOrder.UntruncatedRunsAgree | internal/analysis/reconciler.go:497-635 | untruncated runs over the same findings with known levels agree, whatever the order |
| FindingsOrder.SummaryIgnoresOrder | internal/analysis/reconciler.go:557-623 | the simple form of a group is the same for every order |
| FindingsOrder.FlagIgnoresOrder | internal/analysis/reconciler.go:516-520 | the truncation flag depends on the order if and only if the findings fit otherwise, cite exactly 1000 events, and one of them cites nothing |
| FindingsOrder.TruncatedFlagDependsOnOrder | internal/analysis/reconciler.go:516-520 | an input for which it does |
| FindingLevels.SeverityOrderExact | internal/analysis/reconciler.go:786-792 | the highest severity is the same for every order if and only if some severity is known or all are equal |
| FindingLevels.ConfidenceOrderExact | internal/analysis/reconciler.go:794-800 | the lowest confidence is the same for every order if and only if there is one unrecognized level, or none and not both an empty and a known one |
| FindingLevels.ConfidenceIsLowest | internal/analysis/reconciler.go:794-800 | known confidences fold to the lowest of them |
| FindingsInput.CursorSelects | internal/storage/local/store.go:958-980 | a page after the k-th finding begins with the next one |
| FindingsInput.SessionFindings | internal/analysis/reconciler.go:332-400 | the pages deliver the stored findings up to 1000 findings and 1000 citations; the flag is set exactly when anything stored is missing |
| FindingsInput.DeliveryUnique | internal/analysis/reconciler.go:358-386 | what is delivered is determined by what is stored |
| FindingsInput.DeliveredFits | internal/analysis/reconciler.go:332-400 | whatever is delivered exceeds no limit of the grouping but the number of groups |
| FindingsInput.ProjectFindings | internal/analysis/reconciler.go:142-186 | the projection is truncated exactly when the stored findings exceed a limit, and otherwise is the simple form of all of them |
| BenchmarkSchedule.SameMembers | internal/evalrun/missionpack_benchmark.go:207-243 | counting decides permutation of a wanted list without repetitions |
| BenchmarkSchedule.ValidatePlan | internal/evalrun/missionpack_benchmark.go:136-189 | accepts exactly the valid plans |
| BenchmarkSchedule.Build | internal/evalrun/missionpack_benchmark.go:61-134 | the nested loops build the blocks, harnesses and arms in their hashed orders |
| BenchmarkSchedule.ValidateSchedule | internal/evalrun/missionpack_benchmark_run.go:247-304 | the scan accepts exactly the valid schedules |
| BenchmarkSchedule.EntryAtFinds | internal/evalrun/missionpack_benchmark_run.go:313-323 | in a valid schedule an entry is found under exactly its own sequence number |
| ScheduleLaws.BuiltScheduleComplete | internal/evalrun/missionpack_benchmark.go:61-134 | every block, harness and arm exactly once, contiguous, numbered from one, whatever the hash |
| ScheduleLaws.BuiltRunsDistinct | internal/evalrun/missionpack_benchmark.go:119-127 | all run IDs differ |
| ScheduleLaws.BuiltScheduleAccepted | internal/evalrun/missionpack_benchmark_run.go:247-304 | the validator accepts a built schedule exactly when its task is task_a or task_b |
| ScheduleLaws.OtherTaskRefused | internal/evalrun/missionpack_benchmark_run.go:247-304 | a valid plan whose built schedule is refused |
| ScheduleOrder.BuiltInHashOrder | internal/evalrun/missionpack_benchmark.go:96-134 | the blocks in order, within a block the harnesses and within these the arms in the order of their hashes, the hashed texts written out; every run named after study, task, phase, block, harness and arm |
| UuidV7.NewUUIDv7 | internal/canonical/model/uuidv7.go:39-68 | an error exactly when the reader yields fewer than ten bytes, otherwise the identifier of time and bytes |
| UuidV7.MasksAreArithmetic | internal/canonical/model/uuidv7.go:54-55 | the version and variant masks in arithmetic |
| UuidV7.IsCanonicalUUIDv7 | internal/canonical/model/uuidv7.go:11-37 | the scan recognises exactly the canonical texts |
| UuidExact.CanonicalExactly | internal/canonical/model/uuidv7.go:11-68 | the texts recognised are exactly the identifiers of some time within 48 bits and some random bytes |
| UuidExact.IdentifiersEqual | internal/canonical/model/uuidv7.go:39-68 | two identifiers are equal if and only if their times agree in the low 48 bits and their random bytes in the 74 that are not overwritten |
| UuidV7.GeneratedIsCanonical | internal/canonical/model/uuidv7.go:39-68 | every generated identifier is recognised |
| UuidV7.TimeReadsBack | internal/canonical/model/uuidv7.go:44-50 | the first twelve digits are the time modulo 2^48 |
| UuidV7.TimeReadsBackExactly | internal/canonical/model/uuidv7.go:44-50 | they are the time itself exactly within 48 bits |
| UuidV7.OrderFollowsTime | internal/canonical/model/uuidv7.go:39-68 | later times give lexicographically greater identifiers |

## Left out

- Catalog.ValidateMatch: works on a copy, because matches are values here; the program edits the match in its slice.
- Experience.NormalConditionsCanonical: orders conditions by an injective encoding instead of their JSON text, because JSON is not modelled; which lists get one normal form is the same.
- Disjointness.DisjointIsExact: with more than 126 conditions together, requests that can be made are the subject of Disjointness.NoneFindsBothExactly.
- SlotProtocol.NoOverlap: the runtime's scheduling and memory model are reduced to atomic steps.
- McpManage.Manage: starts with the lock held and the manifest loaded; executable lookup, identity resolution, locking and reading the file are not part of this model.
- McpManage.ManifestFile.Write: that a rename replaces the file in one step is assumed.
- FindingsInput.SessionFindings: errors of the store, which end it without a result.
- BenchmarkSchedule.Build: with equal digests of two names the program's sort may order them either way; the results on completeness and acceptance hold for any order.
- Findings.MergeFinding: harness, scope quality, provenance and titles, which an occurrence takes from its first finding.
- Parsing of the Codex and Claude status output; an inspection returns absent, present, unverifiable or unavailable.
- Timestamps in the manifest are numbers, so their text form is not validated.
- Process execution, output sanitizing and environment of the registration commands beyond the bounded writer.
- The individual detectors, severity and confidence enumerations, lifecycle tables and field-by-field validators beyond those cited.
- JSON, schemas, prompts and hashing.
- The store, encryption, migrations, the HTTP and MCP servers, polling and file locks.
- Normalization of the selection request; the model starts from the normalized request.
- Brackets and backslashes in path patterns, which the pattern validator excludes.
- Unicode: classes, folding and multi-byte text.
- Evaluation of verifiers against facts beyond which files were modified.
- Workspace preparation, git and scoring of benchmark runs.
