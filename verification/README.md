# Verified model of the corporate-action event graph and its neighbours

This project models, in Dafny 4.11, the parts of the portfolio platform that carry the most
state and branching, and proves what their callers rely on. `dafny verify dfyconfig.toml` checks
all of it.

* **Corporate-action event graph.** The PL/pgSQL of the event-graph migrations: a canonical JSON
  printer, canonical child and manifest payloads, the cohort assertion, the deterministic
  scheduler, the chain of manifest versions, the observation ledger, the recursive rule for which
  observations count, and the trigger that admits a `READY` evaluation. The tables are a state,
  each guarded insert is a step, and invariants are proved over every run (`Ledger`,
  `EventStore`); the guards of the steps are proved to be exactly the declared constraints
  (`Constraints`), and which openings the versions can have is settled over all runs (`Openings`).
  The central theorem is `ReadinessSpec.ReadyExactly`: a trigger made of counts
  accepts exactly when a specification made of equalities holds. Its companion over runs is
  `ReadyAttainable.AttainableExactly`: which payloads can become READY at all, and with which plan.
  Timestamps are instants with a calendar of their own (`Calendar`, `Timestamp`).
* **The application's resolver.** The Python side computes the same plan with in-degree counters
  and a priority queue, and explains failures with strongly connected components found in two
  depth-first passes (`EventGraph`, `ReadyQueue`, `Components`). It is proved equal to the
  database's scheduler on everything the database accepts (`PlanAgreement`). Its semantic findings
  are characterised one by one (`FindingReasons`) and compared with the database's assertion
  (`CohortFindings`): they agree but for four kinds of repetition, which its structural findings
  exclude. Its content hashes are taken of the database's
  own canonical texts (`Lineage`, `ApplicationManifest`). Together: a complete manifest it built can
  be READY in some run exactly when it finds nothing wrong with it, and READY evaluations carry its
  plan and its hashes (`ApplicationReady`).
* **Lot-evidence cleanup.** The ordered plan over tables whose restrictive foreign keys form a
  cycle (`LotCleanup`), with LIKE and text literals (`LikePattern`).
* **Arithmetic and loops.** The anchored index series over exact reals (`IndexSeries`), the
  weekday calendar (`BusinessCalendar`) and the carry migration with its guard and inverse
  (`CarryMigration`).

## How the source is read

* Text is a sequence of Unicode scalar values, so `COLLATE "C"` is plain lexicographic order. No
  column can hold U+0000, so normalised text excludes it.
* A timestamp is its number of microseconds. `to_char` without an era shows a year BC like the year
  AD of that number, so the leap days BC are texts too. An ordering by equal ids keeps list order.
* The content hash is a parameter. Results that need it assume only that no two texts share a
  hash. The 64-hex format of digest columns is therefore not imposed on computed hashes: no
  function into 64 hex digits could be collision-free.
* NULL is an option value, and a comparison with NULL is unknown and does not raise. BEFORE
  triggers run before CHECK constraints, so "accepted" means trigger and checks together.
* A trigger reads the state it is inserted into; nodes and edges may still be inserted after an
  evaluation, so the READY results are stated at the accepting step.
* The observation counter of an event never decreases. The repository raises it by one under an
  optimistic comparison; in the model this is a guard of the update step.
* The priority queue is modelled by its contract: the least entry is taken.
* A date is its day number, an amount its number of units. Numeric division first rounds to some
  finer scale that the engine chooses, then to the column; the results hold for every such scale.

## Where a promised property fails

* An event without a current manifest version passes the staleness test of READY, because the
  comparison with NULL is unknown. `AttainableExactly` gives a run for every such manifest,
  `ReadyIsPossible` a concrete one, `ReadyCurrentExactly` the exact condition.
* Prefix selection in the cleanup plan is a LIKE pattern: `PrefixModeExactly`.
* Quantity restatements (splits and the like) have a rank of their own in the application and
  none in the database: `RanksAgreeExactly`, and `KeysAgreeExactly` for the rows on which the
  orders then differ, as in `SplitOrdersDiffer`. Governed cohorts hold none.
* Repetitions split the two verdicts on a cohort both ways. The application counts the distinct
  dependencies of a settlement and the database all of them (`DoubledSettlementDiffers`); the
  application counts how often a target names its source and the database only whether it does
  (`DoubledTargetDiffers`). Where ids repeat, the application looks for a target's source only
  under the last child of an id (`HiddenSourceDiffers`), and the database for the target of cash in
  lieu only under the last target of an id (`HiddenTargetDiffers`). `VerdictsDifferExactly`, for
  every list of children: there is no other difference. Structural and identity findings exclude
  all four.
* The canonical payload takes any trimmed text as an observation time, but only the rendering of a
  timestamp is ever READY: `RenderedExactly`, `UnfitNeverReady`. The application writes no other:
  `IsoIsRendered`.
* The version tag of a manifest payload may also be JSON null or the text "1", because the
  comparison is on extracted text and three-valued: `TagExactly`. The three payloads have three
  hashes: `TagsSplitText`.
* Without a stated anchor, two windows of the index series need not agree: `AnchorsAgreeExactly`.
* Downgrading and upgrading again loses the cost of a lot that no upgrade wrote:
  `CostForgotten`, `DowngradeUpgradeWritten`, `DowngradeUpgradeFullyOpen`.
* Listing business dates up to the last representable date raises, although the list exists:
  `BusinessDates`.

## Model

| member | source | states |
|---|---|---|
| ReadinessSpec.ReadyExactly | alembic/versions/c152b2c3d519_feat_add_corporate_action_event_graph.py:1402-1749 | the READY trigger together with the CHECKs of the evaluation table accepts exactly when the row-by-row specification holds: ordinals are a bijection onto 0..n-1, the plan is the least topological order, payload children and dependencies are the stored nodes and edges one for one, the canonical hashes match, counters are current, every node is its latest counted observation and nothing else was counted |
| ReadinessSpec.ReadySound | alembic/versions/c152b2c3d519_feat_add_corporate_action_event_graph.py:1402-1749 | from acceptance, the plan and the manifest that satisfy the specification |
| ReadinessSpec.ReadyComplete | alembic/versions/c152b2c3d519_feat_add_corporate_action_event_graph.py:1402-1749 | every evaluation that satisfies the specification is accepted |
| ReadinessSpec.CountsGivePlan | alembic/versions/c152b2c3d519_feat_add_corporate_action_event_graph.py:1439-1476 | equal counts of nodes and resolved nodes, a least ordinal 0 and a greatest n-1, under the unique index on ordinals, are a bijection of the nodes onto 0..n-1 |
| ReadinessSpec.PlanGivesCounts | alembic/versions/c152b2c3d519_feat_add_corporate_action_event_graph.py:1439-1476 | and conversely every such bijection has those counts |
| ReadinessSpec.CanonicalExactly | alembic/versions/c152b2c3d519_feat_add_corporate_action_event_graph.py:1477-1482 | comparing the stored order with the scheduler is the same as demanding the least topological order |
| ReadinessSpec.NoInvalidEdges | alembic/versions/c152b2c3d519_feat_add_corporate_action_event_graph.py:1484-1526 | once the plan is topological, the trigger's separate count of edges that do not go forward is always zero |
| ReadinessSpec.PayloadExactly | alembic/versions/c152b2c3d519_feat_add_corporate_action_event_graph.py:1528-1640 | no mismatched child and equal dependency and edge counts mean that payload and relational graph agree one for one, so no dependency is repeated |
| ReadinessSpec.DependenciesArePredecessors | alembic/versions/c152b2c3d519_feat_add_corporate_action_event_graph.py:1575-1599 | a child that matches its node has exactly the node's predecessors as dependencies, each once |
| ReadinessSpec.ObservationsExactly | alembic/versions/c152b2c3d519_feat_add_corporate_action_event_graph.py:1690-1746 | counts of observed, mismatched and unexpected rows say exactly that each node equals its latest counted observation and nothing undeclared was counted |
| ReadinessSpec.CountedSpecExactly | alembic/versions/c152b2c3d519_feat_add_corporate_action_event_graph.py:1690-1746 | the specification of observations, and the same with the rows chosen by the recursive query: each node is its latest counted observation and nothing undeclared was counted |
| ReadinessSpec.CurrentExactly | alembic/versions/c152b2c3d519_feat_add_corporate_action_event_graph.py:1671-1688 | the staleness test passes exactly when state version and observation counter are the event's and a current version, where there is one, is the manifest's |
| ReadyConsequences.StoredGraphIsDeclared | alembic/versions/c152b2c3d519_feat_add_corporate_action_event_graph.py:1528-1640 | in an accepted state the relational nodes and edges are the graph the payload declares |
| ReadyConsequences.ReadyPlanIsEconomic | alembic/versions/c152b2c3d519_feat_add_corporate_action_event_graph.py:320-473 | in every accepted READY plan, for all five event families, the single source is first, targets precede cash considerations, targets and cash precede fees and taxes, and each adjustment follows its one consideration |
| ReadyConsequences.ReadyScope | alembic/versions/c155b2c3d522_fix_forward_corporate_action_authority.py:40-65 | a manifest that reaches READY has no scope keys or has its event's tenant and legal book |
| ReadyConsequences.PartialScopeRefused | alembic/versions/c155b2c3d522_fix_forward_corporate_action_authority.py:40-65 | a payload with one scope key, or with a null one, passes the insert trigger's three-valued comparison and still never reaches READY |
| ReadyConsequences.ReadyCurrentExactly | alembic/versions/c152b2c3d519_feat_add_corporate_action_event_graph.py:1671-1688 | an accepted READY evaluation is for the event's current manifest version exactly when the event has one |
| ReadyConsequences.StaleRefused | alembic/versions/c152b2c3d519_feat_add_corporate_action_event_graph.py:1671-1688 | a READY evaluation whose observation counter or state version is not its event's is refused |
| ReadyConsequences.ReadyNotSuperseded | alembic/versions/c152b2c3d519_feat_add_corporate_action_event_graph.py:1671-1746 | at an accepted READY evaluation nothing that counts supersedes a node: every counting observation of it, up to the event's own counter, has at most the epoch of a stored row that is the node, and the node's hash in that epoch |
| ReadyConsequences.AcceptedColumns | alembic/versions/c152b2c3d519_feat_add_corporate_action_event_graph.py:1222-1255 | which columns an accepted evaluation of any status has: a plan exactly when READY, a manifest and its hash exactly when not awaiting one |
| ReadyConsequences.NotReadyExactly | alembic/versions/c152b2c3d519_feat_add_corporate_action_event_graph.py:1222-1255 | outside READY the columns alone decide acceptance |
| ReadyConsequences.TextAtMeans | alembic/versions/c155b2c3d522_fix_forward_corporate_action_authority.py:40-65 | `->>` gives a string's text, of any other value a JSON text that reads back as it, and NULL of a missing or null member |
| ReadyAttainable.AttainableExactly | alembic/versions/c152b2c3d519_feat_add_corporate_action_event_graph.py:1402-1749 | a canonical payload can be stored READY with a plan in some run of guarded inserts exactly when it is complete, its observation time is a text some timestamp is rendered as, its version, hints and counts fit integer columns, and the application's resolver answers its children with that plan; an event without a current manifest version makes no difference |
| ReadyAttainable.NothingFoundIsReady | src/services/portfolio_transaction_processing_service/app/domain/transaction/corporate_action/manifest.py:178-202 | a manifest of normalised values can be READY in some run exactly when it is complete, the columns hold it and the application finds nothing wrong, in graph or cohort, and then exactly with the application's plan |
| ReadyAttainable.UnfitNeverReady | alembic/versions/c152b2c3d519_feat_add_corporate_action_event_graph.py:1550-1563 | a canonical payload whose observation time is not a rendered timestamp, or whose integers exceed their columns, is never READY |
| ReadyAttainable.MalformedNeverReady | alembic/versions/c155b2c3d522_fix_forward_corporate_action_authority.py:88-241 | a payload that is not canonical is never READY, in any run |
| ReadyAttainable.SpecMet | alembic/versions/c152b2c3d519_feat_add_corporate_action_event_graph.py:835-1193 | for every such manifest, a run that stores its versions, nodes, edges and observations, and the instant its observation time shows, and ends in a state that meets the READY specification |
| ManifestRun.FinalReached | alembic/versions/c152b2c3d519_feat_add_corporate_action_event_graph.py:835-1193 | rows that meet the column types and table checks, whatever the manifest version, are stored by some run: the earlier versions of the chain first, then the manifest, its graph and its observations |
| DeclaredRows.ObservationsHeld | alembic/versions/c152b2c3d519_feat_add_corporate_action_event_graph.py:1690-1746 | when every declared child was observed once, each node is its latest counted observation and nothing else is counted |
| ReadyExample.ReadyIsPossible | alembic/versions/c152b2c3d519_feat_add_corporate_action_event_graph.py:1402-1749 | a collision-free hash and a payload that can be READY exist, with and without a current version in the event |
| ReadyExample.NewYearRendered | alembic/versions/c152b2c3d519_feat_add_corporate_action_event_graph.py:1550-1563 | the witness's observation time, the start of a year, is what the database renders then |
| Timestamp.RenderedExactly | alembic/versions/c152b2c3d519_feat_add_corporate_action_event_graph.py:1550-1563 | a text is the rendering of some storable instant exactly when it has the layout, a year of at least four digits without needless zeros, a calendar date of either era and a time of day, and no fraction or six digits not all zero |
| Timestamp.ReadRendered | alembic/versions/c152b2c3d519_feat_add_corporate_action_event_graph.py:1550-1563 | reading such a text gives an instant of the column that is rendered as it |
| Timestamp.IsoIsRendered | src/services/portfolio_transaction_processing_service/app/infrastructure/corporate_action_event_graph/repository.py:880-888 | what the application writes of an aware time, at any offset, is what the database renders of the stored instant |
| Timestamp.ToUtcExactly | src/services/portfolio_transaction_processing_service/app/infrastructure/corporate_action_event_graph/repository.py:886 | the conversion to UTC raises exactly outside the years 1 to 9999 |
| Timestamp.ColumnExactly | alembic/versions/c152b2c3d519_feat_add_corporate_action_event_graph.py:738-786 | the instants a column holds are the microseconds from 2000 on that PostgreSQL counts, from the first Julian day, up to the last whole year of 64 bits |
| Calendar.CivilUnique | alembic/versions/c152b2c3d519_feat_add_corporate_action_event_graph.py:1550-1563 | every valid date and time is the one of its instant, so rendering loses nothing but the era |
| Lineage.DumpsIsPrint | src/libs/portfolio-common/portfolio_common/domain/calculation_lineage.py:261-298 | for every value, json.dumps with sorted keys and ASCII escapes is the text the database prints of the value as stored |
| Lineage.QuotesAgree | src/libs/portfolio-common/portfolio_common/domain/calculation_lineage.py:265 | both sides escape every text alike |
| Lineage.NormalisedSettled | src/libs/portfolio-common/portfolio_common/domain/calculation_lineage.py:261-298 | normalising leaves no point in time and no empty key, so normalising again changes nothing |
| Lineage.HexIsToHex | src/libs/portfolio-common/portfolio_common/domain/calculation_lineage.py:265 | hexadecimal escapes written from a digit table and from digit arithmetic are the same |
| ApplicationManifest.HashTextAgrees | src/services/portfolio_transaction_processing_service/app/domain/transaction/corporate_action/manifest.py:104-132 | the application hashes, of every manifest it stores and the database accepts, the very text the database hashes of the payload |
| ApplicationManifest.ChildHashAgrees | src/services/portfolio_transaction_processing_service/app/domain/transaction/corporate_action/event_graph.py:97-116 | the same for every child |
| ApplicationManifest.PayloadWritten | src/services/portfolio_transaction_processing_service/app/infrastructure/corporate_action_event_graph/repository.py:880-888 | the stored payload is the book-scoped payload of the manifest, with sorted children and dependencies |
| ApplicationManifest.SortNormal | src/services/portfolio_transaction_processing_service/app/domain/transaction/corporate_action/manifest.py:120-126 | sorting children and then dependencies is sorting dependencies and then children |
| ApplicationReady.PlanHashAgrees | src/services/portfolio_transaction_processing_service/app/infrastructure/corporate_action_event_graph/repository.py:999-1014 | the same for the execution plan |
| ApplicationReady.ReadyHashes | alembic/versions/c152b2c3d519_feat_add_corporate_action_event_graph.py:1643-1669 | a READY evaluation of an application's payload carries the application's own manifest and plan hashes |
| ApplicationReady.ApplicationReadyExactly | src/services/portfolio_transaction_processing_service/app/domain/transaction/corporate_action/manifest.py:178-202 | a manifest the application built can be READY in some run exactly when it is complete, its integers fit and the application finds nothing wrong with it, and then exactly with the application's plan; its observation time is always a rendered one |
| Schedule.ExecutionOrder | alembic/versions/c152b2c3d519_feat_add_corporate_action_event_graph.py:1289-1348 | the WHILE loop terminates on every finite graph and returns the specification's order or raises |
| Schedule.CanonicalOrderCorrect | alembic/versions/c152b2c3d519_feat_add_corporate_action_event_graph.py:1289-1348 | it raises exactly on a cyclic graph; otherwise the result is a permutation of the nodes in which every edge goes forward |
| Schedule.CanonicalOrderIsLeast | alembic/versions/c152b2c3d519_feat_add_corporate_action_event_graph.py:1303-1346 | the result is lexicographically least among all topological orders under the ORDER BY key |
| Schedule.LeastOrderUnique | alembic/versions/c152b2c3d519_feat_add_corporate_action_event_graph.py:1303-1346 | the least topological order is unique, so the result does not depend on storage order |
| ManifestGraph.BeforeIsTotalOrder | alembic/versions/c152b2c3d519_feat_add_corporate_action_event_graph.py:1316-1338 | the five-column ORDER BY is a total order on the ids of one manifest, because it ends with the id |
| ManifestGraph.StoredGraph | alembic/versions/c152b2c3d519_feat_add_corporate_action_event_graph.py:945-1024 | the keys of the node and edge tables make the stored graph closed and its key total |
| ManifestGraph.HintedFirst | alembic/versions/c152b2c3d519_feat_add_corporate_action_event_graph.py:1330-1338 | within a rank a hinted child comes strictly before every child without a hint, and a hint of the largest integer ties with having none |
| Text.LeqExactly | alembic/versions/c152b2c3d519_feat_add_corporate_action_event_graph.py:1330-1338 | `COLLATE "C"`: of two texts the smaller is the one that ends first or is smaller at the first difference |
| Cohort.CheckGoverns | alembic/versions/c152b2c3d519_feat_add_corporate_action_event_graph.py:273-475 | what passing the cohort assertion means for source, targets and overlays |
| Cohort.SourceIsFirst | alembic/versions/c152b2c3d519_feat_add_corporate_action_event_graph.py:345-420 | in every topological order of a governed cohort the source is at position 0 |
| Cohort.EveryoneAfterSource | alembic/versions/c152b2c3d519_feat_add_corporate_action_event_graph.py:345-473 | every other child comes after the source, also where the type rank alone would not put it there |
| Cohort.GovernedPlanOrder | alembic/versions/c152b2c3d519_feat_add_corporate_action_event_graph.py:320-473 | every topological order of a governed cohort is an economic order |
| Cohort.AcceptedFamily | alembic/versions/c152b2c3d519_feat_add_corporate_action_event_graph.py:291-445 | an accepted cohort is of one of five families: exactly one child of the source type, in the source role, at least one target, and otherwise only targets, cash, settlements, fees and taxes, each in its literal role |
| Cohort.FamiliesExactly | alembic/versions/c152b2c3d519_feat_add_corporate_action_event_graph.py:291-319 | exactly five event types have a policy |
| Cohort.TwoLegsAccepted | alembic/versions/c152b2c3d519_feat_add_corporate_action_event_graph.py:273-475 | for each of the five families, a source and a dependent target with distinct ids and instruments are accepted |
| JsonString.CanonicalString | alembic/versions/c152b2c3d519_feat_add_corporate_action_event_graph.py:55-102 | the FOR loop over the characters builds the quoted form |
| JsonString.ReadBodyRoundTrip | alembic/versions/c152b2c3d519_feat_add_corporate_action_event_graph.py:55-102 | a decoder of section 7 of RFC 8259 undoes the escaping of every sequence of Unicode scalars, surrogate pairs included |
| JsonString.ReadCodepointRoundTrip | alembic/versions/c152b2c3d519_feat_add_corporate_action_event_graph.py:85-98 | the surrogate-pair arithmetic above U+FFFF and the four-digit escape below it are undone for every scalar |
| JsonString.QuoteInjective | alembic/versions/c152b2c3d519_feat_add_corporate_action_event_graph.py:55-102 | different texts have different quoted forms |
| JsonString.QuotePrintable | alembic/versions/c152b2c3d519_feat_add_corporate_action_event_graph.py:55-102 | the quoted form holds only printable ASCII |
| JsonString.QuoteCapitals | alembic/versions/c152b2c3d519_feat_add_corporate_action_event_graph.py:85-98 | every capital letter of a quoted form comes from the text itself, so escapes are lower case |
| Json.ReadValueRoundTrip | alembic/versions/c152b2c3d519_feat_add_corporate_action_event_graph.py:104-143 | a reader of compact texts of the grammar of sections 3 to 7 of RFC 8259 undoes the printer on every value of null, booleans, numbers, strings, arrays and unique-key objects, with any text following that does not continue a number |
| Json.PrintInjective | alembic/versions/c152b2c3d519_feat_add_corporate_action_event_graph.py:104-143 | equal canonical text means equal value |
| Json.SortedKeysUnique | alembic/versions/c152b2c3d519_feat_add_corporate_action_event_graph.py:126-137 | the key order of an object is the only strictly increasing one |
| Json.PrintObject | alembic/versions/c152b2c3d519_feat_add_corporate_action_event_graph.py:126-137 | an object with known sorted members prints as their texts joined by commas |
| ChildPayload.AcceptSound | alembic/versions/c152b2c3d519_feat_add_corporate_action_event_graph.py:145-229 | an accepted child payload has exactly the nine members, each canonical, and is the JSON of the child read from it |
| ChildPayload.AcceptComplete | alembic/versions/c152b2c3d519_feat_add_corporate_action_event_graph.py:145-229 | the JSON of every valid child is accepted and read back as that child |
| ChildPayload.CanonicalTextPrinted | alembic/versions/c152b2c3d519_feat_add_corporate_action_event_graph.py:231-269 | the hand-concatenated text is the generic printer applied to the child with sorted dependencies |
| ChildPayload.TextAgreesExactly | alembic/versions/c152b2c3d519_feat_add_corporate_action_event_graph.py:231-269 | two children have the same text exactly when they differ at most in dependency order |
| ChildPayload.PayloadTextAgreesExactly | alembic/versions/c152b2c3d519_feat_add_corporate_action_event_graph.py:145-269 | the same for any two accepted payloads |
| ChildPayload.ToJsonInjective | alembic/versions/c152b2c3d519_feat_add_corporate_action_event_graph.py:145-229 | different children have different JSON |
| ManifestRoundTrip.AcceptComplete | alembic/versions/c155b2c3d522_fix_forward_corporate_action_authority.py:131-241 | every valid manifest of either shape, written as a payload, is accepted and read back as itself |
| ManifestRoundTrip.AcceptExactly | alembic/versions/c155b2c3d522_fix_forward_corporate_action_authority.py:131-241 | a payload is accepted as a manifest exactly when the manifest is valid (trimmed identities, canonical evidence and children, a governed cohort) and the payload is what it is written as under one of three version tags |
| ManifestRoundTrip.TagExactly | alembic/versions/c155b2c3d522_fix_forward_corporate_action_authority.py:152-159 | the accepted version tags are exactly the number 1, the text "1" and null |
| ManifestRoundTrip.TagsSplitText | alembic/versions/c155b2c3d522_fix_forward_corporate_action_authority.py:131-241 | two accepted tags of one manifest have different canonical texts, so one manifest has three content hashes |
| ManifestRoundTrip.WrittenAcceptedExactly | alembic/versions/c155b2c3d522_fix_forward_corporate_action_authority.py:131-241 | a manifest of normalised values is accepted exactly when its cohort is |
| ManifestRoundTrip.MembersInjective | alembic/versions/c155b2c3d522_fix_forward_corporate_action_authority.py:131-241 | different manifests are written differently |
| ManifestPayload.ForwardExtendsOriginal | alembic/versions/c155b2c3d522_fix_forward_corporate_action_authority.py:88-241 | the replaced function accepts and prints every legacy-shaped payload exactly as the original did |
| ManifestPayload.TextAgreesExactly | alembic/versions/c155b2c3d522_fix_forward_corporate_action_authority.py:131-241 | with distinct child ids, two accepted manifests have the same text exactly when they are equal up to the order of children and dependencies |
| ManifestPayload.ShapesNeverShareText | alembic/versions/c155b2c3d522_fix_forward_corporate_action_authority.py:88-241 | a legacy-shaped and a book-scoped payload never have the same text |
| ManifestPayload.ShapesDisjoint | alembic/versions/c155b2c3d522_fix_forward_corporate_action_authority.py:88-130 | no payload has both shapes |
| ManifestPayload.AcceptedScopeShape | alembic/versions/c155b2c3d522_fix_forward_corporate_action_authority.py:88-130 | an accepted payload carries a scope exactly when it has both scope keys, both holding text |
| ManifestPayload.NormalChildrenAgree | alembic/versions/c152b2c3d519_feat_add_corporate_action_event_graph.py:550-574 | sorting children by id and dependencies by text gives equal lists exactly for rearrangements |
| ManifestPayload.AcceptedCohort | alembic/versions/c152b2c3d519_feat_add_corporate_action_event_graph.py:547-549 | acceptance includes the cohort assertion |
| Ledger.StepKeeps | alembic/versions/c152b2c3d519_feat_add_corporate_action_event_graph.py:835-1193 | every guarded insert and event update keeps the invariant of the tables |
| Ledger.ReachableInv | alembic/versions/c152b2c3d519_feat_add_corporate_action_event_graph.py:835-1193 | every state reached by guarded statements satisfies it |
| Ledger.EpochGuardCoversAll | alembic/versions/c152b2c3d519_feat_add_corporate_action_event_graph.py:1101-1143 | comparing with the latest stored observation alone bounds every earlier epoch of the child |
| Ledger.OneHashPerEpoch | alembic/versions/c152b2c3d519_feat_add_corporate_action_event_graph.py:1101-1143 | in every run, equal epochs of a child carry equal content hashes |
| Ledger.EpochGuardExactly | alembic/versions/c152b2c3d519_feat_add_corporate_action_event_graph.py:1101-1143 | the guard passes exactly when no stored row of the child has a higher epoch and every row of the same epoch has the same hash |
| Constraints.EnabledExactly | alembic/versions/c152b2c3d519_feat_add_corporate_action_event_graph.py:598-1193 | in constrained tables a statement is enabled exactly when its row is new, the opening, epoch and identity rules are kept and the tables after it satisfy every declared type, check, unique and foreign key |
| Constraints.ReachableConstrained | alembic/versions/c152b2c3d519_feat_add_corporate_action_event_graph.py:598-1193 | every reachable state satisfies the declared constraints |
| EventStore.Database.constructor | alembic/versions/c152b2c3d519_feat_add_corporate_action_event_graph.py:600-1193 | a new database is the empty reachable state |
| EventStore.Database.Execute | alembic/versions/c152b2c3d519_feat_add_corporate_action_event_graph.py:835-1193 | a statement is accepted exactly when its guard holds, changes the tables by exactly its row, and a refused one changes nothing; the tables stay reachable |
| EventStore.Database.Submit | alembic/versions/c152b2c3d519_feat_add_corporate_action_event_graph.py:835-1193 | after any workload the tables are the outcome of the accepted statements in order, and the invariant holds |
| Authority.VersionsAreAnInterval | alembic/versions/c152b2c3d519_feat_add_corporate_action_event_graph.py:835-885 | in every run an event's manifest versions are exactly 1..k, without gaps or branches |
| Authority.ChainReachesFirst | alembic/versions/c152b2c3d519_feat_add_corporate_action_event_graph.py:835-885 | following predecessor links from version v reaches version 1 in v-1 steps |
| Authority.BackStep | alembic/versions/c152b2c3d519_feat_add_corporate_action_event_graph.py:835-885 | each link goes, by id and hash, to the immediately preceding version of the same event |
| Authority.AuthorizedExactly | alembic/versions/c152b2c3d519_feat_add_corporate_action_event_graph.py:1350-1400 | the recursive query equals: the sequence is after the opening of the earliest version in the unbroken run of versions that declare the transaction |
| Authority.RunExists | alembic/versions/c152b2c3d519_feat_add_corporate_action_event_graph.py:1360-1385 | for a declared transaction that run exists |
| Authority.RunUnique | alembic/versions/c152b2c3d519_feat_add_corporate_action_event_graph.py:1360-1385 | and is the only one |
| Authority.RetainedUnchanged | alembic/versions/c152b2c3d519_feat_add_corporate_action_event_graph.py:1350-1400 | retaining a transaction in the next version leaves the answer unchanged for every sequence |
| Authority.ReAddedRestarts | alembic/versions/c152b2c3d519_feat_add_corporate_action_event_graph.py:1350-1400 | dropping and re-adding it restarts at the new version's opening |
| Authority.RetentionWidens | alembic/versions/c152b2c3d519_feat_add_corporate_action_event_graph.py:1350-1400 | declaring a transaction never counts fewer observations than not declaring it |
| Authority.UndeclaredCountsAfterOpening | alembic/versions/c152b2c3d519_feat_add_corporate_action_event_graph.py:1350-1400 | an undeclared transaction counts only after the version's own opening |
| Authority.EarlyObservationsCount | alembic/versions/c152b2c3d519_feat_add_corporate_action_event_graph.py:850-859 | version 1 opens at 0, so observations that arrived before it count |
| Authority.AuthorizedMeans | alembic/versions/c152b2c3d519_feat_add_corporate_action_event_graph.py:1350-1400 | declared: after the opening of the earliest version in the unbroken run; undeclared: after the manifest's own opening |
| Openings.LaterVersionOpens | alembic/versions/c152b2c3d519_feat_add_corporate_action_event_graph.py:850-859 | in every state after a later version was inserted, a transaction its predecessor does not declare counts exactly after the event's observation counter at that insert |
| Openings.FirstVersionOpens | alembic/versions/c152b2c3d519_feat_add_corporate_action_event_graph.py:850-859 | in every state after version 1 was inserted, every sequence from 1 on counts for it |
| Openings.OpeningsExactly | alembic/versions/c152b2c3d519_feat_add_corporate_action_event_graph.py:850-859 | the opening sequences a chain of versions can have, over all runs, are exactly those that start at 0 and never fall |
| Authority.LatestHashNeedsNoTieBreak | alembic/versions/c152b2c3d519_feat_add_corporate_action_event_graph.py:1690-1710 | the hash READY selects as latest is the hash of every counted observation of the highest epoch, whatever the sequence tie-break |
| Authority.LatestCountedExists | alembic/versions/c152b2c3d519_feat_add_corporate_action_event_graph.py:1690-1710 | a counted transaction has a latest counted observation |
| Authority.LatestCountedUnique | alembic/versions/c152b2c3d519_feat_add_corporate_action_event_graph.py:1690-1710 | and only one |
| ReadyQueue.TakeReady | src/services/portfolio_transaction_processing_service/app/domain/transaction/event_graph.py:171-185 | the in-degree queue takes the same nodes in the same order as the database's repeated search, and ends with the number of dependencies each node still waits for |
| ReadyQueue.Release | src/services/portfolio_transaction_processing_service/app/domain/transaction/event_graph.py:181-185 | after a node is taken, counters and queue are those of the longer order |
| ReadyQueue.LeftExactly | src/services/portfolio_transaction_processing_service/app/domain/transaction/event_graph.py:187-188 | when the queue runs dry, the nodes left are exactly those on or downstream of a cycle |
| ReadyQueue.CountersExactly | src/services/portfolio_transaction_processing_service/app/domain/transaction/event_graph.py:188 | a counter is non-zero exactly for those nodes |
| ReadyQueue.OnCycleExactly | src/services/portfolio_transaction_processing_service/app/domain/transaction/event_graph.py:274-275 | without self-dependencies a node is on a cycle exactly when its component has more than one node |
| Components.FinishOrder | src/services/portfolio_transaction_processing_service/app/domain/transaction/event_graph.py:231-256 | the iterative forward search finishes every node once, in an order in which each component has a member that finishes after everything it reaches |
| Components.Collect | src/services/portfolio_transaction_processing_service/app/domain/transaction/event_graph.py:263-273 | the backward search from an unplaced start collects exactly its strongly connected component |
| Components.CyclicComponents | src/services/portfolio_transaction_processing_service/app/domain/transaction/event_graph.py:225-276 | the two passes return exactly the strongly connected components of more than one node |
| Components.OnlyOwnComponent | src/services/portfolio_transaction_processing_service/app/domain/transaction/event_graph.py:260-275 | when a start's turn comes, only its own component still reaches it |
| EventGraph.DuplicatesOf | src/services/portfolio_transaction_processing_service/app/domain/transaction/event_graph.py:279-286 | the repeated values of a list |
| EventGraph.Declare | src/services/portfolio_transaction_processing_service/app/domain/transaction/event_graph.py:98-123 | the first definition of each id, and a finding for each later one |
| EventGraph.IdentityExactly | src/services/portfolio_transaction_processing_service/app/domain/transaction/event_graph.py:101-126 | there is no identity finding exactly when ids are distinct |
| EventGraph.CheckNode | src/services/portfolio_transaction_processing_service/app/domain/transaction/event_graph.py:133-158 | the findings of one node's dependency list |
| EventGraph.StructureExactly | src/services/portfolio_transaction_processing_service/app/domain/transaction/event_graph.py:132-169 | there is no structural finding exactly when every dependency is a distinct, other, declared node |
| EventGraph.Wire | src/services/portfolio_transaction_processing_service/app/domain/transaction/event_graph.py:128-166 | dependants, dependencies and counters are those of the declared graph, and the edge count is its size |
| EventGraph.Diagnose | src/services/portfolio_transaction_processing_service/app/domain/transaction/event_graph.py:187-214 | one finding per strongly connected component of more than one node and one per node only downstream of a cycle, naming the stuck nodes it waits for, and no other |
| EventGraph.Resolve | src/services/portfolio_transaction_processing_service/app/domain/transaction/event_graph.py:91-222 | the whole answer on every declaration, phase by phase |
| EventGraph.AnswersMean | src/services/portfolio_transaction_processing_service/app/domain/transaction/event_graph.py:91-222 | a plan is returned exactly for sound acyclic declarations and is then the least topological order under the queue's comparison; otherwise there is a finding |
| EventGraph.EarlierIsTotalOrder | src/services/portfolio_transaction_processing_service/app/domain/transaction/event_graph.py:171-185 | queue entries are totally ordered by key and id |
| EventGraph.TupleLeqExactly | src/services/portfolio_transaction_processing_service/app/domain/transaction/event_graph.py:171-185 | key tuples compare by the first column that differs, and without one the shorter is smaller |
| PlanAgreement.ResolverReturnsAcceptedPlan | src/services/portfolio_transaction_processing_service/app/domain/transaction/corporate_action/event_graph.py:182-211 | for every evaluation the database accepts, every answer of the application's resolver on the manifest's children, in any order of declaration and with any fingerprints, is valid and is the very plan that was accepted |
| PlanAgreement.KeysAgreeExactly | src/services/portfolio_transaction_processing_service/app/domain/transaction/corporate_action/event_graph.py:234-258 | queue entries of zero-padded texts and the database's ORDER BY compare two rows differently exactly when one is a quantity restatement, the other a type without a rank, and the columns after the rank put the restatement first |
| PlanAgreement.EntryHintedFirst | src/services/portfolio_transaction_processing_service/app/domain/transaction/corporate_action/event_graph.py:234-258 | a queue entry with a hint comes strictly before every one of its rank without |
| PlanAgreement.RanksAgreeExactly | src/services/portfolio_transaction_processing_service/app/domain/transaction/corporate_action/ordering.py:43-80 | the application's rank table and the CASE of the scheduler, each written from its own source, agree exactly on the types that are not quantity restatements, which rank 5 in the one and 4 in the other |
| PlanAgreement.SplitOrdersDiffer | src/services/portfolio_transaction_processing_service/app/domain/transaction/corporate_action/ordering.py:63-64 | a split and a fee, alike but for type and id, that the two sides order differently |
| Decimal.DigitsOrder | src/services/portfolio_transaction_processing_service/app/domain/transaction/corporate_action/event_graph.py:252-253 | zero-padded decimals of one width compare as numbers |
| PlanAgreement.GovernedTypes | src/services/portfolio_transaction_processing_service/app/domain/transaction/corporate_action/cohort_policy.py:34-52 | no governed cohort holds a quantity restatement, so the difference never reaches an accepted plan |
| PlanAgreement.NothingFoundExactly | src/services/portfolio_transaction_processing_service/app/domain/transaction/corporate_action/manifest.py:178-202 | the application finds nothing wrong with a manifest exactly when its graph is sound and acyclic and the database's cohort assertion passes |
| CohortFindings.FindingsAgreeExactly | src/services/portfolio_transaction_processing_service/app/domain/transaction/corporate_action/manifest.py:262-489 | for every list of children: no semantic finding, no settlement that repeats a dependency and no later target that takes the id a cash in lieu goes by, exactly when the database's assertion passes, no target names the source twice and no later child takes the source's id |
| CohortFindings.VerdictsDifferExactly | src/services/portfolio_transaction_processing_service/app/domain/transaction/corporate_action/manifest.py:262-489 | the verdicts differ exactly on those four repetitions, two in each direction |
| FindingReasons.ReasonsExactly | src/services/portfolio_transaction_processing_service/app/domain/transaction/corporate_action/manifest.py:284-489 | for every list of children, exactly which findings are reported and which children each names, written as conditions on types, roles, instruments and dependencies |
| CohortFindings.PoliciesAgree | src/services/portfolio_transaction_processing_service/app/domain/transaction/corporate_action/cohort_policy.py:34-52 | the application's policy table and the CASE of the assertion, each written from its own source, give every type the same policy |
| CohortFindings.OverlaysAgree | src/services/portfolio_transaction_processing_service/app/domain/transaction/corporate_action/manifest.py:274-280 | and every other type the same role |
| CohortFindings.TargetAgrees | src/services/portfolio_transaction_processing_service/app/domain/transaction/corporate_action/manifest.py:405-446 | a target has no finding exactly when it passes the database's rule, names the source only once and no later child has the source's id |
| CohortFindings.OverlayAgrees | src/services/portfolio_transaction_processing_service/app/domain/transaction/corporate_action/manifest.py:449-489 | a cash, settlement, fee or tax child has no finding, as a settlement no repeated dependency and as cash in lieu a target not hidden by a later one, exactly when it passes the database's rule |
| CohortFindings.DoubledTargetDiffers | src/services/portfolio_transaction_processing_service/app/domain/transaction/corporate_action/manifest.py:432-440 | a target naming its source twice passes the database's assertion and has a finding |
| CohortFindings.DoubledSettlementDiffers | src/services/portfolio_transaction_processing_service/app/domain/transaction/corporate_action/manifest.py:486-487 | a settlement naming its consideration twice has no finding and fails the assertion |
| CohortFindings.HiddenSourceDiffers | src/services/portfolio_transaction_processing_service/app/domain/transaction/corporate_action/manifest.py:432-441 | a cash consideration with the source's id passes the assertion and gives the target a finding |
| CohortFindings.HiddenTargetDiffers | src/services/portfolio_transaction_processing_service/app/domain/transaction/corporate_action/manifest.py:478-485 | cash in lieu of a target redeclared for another instrument has no finding and fails the assertion |
| LotCleanup.PlanIsSafe | tools/lot_evidence_cleanup.py:34-67 | on every consistent database and for every selector, each prefix of either plan keeps all lot-evidence foreign keys and the all-or-none carry shape, and the plan ends in the cleaned tables |
| LotCleanup.CleanedMeans | tools/lot_evidence_cleanup.py:34-67 | no selected evidence is left, unselected rows are exactly the ones there were, selected lots lose their carry columns and nothing else and every one left is such a lot, the periods that stay are those of the profiles that stay, and preserve mode keeps profiles, periods and authority as they were |
| LotCleanup.ConsistentExactly | alembic/versions/c143b2c3d510_fix_conserve_amortized_cost_residual.py:51-64 | a database is consistent exactly when every lot has all carry columns or none, profile versions are unique, and profiles, authority, receipts and allocations are of the very lot, portfolio and security they are named for |
| LotCleanup.SelectionExactly | tools/lot_evidence_cleanup.py:13-29 | exact mode selects one portfolio, prefix mode with a selector free of special characters those that start with it, and there is no other mode |
| LotCleanup.LotDeleteAfterPlan | tools/front_office_portfolio_seed.py:345-350 | the lot delete that follows is always safe after the full plan, and in preserve mode exactly when no selected profile and no selected authority exists |
| LotCleanup.LeafStatementsSafe | tools/lot_evidence_cleanup.py:37-56 | clearing the carry binding and deleting allocations, periods or authority is safe in every consistent database |
| LotCleanup.DisposalReceiptsSafeExactly | alembic/versions/c141b2c3d50e_feat_add_lot_disposal_receipts.py:228-238 | disposal receipts may go exactly when none of their allocations is left |
| LotCleanup.TransferReceiptsSafeExactly | alembic/versions/c146b2c3d513_feat_add_lot_basis_transfer_receipts.py:258-268 | transfer receipts may go exactly when none of their allocations is left |
| LotCleanup.ProfilesSafeExactly | alembic/versions/c143b2c3d510_fix_conserve_amortized_cost_residual.py:51-64 | profiles may go exactly when no period, lot or disposal refers to a selected one |
| LotCleanup.LotsSafeExactly | alembic/versions/c139b2c3d50c_feat_add_lot_amortized_cost_profiles.py:155-164 | lots may go exactly when no selected profile, authority or allocation is left |
| LotCleanup.BoundLotBlocksBoth | tools/lot_evidence_cleanup.py:35-46 | while a selected lot is bound to a profile, neither lots nor profiles can be deleted first |
| LotCleanup.Session.constructor | tools/lot_evidence_cleanup.py:34-67 | a session starts with the given tables |
| LotCleanup.Session.Execute | tools/lot_evidence_cleanup.py:34-67 | a statement that would break a key raises and changes nothing |
| LotCleanup.Session.Cleanup | tools/lot_evidence_cleanup.py:13-67 | the builder fails exactly on an unsupported match mode; otherwise the plan runs through without a violation and leaves the cleaned tables |
| LotCleanup.ResetLots | tools/front_office_portfolio_seed.py:449-494 | a bounded replay is refused exactly when profiles or authority are retained; every reset that is admitted runs through |
| LikePattern.PrefixModeExactly | tools/lot_evidence_cleanup.py:27-29 | prefix mode selects the portfolios that start with the selector exactly when the selector has no percent sign, underscore or backslash |
| LikePattern.LikeExactly | tools/lot_evidence_cleanup.py:27-29 | a text matches a pattern exactly when it can be cut into one piece for each token: any text, one character, or the character itself |
| LikePattern.UnderscoreOverreaches | tools/lot_evidence_cleanup.py:27-29 | a selector with an underscore that also takes in another portfolio |
| LikePattern.SqlLiteralRoundTrip | tools/lot_evidence_cleanup.py:70-73 | a quoted value is read back as that value and the statement goes on right after it, whatever it holds |
| IndexSeries.LevelAt | tools/demo_data_pack.py:242-251 | the level of a date before or after the anchor; raises exactly when a factor between an earlier date and the anchor is zero |
| IndexSeries.BuildSeries | tools/demo_data_pack.py:225-299 | fails exactly on unordered dates or such a zero factor; otherwise every streamed price is the level of its date and every return the date's, and without a stated anchor the first price is the start level |
| IndexSeries.LevelStep | tools/demo_data_pack.py:242-251 | each level is the previous day's grown by the day's factor, on both sides of the anchor |
| IndexSeries.LevelUnique | tools/demo_data_pack.py:242-251 | the levels are the only such path through the anchor |
| IndexSeries.WindowsAgree | tools/demo_data_pack.py:253-282 | two windows with one anchor agree on every shared date |
| IndexSeries.ConsecutivePrices | tools/demo_data_pack.py:258-282 | between consecutive days the price moves by exactly the published return |
| IndexSeries.AnchorObservation | tools/demo_data_pack.py:262-263 | on the anchor the price is the start level and the return zero |
| IndexSeries.AnchorsAgreeExactly | tools/demo_data_pack.py:230 | two anchors give a shared later date the same level for every shape of returns exactly when they are equal or the start level is zero, so windows without a stated anchor need not agree |
| BusinessCalendar.NextBusinessDate | tools/front_office_portfolio_seed.py:656-660 | the first weekday on or after the date; it never raises, because the last date is a Friday |
| BusinessCalendar.AdvanceBusinessDays | tools/front_office_portfolio_seed.py:663-667 | equals the closed form from the rolled start, and raises exactly when that passes the last date |
| BusinessCalendar.BusinessDates | tools/front_office_portfolio_seed.py:637-644 | exactly the weekdays of the range in order; raises exactly when a non-empty range ends on the last date |
| BusinessCalendar.AdvancedStep | tools/front_office_portfolio_seed.py:663-667 | one more day of the closed form is the next weekday |
| BusinessCalendar.AdvancedAdds | tools/front_office_portfolio_seed.py:663-667 | advancing is additive |
| BusinessCalendar.NthBusinessDay | tools/front_office_portfolio_seed.py:637-667 | advancing n days is the n-th entry of the weekday list from the rolled start, and the list is as long as those stay in range |
| BusinessCalendar.AdvancedReachesAll | tools/front_office_portfolio_seed.py:663-667 | every later weekday is reached by one count and only one |
| BusinessCalendar.WeekdaysFollow | tools/front_office_portfolio_seed.py:637-667 | weekdays follow each other from Monday 1 January 1, and the last date is Friday 31 December 9999 |
| CarryMigration.LotTable.constructor | alembic/versions/c144b2c3d511_fix_separate_amortized_book_carry.py:28-48 | a table before the upgrade |
| CarryMigration.LotTable.Upgrade | alembic/versions/c144b2c3d511_fix_separate_amortized_book_carry.py:28-47 | succeeds exactly when the guard passes; the constraints created afterwards cannot fail; a refused upgrade leaves the table as it was |
| CarryMigration.LotTable.Downgrade | alembic/versions/c144b2c3d511_fix_separate_amortized_book_carry.py:50-62 | always succeeds and keeps the older constraints |
| CarryMigration.GuardExactly | alembic/versions/c144b2c3d511_fix_separate_amortized_book_carry.py:89-113 | the guard passes exactly when no row with a profile joins a source that is missing, not a purchase, without usable amounts, smaller than the open quantity, or followed by a basis mutation |
| CarryMigration.ConstraintsExactly | alembic/versions/c144b2c3d511_fix_separate_amortized_book_carry.py:115-150 | the model's row checks are the two declared constraints: carry columns all null or all present, and their values in range |
| CarryMigration.AmountsExactly | alembic/versions/c110b2c3d4ef_feat_enforce_cost_lot_integrity.py:24-43 | the checks the migration leaves alone: quantities and costs not negative, no more open than original, amounts of eighteen digits |
| CarryMigration.RoundTrip | alembic/versions/c144b2c3d511_fix_separate_amortized_book_carry.py:28-62 | upgrade then downgrade leaves the table as it was |
| CarryMigration.UpgradedRow | alembic/versions/c144b2c3d511_fix_separate_amortized_book_carry.py:35-46 | a guarded row meets every shape, sign and range constraint, its new costs lie between zero and the net costs, and a row without a profile is untouched |
| CarryMigration.UpgradeDowngrade | alembic/versions/c144b2c3d511_fix_separate_amortized_book_carry.py:35-62 | the inverse, row by row |
| CarryMigration.DowngradeUpgradeExactly | alembic/versions/c144b2c3d511_fix_separate_amortized_book_carry.py:35-62 | downgrade and upgrade restore a lot exactly when its costs already are the rebased ones |
| CarryMigration.DowngradeUpgradeWritten | alembic/versions/c144b2c3d511_fix_separate_amortized_book_carry.py:35-62 | that is, exactly when an upgrade wrote it |
| CarryMigration.CostForgotten | alembic/versions/c144b2c3d511_fix_separate_amortized_book_carry.py:35-62 | a lot whose cost of one unit comes back as two |
| CarryMigration.DowngradeUpgradeFullyOpen | alembic/versions/c144b2c3d511_fix_separate_amortized_book_carry.py:35-62 | for a fully open lot, exactly when its costs are the net costs of its purchase |
| CarryMigration.DowngradeUpgradeNearest | alembic/versions/c144b2c3d511_fix_separate_amortized_book_carry.py:35-62 | then the lot's costs are within one unit of the exact open share |
| CarryMigration.DowngradeUpgradeSettles | alembic/versions/c144b2c3d511_fix_separate_amortized_book_carry.py:35-62 | a second downgrade and upgrade changes nothing any more |
| CarryMigration.RebasedBounds | alembic/versions/c144b2c3d511_fix_separate_amortized_book_carry.py:39-42 | after both roundings the rebased cost is between zero and the net cost |
| CarryMigration.RoundDivExactly | alembic/versions/c144b2c3d511_fix_separate_amortized_book_carry.py:39-42 | the rounded quotient is the nearest integer, and of two equally near the one further from zero |
| CarryMigration.FullyOpenIsExact | alembic/versions/c144b2c3d511_fix_separate_amortized_book_carry.py:39-42 | a fully open lot is rebased to its net cost exactly |
| CarryMigration.RebasedNearest | alembic/versions/c144b2c3d511_fix_separate_amortized_book_carry.py:39-42 | the two roundings together stay within half a unit, plus half a unit of the finer scale, of the exact share |

## Left out

- SHA-256 itself, row locks and concurrent transactions: a collision-free function and atomic steps stand for them.
- The hex format of digest columns and the uniqueness of evaluations per event and state version: single-column checks.
- Index-only and column-only migrations, and plain checks of tables that no result here reads: no behaviour beyond one predicate.
- Manifest rows inserted before the book-scope trigger existed: the model's runs start with the trigger in place.
- ReadinessSpec.ReadyExactly: a counted observation whose payload is malformed makes the model's trigger raise whatever the query plan, because which rows the engine evaluates the hash on is not specified.
- ReadyAttainable.AttainableExactly: integer and timestamp columns are bounded, the length of texts is not, because their columns declare none.
- Json.ReadValueRoundTrip: the reader takes neither white space nor exponent forms, because the printer emits neither.
- Cohort.CheckGoverns: states when a cohort is refused, not with which of the five messages, because every one has the same error code.
- ChildPayload.AcceptSound: the same for the messages of the child payload function.
- ManifestRoundTrip.AcceptExactly: the same for the messages of the manifest payload function.
- EventGraph.Resolve: findings are a set, so their sort order and multiplicity are not stated, because they only affect presentation.
- Components.CyclicComponents: components are sets of ids, not sorted tuples, because sorting is the last step and presentation only.
- The application's AWAITING statuses and its comparison of observed with expected children: set differences that the READY specification already states on the database side.
- Trimming of Unicode white space and upper-casing of types by the application: manifests and children enter the model already normalised.
- Decimals, dates, enumerations and sets in the application's canonical values: no manifest, child or plan holds one.
- Payloads of the older shape without book scope as the application rebuilds them: the hashed text differs only by two missing members.
- IndexSeries.BuildSeries: exact reals, without binary floating point and without the ten-digit rendering of prices and returns, because rounding is not the point of the series.
- The sine and cosine that shape a daily return: the return is any function of the offset.
- BusinessCalendar.BusinessDates: days are ordinals, not ISO texts, because the text form adds nothing to the order.
- Whole-portfolio cleanup beyond the lot-evidence tables, and keys from them to portfolios, instruments and transactions: the plan never deletes those rows.
- LotCleanup.ResetLots: only the two counts of the replay admission that concern the lot tables, because the others read tables outside the plan.
- CarryMigration.LotTable.Upgrade: amounts are finite, because separate constraints already exclude NaN and infinities from the columns it reads.
- HTTP, message queues, leases, outbox ordering, command-line tools and seed data: plumbing, or fixed values.
