# OMODA and COCO: a verified model

OMODA turns a recorded human consent into a short-lived capability; COCO (`see/`) is the perception
half that feeds it. This project models the parts of both whose behaviour is hard to see from one
function body, and proves what they promise.

* **The road lattice** (`Lattice`, `RoadHoles`, `RoadRepair`, `PaintRuns`, `PaintFit`, `FitMarkings`, `Sums`,
  `PaintMeans`, `PaintBlocks`).
  The flood from the border, the grouping of holes and the rim-inward passes work on arrays with
  worklists, as in the viewer. They are proved against reachability on the lattice: a cell is paved
  exactly when it is road, or when it lies in an enclosed 4-connected component of at most 6% of the
  road's area, and every paved hole cell lies at the mean of its neighbours one step nearer to the road. Every
  pass over waiting cells settles one, so the early exit of the pass loop is never taken. The paint fit is
  proved in exact real arithmetic, down to which runs are drawn at all.
* **The ledger** (`JsonText`, `JsonNumbers`, `JsonSpelling`, `CanonicalJson`, `LedgerRecords`, `LedgerChain`,
  `LedgerStore`) and **the brace walk** (`JsonScanner`) share one model of JSON text over UTF-16
  units (RFC 8259; string escapes as in its section 7). A `Tree` is any spelling of a value: any
  white space, any admissible escape; a text parses exactly when it is such a spelling
  (`JsonReading`). SHA-256 is a function parameter of fixed output length,
  assumed collision-free only on the texts that are actually hashed.
* **Consent and capability** (`Taxonomy`, `IntentRecords`, `DecisionInvariant`, `IntentClauses`,
  `IntentStore`, `Broker`, `BrokerClauses`, `ConsentSafety`, `ConsentRuns`, `ConsentTraces`, `PolicyDelta`,
  `OpenShell`, `PolicyCompile`, `PolicyMerge`). The intent store, the broker and the policy port are classes. The broker leaves a
  ghost trace of its effects, every external call may fail, and the main theorems are about runs in
  which store operations and the single events of any number of overlapping broker calls interleave
  at will.
* **Windows, buckets and queues** (`RateLimiter`, `NonceCache`, `DropOldQueue`, `StreamIngest`,
  `IncidentJudge`). Each is a class whose fast representation is tied to a rule over the history of
  calls.
* **The binary frame** (`FrameBytes`, `FrameCodec`, `FrameLayout`). The Python packer and the TypeScript decoder
  meet in one layout; a float32 is its 32-bit pattern.

Imperative code is imperative here: each such method is proved against a specification function or
predicate, and the properties are lemmas about that specification. What a specification shares with the
code it specifies (a mean, a sign, a comparison, a copied field) is stated once more without it:
`RoadRepair.HoleCellIsAverage`, `PaintMeans.DrawsNothingExactly`, `IntentClauses`, `BrokerClauses`,
`LedgerChain.RecordHolds` and `FrameLayout` do that, and short lemmas such as `RoadRepair.RoadIs` or
`LedgerChain.KeysAreSpelled` spell out the constants. `hide` statements inside proofs
keep each obligation small.

## Where the code and its own words differ

The model follows the code. Each of these is a lemma.

* The viewer's "principal axis" falls back to the x axis when the closed form is shorter than 1e-12.
  That happens for every run whose moments are aligned with the axes and larger along z. Every run of
  six or more cells painted along z is one: it is drawn, with an axis that lies across the paint
  (`PaintFit.AxisIsPrincipal` gives the exact condition, `FitMarkings.StripeIsDrawnAcross` the runs).
* A ledger entry that brings a `hash` key of its own makes `verify` fail on a chain nobody touched,
  and no other entry does (`LedgerChain.AppendKeepsChain`).
* A vote taken before its action is registered asks for one approval, and the broker executes on it
  even after the action has been registered as one that needs two people. A settled approval is
  backed by the action's quorum exactly when the quorum recorded in it is at least that quorum
  (`ConsentRuns.BackedExactlyWhenQuorumMatches`, `ConsentRuns.LateRegistrationExecutesOnOneApproval`).
* A decision is bound by action id alone. One that verifies executes whatever consequential action a
  newly proposed intent registers under that id, with no approval of that intent's own
  (`ConsentRuns.SharedIdExecutesUnbacked`); with ids unique across intents this cannot happen.
* A revert gives endpoints without a rules list an empty one, and takes out rules with its tag that
  were in the document before, left by an earlier process for instance. With nothing open the document
  is restored exactly when no revert ran, or every endpoint had a list and no rule of it a reverted tag
  (`PolicyDelta.RestoredExactly`).
* A history of the nonce cache can accept one signature twice exactly when the signature is dated, in
  its window, at or after its first acceptance; an earlier one is never accepted again
  (`NonceCache.ReplayExactly`, `NonceCache.NoReplay`).
* Two declared hosts and ports with one policy key (two ports of a host, or `a.b` and `a-b`) lose
  grants in a compiled fragment (`PolicyCompile.SharedKeyReplaces`, `PolicyCompile.SeparatorsShareKey`),
  and in the merge the later host's rules land on the earlier one
  (`PolicyMerge.LaterRulesLandOnTheEarlierHost`).
* The merge looks its keys up in a plain object, so a declared host whose key is `constructor` makes it
  raise; no other inherited name has the shape of a key (`PolicyMerge.FailsExactly`). It returns, and
  grants exactly what is declared, if and only if there is no such host and no two hosts and ports share
  a key (`PolicyMerge.MergeIsTheUnionExactly`).
* A bar in a camera id behind its first character, or in an incident type, makes another camera's quiet
  observations count for that incident and clear it (`IncidentJudge.StrangersClear`). A row follows its
  own camera over every history exactly when there is no such bar (`IncidentJudge.OwnHistoryExactly`).
* A debounce key stands for one detector, camera and class as long as detector and camera hold no bar
  (`StreamIngest.DebounceKeyIs`); a bar moves from one to the other without changing the key, so that
  different detectors debounce each other (`StreamIngest.BarMovesBetweenFields`).

## Model

| member | source | states |
|---|---|---|
| Lattice.AdjacentSymmetric | see/webapp/frontend/src/components/cloud/surfaceMesh.ts:281-281 | the four-candidate neighbour list, with its column tests, relates two cells in both directions |
| Lattice.AdjacentIs | see/webapp/frontend/src/components/cloud/surfaceMesh.ts:281-281 | two cells are neighbours exactly when they are one row apart in a column or next to each other in one row |
| Lattice.EdgeIs | see/webapp/frontend/src/components/cloud/surfaceMesh.ts:269-277 | the flood starts from exactly the cells in the first or last column or with nothing above or below them |
| RoadHoles.FloodOutside | see/webapp/frontend/src/components/cloud/surfaceMesh.ts:265-286 | the border flood marks exactly the non-road cells from which a path avoiding road leads to the border |
| RoadHoles.FloodComplete | see/webapp/frontend/src/components/cloud/surfaceMesh.ts:278-286 | once nothing is queued the marked set is closed and so is the whole outside, not just part of it |
| RoadHoles.GatherHole | see/webapp/frontend/src/components/cloud/surfaceMesh.ts:300-315 | the list that is its own queue ends as the whole 4-connected component of its root, each cell once, and marks exactly those |
| RoadHoles.CollectHoles | see/webapp/frontend/src/components/cloud/surfaceMesh.ts:288-317 | the patch lists, each once, exactly the enclosed cells whose component is at most 6% of the road area |
| RoadRepair.WithinIsDistance | see/webapp/frontend/src/components/cloud/surfaceMesh.ts:319-349 | the layer recursion is lattice distance: a cell is in layer k or below exactly when a walk of at most k steps joins it to road |
| RoadRepair.SomeCellSettles | see/webapp/frontend/src/components/cloud/surfaceMesh.ts:347-347 | with anything pending, some pending cell touches a settled one, so the exit for a pass that settles nothing is never taken |
| RoadRepair.Diffuse | see/webapp/frontend/src/components/cloud/surfaceMesh.ts:319-349 | the in-place passes with mark 2 produce, pass by pass, the layered states, and end with every hole cell settled |
| RoadRepair.SolidRoad | see/webapp/frontend/src/components/cloud/surfaceMesh.ts:248-351 | filled is exactly usable road plus small enclosed components; road keeps its measured position; in the final array every hole cell lies, on both axes, at the mean of those of its four neighbours that are one step nearer to the road |
| RoadRepair.HoleCellIsAverage | see/webapp/frontend/src/components/cloud/surfaceMesh.ts:337-343 | of any complete repair: the number of neighbours one step nearer to the road times the coordinate is the sum of theirs, written out over the four neighbours of the final array |
| RoadRepair.SettlesAtItsDistance | see/webapp/frontend/src/components/cloud/surfaceMesh.ts:326-346 | a hole cell goes from open to settled on pass k exactly when its grid distance to the road is k |
| RoadRepair.RepairIsUnique | see/webapp/frontend/src/components/cloud/surfaceMesh.ts:322-349 | any two complete layered repairs end in the same arrays, so the order of the patch does not matter |
| RoadRepair.PositionInRange | see/webapp/frontend/src/components/cloud/surfaceMesh.ts:341-342 | averaging keeps every settled coordinate within the bounds of the road's own |
| RoadRepair.RepairStaysInRange | see/webapp/frontend/src/components/cloud/surfaceMesh.ts:319-350 | every position of the finished repair lies within the extent of the measured road, on either axis |
| PaintRuns.GatherRun | see/webapp/frontend/src/components/cloud/surfaceMesh.ts:379-394 | the stack walk lists one whole 4-connected run of usable marking cells, each once, and marks exactly those |
| PaintFit.LongAxisScales | see/webapp/frontend/src/components/cloud/surfaceMesh.ts:418-428 | away from the fallback the closed form is a unit eigenvector of the moments, for the larger eigenvalue |
| PaintFit.AxisIsPrincipal | see/webapp/frontend/src/components/cloud/surfaceMesh.ts:418-428 | the axis is always a unit vector; it is an eigenvector exactly when the length test passes or the mixed moment is 0, and the direction of most spread exactly when the test passes or also xx is at least zz |
| PaintFit.ZeroLengthAxis | see/webapp/frontend/src/components/cloud/surfaceMesh.ts:421-425 | at length exactly 0 the fallback is an eigenvector still, and the spread along z is at least that along x |
| PaintFit.StripeAlongZ | see/webapp/frontend/src/components/cloud/surfaceMesh.ts:418-425 | every aligned run with more spread along z gets the x axis, which is not its principal axis |
| PaintFit.StripeGetsTheXAxis | see/webapp/frontend/src/components/cloud/surfaceMesh.ts:397-425 | every run of cells at one x and more than one z has no spread along x and no mixed moment, and gets the x axis, which is not its principal axis |
| PaintFit.FindBox | see/webapp/frontend/src/components/cloud/surfaceMesh.ts:430-443 | the four running extremes are the tightest box of the run in the frame of centre and axis |
| PaintFit.FindMoments | see/webapp/frontend/src/components/cloud/surfaceMesh.ts:408-417 | the three running sums are the second moments of the run about its centre |
| PaintFit.CornersAreRectangle | see/webapp/frontend/src/components/cloud/surfaceMesh.ts:463-470 | the four emitted corners form a rectangle: right angle at p0 and p2 opposite it |
| PaintFit.RectangleHoldsRun | see/webapp/frontend/src/components/cloud/surfaceMesh.ts:430-470 | every cell of the run is p0 plus fractions between 0 and 1 of the two sides |
| PaintFit.RectangleIsTight | see/webapp/frontend/src/components/cloud/surfaceMesh.ts:430-470 | one side of the rectangle runs along the axis, and each of the four sides has a cell of the run on it |
| PaintMeans.CentreIs | see/webapp/frontend/src/components/cloud/surfaceMesh.ts:397-404 | the centre is the mean of the cells over both axes |
| PaintMeans.SpreadIs | see/webapp/frontend/src/components/cloud/surfaceMesh.ts:408-417 | the three moments hold the summed squared offset of the cells along every direction |
| PaintMeans.AxisTakesMostSpread | see/webapp/frontend/src/components/cloud/surfaceMesh.ts:408-428 | above the length threshold no direction has more of the run's squared offsets from its mean than the axis it gets |
| PaintMeans.SpacingIs | see/webapp/frontend/src/components/cloud/surfaceMesh.ts:450-457 | the running pair sums are the number and the total length of the right-hand pairs of the run, in whatever order it is listed |
| PaintMeans.DrawsNothingExactly | see/webapp/frontend/src/components/cloud/surfaceMesh.ts:395-461 | a run draws nothing if and only if it has fewer than six cells, or has a right-hand pair and a box of positive area and 100 cells times the squared total length is below 55 times the squared pair count times the area |
| PaintBlocks.BlockIsDrawn | see/webapp/frontend/src/components/cloud/surfaceMesh.ts:395-470 | every full block of w by h cells at one spacing, with at least six cells, is drawn, along x |
| FitMarkings.PairInsideRun | see/webapp/frontend/src/components/cloud/surfaceMesh.ts:451-456 | the spacing test on the cell to the right, which reads the shared marks, picks exactly the pairs inside the run |
| FitMarkings.FitMarkings | see/webapp/frontend/src/components/cloud/surfaceMesh.ts:363-466 | usable marking cells are split into whole components, no cell in two; what is written is each run's piece in order |
| FitMarkings.DrawnRunIsCovered | see/webapp/frontend/src/components/cloud/surfaceMesh.ts:395-470 | a run that is drawn has at least six cells, and its two triangles lie on one level rectangle that runs along its axis, contains all of them and has one on every side |
| FitMarkings.StripeIsDrawnAcross | see/webapp/frontend/src/components/cloud/surfaceMesh.ts:395-470 | such a run of at least six cells passes the fill test and is drawn, with the x axis |
| JsonSpelling.ReadRender | src/models/client.js:142-142 | a reader of JSON text returns the value of any spelling and stops at its end, whatever delimiter-led text follows |
| JsonSpelling.PrintIsASpelling | src/ledger/ledger.js:71-71 | JSON.stringify prints a well-formed spelling of the very value |
| JsonSpelling.ParsePrint | src/ledger/ledger.js:48-71 | parsing what was printed gives the value back |
| JsonReading.TreeAt | src/models/client.js:142-142 | every text the reader accepts is the rendering of a well-formed spelling of the value it returns, to the unit |
| JsonReading.ParsesExactly | src/models/client.js:142-142 | a text parses as a value if and only if it is one of the value's spellings with space around it |
| JsonText.EscapesAre | src/ledger/ledger.js:71-71 | which escape each code unit is printed as: the two-character ones, \u with four digits for other controls and lone surrogates, itself otherwise |
| JsonNumbers.NumberIs | src/models/client.js:142-142 | the test for a number accepts exactly an optional minus, an integer part without a needless leading zero, an optional fraction and an optional exponent (section 6 of RFC 8259) |
| CanonicalJson.BeforeIs | src/ledger/ledger.js:19-19 | the order of the keys: by the smaller unit at the first difference, a proper prefix first |
| CanonicalJson.AscendingUnique | src/ledger/ledger.js:19-19 | there is one ascending list of given keys, so sorting forgets insertion order and nothing else |
| CanonicalJson.ReadCanonical | src/ledger/ledger.js:16-20 | the canonical text, with anything delimiter-led behind it, reads back as the value with its keys sorted at every depth, and leaves the rest |
| CanonicalJson.CanonicalDeterminesValue | src/ledger/ledger.js:15-20 | two JSON values have the same canonical text if and only if they differ in key order only |
| LedgerChain.StepBack | src/ledger/ledger.js:22-24 | equal hashes at two positions give equal records there and equal previous hashes |
| LedgerChain.TipDeterminesHistory | src/ledger/ledger.js:86-96 | two verifying chains of one length with one last hash hold the same records up to key order |
| LedgerChain.TipDeterminesLength | src/ledger/ledger.js:86-96 | the length too, when nothing hashed gives the genesis value |
| LedgerChain.GenesisInside | src/ledger/ledger.js:13-24 | two verifying chains of different length with one tip exhibit a text that hashes to the genesis value |
| LedgerChain.RecordLinks | src/ledger/ledger.js:66-67 | the record an append writes passes one step of verify exactly when its entry had no hash key |
| LedgerChain.RecordHolds | src/ledger/ledger.js:65-68 | the record holds under every key but seq, prevHash, at and hash what the entry holds, those two for number and link, the entry's own stamp unless it is missing or null, and the hash of the rest |
| LedgerChain.AppendKeepsChain | src/ledger/ledger.js:64-96 | appending to a verifying chain keeps it verifying if and only if the entry has no hash key |
| LedgerStore.LoadDisk | src/ledger/ledger.js:44-53 | splitting the written file at newlines and parsing gives back exactly the records, whatever their strings hold |
| LedgerStore.ReloadIsIdentity | src/ledger/ledger.js:42-57 | reopening a sound ledger yields the same records, number and tip |
| LedgerStore.RunIsSound | src/ledger/ledger.js:37-96 | after any appends, failed appends and reloads the records are numbered 1..n, the chain verifies and the file holds them |
| LedgerStore.Ledger.Reload | src/ledger/ledger.js:42-57 | the loop over the lines stops at the first unreadable one and leaves number and hash of the last record read |
| LedgerStore.Ledger.Append | src/ledger/ledger.js:64-84 | the whole new state; the record returned holds the entry under every key that is not the ledger's own, with its stamp, number, link and hash; a failed or broken append changes nothing |
| LedgerStore.AppendedIsReadBack | src/ledger/ledger.js:42-84 | a later reload reads the earlier records and, behind them, one that holds the appended entry, a hash key of its own included |
| LedgerStore.Ledger.Verify | src/ledger/ledger.js:86-96 | verified exactly when every record links to the one before; otherwise the first record that does not, its number, and which of the two tests it failed |
| JsonScanner.ExtractJson | src/models/client.js:126-148 | the index loop returns what the recursive walk cuts out, or nothing |
| JsonScanner.WalkObject | src/models/client.js:131-146 | from its opening brace any spelling of an object leads to its own closing brace and no other, at any depth |
| JsonScanner.ExtractIsExact | src/models/client.js:118-148 | for any spelling of an object, any prefix without an opening brace and any suffix, the slice is exactly that object's text and parses to its value |
| JsonScanner.ExtractIsExactlyTheText | src/models/client.js:118-148 | for every text that reads as an object, any prefix without an opening brace and any suffix, the slice is that text and its value is returned |
| JsonScanner.ExtractPrinted | src/models/client.js:118-148 | in particular a printed object comes back as the same value |
| Taxonomy.NormalizeImpact | src/domain/taxonomy.js:44-51 | the loop keeps the known impacts in order of first mention |
| Taxonomy.NormalizedIs | src/domain/taxonomy.js:44-51 | normalising keeps exactly the known impacts, each once, and is idempotent |
| Taxonomy.ConsentKindIs | src/domain/taxonomy.js:54-70 | each kind of consent, in terms of the declaration as written, both ways |
| Taxonomy.ConsentMeansNoWriteMethod | src/domain/taxonomy.js:77-94 | a declared call is consequential exactly when it needs consent, and then compiles to GET alone; a write method exists exactly for contained calls |
| Taxonomy.ClassifyIs | src/domain/taxonomy.js:44-83 | each of the five tiers, both ways, in terms of the call and its declaration as written |
| Taxonomy.MethodsAre | src/domain/taxonomy.js:39-94 | the exact methods of every verb, with and without an impact, and which verbs need an inverse |
| DecisionInvariant.KeyInjective | src/api/intents.js:145-145 | the joined key of intent and action tells both apart, since generated intent ids hold no colon |
| DecisionInvariant.VoteKeepsConsistent | src/api/intents.js:136-195 | recording a vote that passed every check keeps one action's record consistent: approvers are the deciders of its approvals, distinct, never the proposer, at most one settled decision and it is the last |
| DecisionInvariant.RunKeeps | src/api/intents.js:26-195 | every sequence of propose, awaitConsent, update and decide keeps that for every intent and action |
| DecisionInvariant.SettledApprovalIsBacked | src/api/intents.js:164-194 | a settled approval is the last decision on its action, rests on exactly its quorum of different people other than the proposer, and is never a two-person one in a single-operator store |
| DecisionInvariant.OpenActionIsShort | src/api/intents.js:174-193 | an action that is not final has fewer approvals than its quorum and nothing settled |
| IntentStore.IntentStore.Propose | src/api/intents.js:56-85 | a known key returns its intent and changes nothing; otherwise the whole new store, with an intent whose proposer is the caller, invariant kept |
| IntentStore.IntentStore.Update | src/api/intents.js:96-121 | the status of each refusal in the order of the checks, and the whole new store; decisions are untouched |
| IntentStore.IntentStore.Decide | src/api/intents.js:136-195 | the status of each refusal in order, the recorded decision, and the whole new store, invariant kept |
| IntentClauses.ProposeClauses | src/api/intents.js:56-85 | a proposal is answered with an old intent exactly when its key is known; otherwise the new intent is the caller's, holds what was proposed, starts empty, and nothing else moves |
| IntentClauses.AwaitClauses | src/api/intents.js:124-130 | a registered action comes last in the list, the intent awaits consent, and proposer and decisions stay |
| IntentClauses.UpdateClauses | src/api/intents.js:96-121 | each status if and only if its cause; only the proposer of an open intent changes it, field by field, and what the patch leaves out stays |
| IntentClauses.VoteClauses | src/api/intents.js:136-195 | which votes are recorded, in terms of the store before; the record holds the voter, the intent's proposer, the reason, the quorum and an expiry of two minutes |
| IntentClauses.FindIsFirst | src/api/intents.js:150-152 | the action a vote is about is the first registered under its id |
| IntentClauses.QuorumOfAction | src/api/intents.js:150-155 | two people exactly when that registration deletes with a financial or legal impact, otherwise one |
| IntentClauses.ProposerStands | src/api/intents.js:56-195 | over every run the intent made by a Propose keeps the caller of that Propose as its proposer |
| IntentClauses.ProposerNeverDecides | src/api/intents.js:56-195 | over every run no decision on it is that caller's, a vote of that caller is refused, and an update of that caller is never answered 403 |
| Broker.Broker.Authorize | src/broker/authorize.js:40-169 | the sequence of effects and the result, for every pattern of failing calls |
| Broker.Broker.RunConsented | src/broker/authorize.js:138-168 | the effects of the try block and its finally in each outcome, including a revert that fails |
| BrokerClauses.VerifiedExactly | src/broker/decision.js:14-62 | a decision verifies if and only if it approves, is for the action, unspent, settled, unexpired, not its own proposer's, in scope and reasoned |
| BrokerClauses.ExecutesExactly | src/broker/authorize.js:67-142 | the executor runs if and only if the call passes every test and, when it is consequential, the delta could be applied |
| BrokerClauses.ResultIs | src/broker/authorize.js:40-169 | each answer, executed, halted, escalated and refused, if and only if its cause |
| BrokerClauses.EveryOutcomeIsLogged | src/broker/authorize.js:67-168 | when the ledger takes what it is given, each refusal, each execution and each failed revert is on record under its tier |
| ConsentSafety.ExecutionIsAdmitted | src/broker/authorize.js:67-136 | at most one execution, only after the admission was logged, never for a prohibited or undeclared action, and for a consequential one only with a decision that verifies |
| ConsentSafety.ExecutionFollowsDelta | src/broker/authorize.js:139-142 | a consequential execution stands right after the delta whenever the port returned one |
| ConsentSafety.EveryDeltaIsReverted | src/broker/authorize.js:138-168 | each delta returned is followed by exactly one revert attempt, whatever throws, and a failed revert is what the caller is told |
| ConsentRuns.ProposerIs | src/api/intents.js:56-85 | an intent exists exactly when some step of the run proposed it, and its proposer is the caller of that step |
| ConsentRuns.ConsequentialExecutionIsConsented | src/broker/authorize.js:67-168 | of one call made at any point of a run in which nobody votes before registration: a consequential execution was logged, held its delta, and had as many recorded approvals as its declaration asks for, from different people other than whoever called Propose for the intent |
| ConsentTraces.EveryExecutionIsConsented | src/broker/authorize.js:93-168 | over the joint trace of such a run, with calls overlapping at will: every consequential execution event belongs to a call that logged its admission earlier, held its delta as its own event right before, and had, when it was made, the quorum of people other than the caller of the intent's Propose behind it |
| ConsentTraces.EveryDeltaIsClosed | src/broker/authorize.js:138-168 | at any point of any run the deltas and reverts of each call pair up one to one, counting what the call has left to do |
| ConsentTraces.FinishedCallsAreClosed | src/broker/authorize.js:138-168 | in the joint trace each delta of a finished call is followed by a revert attempt of that call, with none of its own deltas or reverts between |
| ConsentRuns.BackedExactlyWhenQuorumMatches | src/broker/decision.js:14-62 | in any run a settled approval has the action's quorum behind it if and only if the quorum recorded in it is at least that quorum |
| ConsentRuns.LateRegistrationExecutesOnOneApproval | src/api/intents.js:150-182 | a vote before registration leaves a decision on which the broker executes a two-person action |
| ConsentRuns.SharedIdExecutesUnbacked | src/broker/decision.js:21-24 | any decision that verifies executes whatever consequential action a new intent registers under its action id, unbacked in that intent |
| PolicyDelta.PushIsLayout | src/policy/openshell.js:81-103 | applying a delta gives the original rules, less reverted tags, followed by the tagged rules of exactly the open actions, hosts unchanged |
| PolicyDelta.FilterIsLayout | src/policy/openshell.js:109-122 | filtering a tag out gives the layout without that action and without original rules of that tag; every other rule stays in order |
| PolicyDelta.KeepIs | src/policy/openshell.js:109-122 | filtering drops a rule exactly when it has the tag, wherever it stands, and keeps the order of the rest |
| PolicyDelta.RestoredExactly | src/policy/openshell.js:115-120 | with nothing open the document is the original if and only if no revert ran, or every endpoint had a rules list and no rule of it a reverted tag; its rules are always the original ones less those tags |
| OpenShell.OpenShellPolicy.ApplyDelta | src/policy/openshell.js:81-103 | on any document, leftovers included: each refusal in order, leaving document and open set alone; otherwise the requested method and path, tagged with the action, come last at the first endpoint of that host |
| OpenShell.OpenShellPolicy.RevertDelta | src/policy/openshell.js:109-134 | the rules with the action's tag go and no others, also when the check afterwards fails or raises |
| OpenShell.ClosedMeansRestored | src/policy/openshell.js:76-134 | over every run of the port on any document, with nothing open the live rules are the original ones less reverted tags, and the document is the original under the same condition |
| PolicyCompile.EndpointKeyInjective | src/policy/compile.js:28-28 | the joined grouping key tells host and port apart whatever the host holds |
| PolicyCompile.GroupedSorts | src/policy/compile.js:24-35 | one group a host and port, none empty, each with exactly the capabilities that reach it |
| PolicyCompile.CollectRules | src/policy/compile.js:48-57 | the loop with its set of signatures lists each asked-for rule once |
| PolicyCompile.CompileFragment | src/policy/compile.js:42-78 | the nested loops build the policies of the specification, later groups of a key replacing earlier ones |
| PolicyCompile.CompiledGrantsExactly | src/policy/compile.js:42-78 | a request is granted if and only if a declared capability's methods contain it and no later group of the same key replaced its host and port |
| PolicyCompile.ImpactfulPathsOnlyGet | src/policy/compile.js:8-11 | a path whose writes all carry an impact is granted GET and nothing else |
| PolicyCompile.CompileKeepsExactly | src/policy/compile.js:23-78 | every declared grant survives if and only if no two declared hosts and ports share a policy key |
| PolicyCompile.SharedKeyReplaces | src/policy/compile.js:61-62 | in a manifest of two read capabilities, on any two hosts and ports with one key, the earlier one's grant is gone and the later one's stays |
| PolicyCompile.SeparatorsShareKey | src/policy/compile.js:61-61 | which non-alphanumeric character separates two parts of a host does not reach the key |
| PolicyCompile.KeyOfPlain | src/policy/compile.js:61-61 | letters and digits go over into the key one by one, in lower case |
| PolicyCompile.KeyJoins | src/policy/compile.js:61-61 | one other character between two parts becomes one underscore between their keys |
| PolicyCompile.KeyCollapses | src/policy/compile.js:61-61 | a second such character in a row adds nothing |
| PolicyCompile.SortRulesInOrder | src/policy/compile.js:58-60 | the rules come out ordered by method and path, for any total order of strings |
| PolicyCompile.KeysAreDeclared | src/policy/compile.js:61-62 | a fragment has exactly the keys of the declared hosts |
| PolicyMerge.MergeFragments | src/skills/load.js:106-126 | the merge is the specification's, in whatever order a fragment's keys are visited, and raises exactly when some fragment has a key that every object inherits |
| PolicyMerge.MergeAllIs | src/skills/load.js:111-125 | a merged key has the host and port of the first fragment that has it and the rules of all of them, none twice |
| PolicyMerge.MergedRuleIsAsked | src/skills/load.js:116-124 | with or without key collisions every merged rule is asked for by a capability on a host of that key, and paths whose writes all carry an impact stay at GET |
| PolicyMerge.FailsExactly | src/skills/load.js:112-117 | the merge of compiled fragments raises if and only if some declared host has the policy key constructor |
| PolicyMerge.OneInheritedKey | src/skills/load.js:112-117 | of the inherited property names only constructor has the shape of a policy key |
| PolicyMerge.LaterRulesLandOnTheEarlierHost | src/skills/load.js:116-124 | of two skills with one capability each, on any two hosts and ports with one key, the second one's delete is granted on the first one's host, where nobody declared it |
| PolicyMerge.MergeIsTheUnionExactly | src/skills/load.js:105-126 | the merge returns and grants exactly what the skills declare between them, if and only if no two declared hosts and ports share a policy key and no host has the key constructor |
| RateLimiter.TokensInRange | src/api/auth.js:75-84 | tokens stay between 0 and the capacity under a clock that does not go back |
| RateLimiter.WindowBound | src/api/auth.js:72-86 | in any window one caller gets at most the capacity plus what the window refills |
| RateLimiter.SpacedCallsAreGranted | src/api/auth.js:75-84 | with a capacity of at least 1, calls a token apart are all granted |
| RateLimiter.SpacingEarnsToken | src/api/auth.js:77-78 | a gap of 1000 / refillPerSec milliseconds earns that token |
| RateLimiter.SlowCallsAreGranted | src/api/auth.js:72-86 | with a capacity of at least 1, calls at least 1000 / refillPerSec milliseconds apart are all granted |
| RateLimiter.Limiter.Take | src/api/auth.js:75-84 | the answer is a function of this caller's own call times, and nobody else's bucket moves |
| NonceCache.SweepOfLive | src/api/auth.js:62-62 | sweeping what was live at an earlier instant leaves exactly what is live now |
| NonceCache.Sweep | src/api/auth.js:62-62 | deleting from the oldest end with an early stop removes exactly the expired entries |
| NonceCache.HoldsExactly | src/api/auth.js:57-66 | a signature is held exactly when it was accepted less than its time to live ago |
| NonceCache.LiveCounts | src/api/auth.js:57-66 | what is held numbers exactly the acceptances inside their time to live |
| NonceCache.Cache.Accepts | src/api/auth.js:61-67 | accepted exactly when the signature has no live acceptance in the history and fewer than max are live |
| NonceCache.AcceptancesAreApart | src/api/auth.js:57-70 | two acceptances of one signature are at least the time to live apart |
| NonceCache.NoReplay | src/api/auth.js:114-145 | a signature dated strictly before its first acceptance is never accepted twice |
| NonceCache.ReplayExactly | src/api/auth.js:57-145 | some history a cache can have accepts a signature at one instant and again later, both inside its window, if and only if the cache holds anything at all and the signature is dated, inside its window, at or after the first of the two |
| DropOldQueue.ThinnedOne | see/webapp/backend/d4rt_backend/live.py:312-317 | refilling with a surplus of one leaves out the oldest frame and nothing else |
| DropOldQueue.LiveQueue.Deliver | see/webapp/backend/d4rt_backend/live.py:300-319 | at most the depth in frames; consumed and queued together are what was delivered, in order, with no message missing; at most one frame goes, older than every frame kept |
| DropOldQueue.LiveQueue.Get | see/webapp/backend/d4rt_backend/live.py:284-290 | the consumer takes the oldest item, at any point between deliveries |
| DropOldQueue.DroppedIsOldest | see/webapp/backend/d4rt_backend/live.py:313-316 | the frame that goes was delivered before every frame that stays |
| FrameCodec.DecodeFrame | see/webapp/frontend/src/cloud/useLiveCloudStream.ts:116-186 | the counted loops over offsets build the frame the layout describes, or nothing when the length is off |
| FrameCodec.RoundTrip | see/webapp/backend/d4rt_backend/live.py:94-145 | decoding a packed frame gives every field back with y and z flipped and age capped at 65535, for any number of points and blobs |
| FrameCodec.OnlyTheWholeFrame | see/webapp/frontend/src/cloud/useLiveCloudStream.ts:133-134 | every proper prefix and every proper extension of a packed frame is rejected |
| FrameLayout.DecodedFrameIs | see/webapp/frontend/src/cloud/useLiveCloudStream.ts:116-186 | each decoded field against the packed one: camera y and z and blob z, vz and hz differ from theirs in the top bit and in nothing else, every other word is equal, points come back over 32000 with y and z negated |
| FrameLayout.PackedIsLaidOut | see/webapp/backend/d4rt_backend/live.py:94-145 | the offset of every field in the packed bytes, little endian |
| FrameLayout.PacksExactly | see/webapp/backend/d4rt_backend/live.py:94-145 | packing raises exactly when an integer field is out of its range |
| StreamIngest.LiveAtSweep | src/api/stream.js:67-67 | after a sweep a record is found exactly when it had not expired |
| StreamIngest.DebounceKeyIs | src/api/stream.js:93-112 | with no bar in detector and camera two events share a debounce key exactly when they show the same detector, camera and class |
| StreamIngest.BarMovesBetweenFields | src/api/stream.js:93-112 | with a bar, events of different detectors share it |
| StreamIngest.Ingest.Receive | src/api/stream.js:88-160 | each outcome with its exact cause and the whole new state, the clock included; accepted events of one debounce key stay debounceMs apart, in-flight stays within its cap and counts accepts less releases, and one event id keeps one intent after its record expired or was evicted |
| StreamIngest.Ingest.Release | src/api/stream.js:86-86 | one less in flight, never below 0, and nothing else changes |
| StreamIngest.OldestIsForgotten | src/api/stream.js:116-137 | a debounced or accepted event is remembered; an accept over the cap forgets the oldest record, and nothing else forgets any |
| StreamIngest.KeysStay | src/api/intents.js:56-85 | no store operation moves an idempotency key to another intent |
| IncidentJudge.OwnRow | src/coco/judge.js:211-250 | without a bar behind the first character of the camera id or in the type, the prefix test picks exactly that camera's rows and no other camera and type share the key |
| IncidentJudge.OwnHistoryExactly | src/coco/judge.js:208-250 | over every history a row counts its own camera's quiet observations since its own last incident, if and only if there is no such bar |
| IncidentJudge.StrangersClear | src/coco/judge.js:208-219 | for every row with such a bar there is another camera whose quiet observations count for it in any table, and enough of them clear its incident |
| IncidentJudge.ClosesExactly | src/coco/judge.js:208-219 | an open row closes exactly on a quiet observation that reaches it and completes the streak |
| IncidentJudge.StreakCounts | src/coco/judge.js:208-219 | the streak is the number of quiet observations that reached the row since the incident was last opened or attached |
| IncidentJudge.OccurrencesCount | src/coco/judge.js:250-284 | every open row was opened by one incident and has been open since, and its occurrences are 1 plus the incidents judged on it since |
| IncidentJudge.AttachedKeepsItsIntent | src/coco/judge.js:250-285 | an open incident keeps its intent, counts one more occurrence and starts its quiet count again; a new row gets the new intent; no other row moves |
| IncidentJudge.QuietKeepsIntents | src/coco/judge.js:208-219 | a quiet observation touches exactly the rows whose key continues the camera id with a bar, moves nothing but their streak, and removes those that complete it |
| IncidentJudge.Judge.OnQuiet | src/coco/judge.js:208-219 | the table after a quiet observation of any camera, also during an inference; incidents counts the judged incidents of the history that found their row closed, and is open plus cleared |
| IncidentJudge.Judge.OnCandidate | src/coco/judge.js:221-243 | a candidate while a call is suspended at the inference adds one to the skipped count and changes nothing else, so the suspended calls are never more than one |
| IncidentJudge.Judge.OnJudgment | src/coco/judge.js:241-284 | the rest of the awaited observation, whatever happened in between; the incident count goes up exactly when a row is opened |
| IncidentJudge.Judge.Settle | src/coco/judge.js:250-285 | an open incident of the type on the camera is attached to, otherwise one is opened and counted: never two |

## Left out

- Floating-point rounding: positions, tokens and moments are exact reals, the constants 0.06, 0.55 and 1e-12 are those reals, and the square root of a sum of squares is a parameter assumed exact.
- The vertex buffer of `fitMarkings` is a list that is appended to; its capacity and the offset it starts at are not modelled. Arrays a function only reads are sequences.
- JSON numbers are carried by the text they print as; `undefined`, a lone `__proto__` key and repeated keys in parsed text are outside, and so is the moving of integer-like keys to the front, which sorting undoes.
- LedgerStore.Ledger.Reload: stops before a line that is JSON but no object, which the code keeps as a record without number and hash, and gives an object without a numeric `seq` the number 0; no append writes such lines.
- Partial writes of the ledger, a failing fsync, `query` and the observers of an append.
- LedgerChain.TipDeterminesHistory: says nothing about a chain cut at its end, because `verify` alone cannot see it; the tip has to be known.
- `stripReasoning` and the removal of code fences: the walk starts on the cleaned text.
- Intents are held by value under their id instead of being shared objects, evidence values are opaque, and the time stamp strings of records are dropped.
- Single use of a decision: `spent` is read and never set in the modelled files, so nothing is claimed about it.
- A call of the broker reads its decision and its time when it is made; the undo registry and `hashArgs` are left out.
- The policy document is a list of endpoints that name their group; the envelope check after a revert is an arbitrary boolean, and its source, src/policy/envelope.js, is not part of this model.
- Overlapping `applyDelta` and `revertDelta` calls on one document, `expireStale` and `revertAll`.
- A compiled group has its one endpoint, and policies are maps: the order of keys in the emitted YAML is not modelled. The comparison of `localeCompare` is a parameter of the sort. Binaries, filesystem rules, preset names, the consent plan and the registry are left out.
- Schema validation of manifests and stream events: the model starts on parsed values, and whether a signature matches is a boolean of the event.
- FrameCodec.RoundTrip: carries a float32 by its bit pattern, so negation flips the top bit and the conversion from Python floats is outside; a field `struct` cannot hold makes the packer give nothing.
- DropOldQueue.LiveQueue.Deliver: runs to completion between consumer gets, as it does on the event loop; the thread that schedules it is left out.
- IncidentJudge.Judge.OnCandidate: takes the fired signals as given; `candidateSignals`, `digest`, the model call and the counters other than incidents and skips are left out.
- The capability index, skill loading from disk, the HTTP, WebSocket and Telegram servers, the demos and the rendering.
