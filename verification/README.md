# Verified model of the memory engine's deterministic core

This project models, in Dafny, the parts of the memory engine whose behaviour
does not depend on a model provider: how a submitted body is cut into chunks,
stored, stitched back and verified; how current-state anchors evolve and what
reads them; the decision lineage; the hub graph's algorithms and its edge
table; and the provider circuit breaker. SQL tables are sequences or maps held
in class fields, each committed call is one atomic step, and clocks, hashes,
embeddings, vector search and neighbour lookups are parameters.

One module per component:

| file | component |
|---|---|
| `Chunking.dfy`, `ScannerSemantics.dfy`, `LineEndings.dfy` | the boundary-driven chunker, what its scanners find, and its line-ending normalisation |
| `CanonicalBody.dfy`, `RoundTrip.dfy`, `RoundTripByText.dfy`, `RoundTripByConfig.dfy`, `RoundTripLimits.dfy` | stitching, hash-verified reconstruction, and exactly when the round trip holds, per text and per configuration |
| `BodyStore.dfy`, `ChunkScoring.dfy` | the chunk table's writers, save-then-read end to end, the structural risk checks |
| `CurrentState.dfy`, `ConflictDetector.dfy`, `Enrichment.dfy`, `ScopeSlug.dfy` | the anchor/content state machine, its two readers, and scope resolution |
| `Decisions.dfy` | decision creation, status updates and the lineage query |
| `QueryExpansion.dfy`, `GraphHealth.dfy`, `HybridSearch.dfy` | breadth-first expansion, connected classes, rescue-limited search |
| `EdgeStore.dfy`, `EdgeInference.dfy` | the hub-edge table with its human gate, and the inferred-edge producer |
| `CircuitBreaker.dfy` | circuit state as a fold over timestamped events |
| `Sorting.dfy`, `Wrappers.dfy` | stable sorting and the shared outcome types |

The central results are about whole runs or all inputs: when stitching inverts
chunking (an equivalence for every text under every valid configuration, and
one on the configuration alone), which saved bodies verify on the way back (an
equivalence), what every run of resolver calls keeps in two tables and exactly
which call breaks their agreement or makes two contents compete, exactly which
call lets two active edges join one pair, that a human call stands behind every
decided edge, that an inference run writes exactly
the strongest supported pairs, that a manual reset erases a breaker's past,
that lineage queries are exact prefixes of the supersession chains, and that no
producer run reopens a human decision.

Where the code falls short of a stated intention, the model follows the code,
proves the exact condition and gives a concrete failing input:

- The reconstruction comment says stitching mirrors the chunker's overlap
  (memory_lab/content/canonical_body.py:87-96). Over all texts that are not cut
  short this holds exactly for the configurations of
  `RoundTripByConfig.Restoring`: no overlap, a minimum above the overlap, room
  for one chunk only, an overlap of one below the target, or a target equal to
  the maximum with room for two overlaps. The default configuration is not
  among them; `RoundTripLimits.TwoWords` and `RoundTripLimits.TwoStops` are
  texts the others lose part of. With a minimum below the overlap a chunk can
  also end inside the overlap it starts with and is then duplicated;
  `RoundTripLimits.SmallMinimumDuplicatesText` is an example,
  `RoundTripLimits.HiddenOverlapHealsIff` says when the next seam repairs it,
  and `RoundTripByText.RoundTripDependsOnDrift` decides every single text.
- The chunker's documented preference order lists list boundaries
  (memory_lab/ingestion/chunking.py:66-72), but a list boundary is never
  chosen: the newline that its match starts with always wins
  (`Chunking.ListBoundaryNeverChosen`).
- `is_current` and the anchors part exactly when a call supersedes a content
  that is also active under another key (`CurrentState.StepKeepsExactIff`,
  `CurrentState.RunExactIff`); `CurrentState.TwoKeysDisagree` is such a run.
- `update_edge` may change a type without recomputing the key; keys and rows
  part exactly at such an accepted update (`EdgeStore.ApplyKeepsAgreementIff`).
  Two active edges of one pair and type then arise exactly when an insert meets
  a row hidden under its former key or a type change meets another row
  (`EdgeStore.ApplyKeepsUniqueIff`, `EdgeStore.RunKeepsUniqueIff`), as in
  `EdgeStore.TypeChangeAllowsDuplicates`. The table comment in
  migrations/006_add_hub_edges.sql:51 promises direction-sensitive keys for
  directional types; the code always sorts the endpoints.
- Two current contents of one identity are reported as competing exactly after
  a call that makes its content current beside another one whose stored
  workspace and memory type are the same and which it does not supersede
  (`ConflictDetector.NoCompetingIdentities`). That takes a call whose memory
  type or workspace is not the one stored for its content
  (`ConflictDetector.CallsAsStoredDoNotCompete`);
  `ConflictDetector.MistypedContentsCompete` is such a run.
- A score boost for rows found by several queries exists, but outside the
  zero-result rescue no row ever has a second query
  (`HybridSearch.HybridSearch`).

## Model

| member | source | states |
|---|---|---|
| `LineEndings.NormalizeIsOnePass` | memory_lab/ingestion/chunking.py:276-277 | the two chained replacements equal one left-to-right pass that never sees a CR it produced |
| `LineEndings.NormalizeRemovesCr` | memory_lab/ingestion/chunking.py:276-277 | the normalised text has no CR, and a text is changed exactly when it holds one |
| `LineEndings.NormalizeKeepsBlank` | memory_lab/ingestion/chunking.py:96-124 | the empty and whitespace-only exits may be decided on the raw text |
| `LineEndings.CrlfRestores` | memory_lab/content/canonical_body.py:219-222 | rewriting LF as CRLF undoes normalisation exactly for uniformly CRLF texts |
| `LineEndings.CrRestores` | memory_lab/content/canonical_body.py:219-222 | rewriting LF as CR undoes normalisation exactly for uniformly CR texts |
| `Sorting.SortSorts` | memory_lab/content/canonical_body.py:143-143 | the sort used for every `sorted` call orders by any total preorder |
| `Sorting.SortedUnique` | memory_lab/graph/edge_inference.py:190-190 | an antisymmetric order leaves only one sorted arrangement |
| `Chunking.MatchEndsAre` | memory_lab/ingestion/chunking.py:280-299 | the end positions collected for a scanner are exactly its match ends within the window |
| `Chunking.FindEnd` | memory_lab/ingestion/chunking.py:176-202 | the priority loop returns the same cut and reason as the recursive choice for every start |
| `Chunking.ChosenFrom` | memory_lab/ingestion/chunking.py:188-202 | a cut is a match of its own scanner, the last one up to the target or else the first one past it, and no scanner of better priority matched between minimum and maximum |
| `Chunking.ListBoundaryNeverChosen` | memory_lab/ingestion/chunking.py:189-199 | whatever list matches the scanner finds, as long as each starts at a newline, no cut ever has the list reason |
| `Chunking.NewlineCutFollowsNewline` | memory_lab/ingestion/chunking.py:286-287 | the character before a newline cut is a newline |
| `Chunking.NewlineCutIsLast` | memory_lab/ingestion/chunking.py:189-194 | no newline lies between a newline cut and the target |
| `Chunking.HardCutIsLastResort` | memory_lab/ingestion/chunking.py:188-202 | a hard cut is at the maximum, and no scanner matched between minimum and maximum |
| `Chunking.ShortTextIsOneChunk` | memory_lab/ingestion/chunking.py:136-158 | a text within the maximum is one chunk, marked short below the minimum |
| `Chunking.LongTextIsCutAsChosen` | memory_lab/ingestion/chunking.py:130-181 | in a longer text every chunk ends as chosen at its start with that reason, final exactly when the rest fits |
| `ScannerSemantics.ScannersAreSearches` | memory_lab/ingestion/chunking.py:280-299 | the newline, whitespace, paragraph and sentence scanners report exactly the ends of the matches that a left-to-right search for the greedy pattern finds, in order, in every window |
| `Chunking.NextChunk` | memory_lab/ingestion/chunking.py:134-158 | one iteration yields the slice up to the chosen end; the hard-boundary guard is unreachable |
| `Chunking.CutText` | memory_lab/ingestion/chunking.py:125-166 | the loop terminates with the chunks of the recursive definition, and reports the guard exactly when text is left over |
| `Chunking.ChunkContent` | memory_lab/ingestion/chunking.py:95-174 | blank bodies give no chunks; the result is degraded exactly for blank or truncated bodies |
| `Chunking.ChunksStructure` | memory_lab/ingestion/chunking.py:125-166 | chunks are non-empty slices within the maximum, numbered in order, with sound seams from the start of the text, and stop early only at the chunk guard |
| `Chunking.SeamShape` | memory_lab/ingestion/chunking.py:163-166 | starts strictly increase; neighbours overlap by the configured amount, or by nothing after a chunk no longer than it; never a gap |
| `Chunking.ChunksFollowCuts` | memory_lab/ingestion/chunking.py:130-158 | every chunk of every run ends where, and for the reason that, the choice at its own start says |
| `Chunking.ChunkCountBound` | memory_lab/ingestion/chunking.py:130-166 | at most 1 + (n - 1) / max(1, minimum - overlap) chunks |
| `CanonicalBody.IndexCheckIsPermutation` | memory_lab/content/canonical_body.py:76-83 | the index check passes exactly for a permutation of 0..n-1 (pigeonhole) |
| `CanonicalBody.DuplicateReason` | memory_lab/content/canonical_body.py:76-83 | the duplicate reason is given exactly when two rows share an index |
| `CanonicalBody.SortedRowsAt` | memory_lab/content/canonical_body.py:143-143 | after a passed check position k of the sorted rows is the row with index k |
| `CanonicalBody.StitchTexts` | memory_lab/content/canonical_body.py:86-112 | the loop computes the fold of one-seam joins |
| `CanonicalBody.OutcomesAreExact` | memory_lab/content/canonical_body.py:115-174 | each reason has exactly its cause: no stored digest, no rows, a shared index, a gap, the digest of the candidate matching, or not with the chunk guard reached; verified exactly when a body is exposed |
| `CanonicalBody.OnlyTheStoredBody` | memory_lab/content/canonical_body.py:115-174 | with a collision-free digest no other body than the submitted one can be exposed |
| `CanonicalBody.ReorderingIsHarmless` | memory_lab/content/canonical_body.py:137-154 | the result depends on the rows only as a collection |
| `RoundTrip.JoinExact` | memory_lab/content/canonical_body.py:97-112 | at a seam with a visible overlap and no echo, one join extends an exact prefix of the text to the next one |
| `RoundTripByText.RoundTripDependsOnDrift` | memory_lab/content/canonical_body.py:86-112 | for every configuration and every text: stitching inverts chunking if and only if each stretch appended at a seam comes again in the text at the distance of the drift so far, and the drift is made up at the end of the text; for minimum at least overlap this is no truncation and no echo |
| `RoundTripByText.DriftStep` | memory_lab/content/canonical_body.py:97-112 | while the result follows the text, the drift grows by the overlap exactly at a chunk too short to show its overlap, and shrinks by it exactly at a seam without overlap whose windows coincide |
| `RoundTrip.JoinDeficit` | memory_lab/content/canonical_body.py:97-112 | characters lost at one seam never come back later; every echoed seam loses some |
| `RoundTrip.RoundTripExactly` | memory_lab/content/canonical_body.py:86-112 | for minimum at least overlap: stitching inverts chunking if and only if the chunk guard was not hit and no zero-overlap seam has equal overlap-length windows on both sides |
| `RoundTrip.RoundTripStrictMinimum` | memory_lab/ingestion/chunking.py:163-166 | for minimum above overlap: the round trip holds if and only if the chunk guard was not hit |
| `RoundTrip.NewlineSeamNeverEchoed` | memory_lab/ingestion/chunking.py:188-199 | a seam cut at a newline is never echoed when twice the overlap fits in the target |
| `RoundTripByConfig.RoundTripDependsOnConfig` | memory_lab/ingestion/chunking.py:125-202 | over every valid configuration: all texts that are not cut short are stitched back if and only if the configuration has no overlap, a minimum above it, one chunk at most, a unit overlap below the target, or a target at the maximum with room for two overlaps |
| `RoundTripByConfig.OverlapIsPassed` | memory_lab/ingestion/chunking.py:176-202 | with the target at the maximum, a chunk that starts in an overlap always reaches to the overlap's end, whatever boundaries its window shows |
| `RoundTripByConfig.ShortCutHasNoEcho` | memory_lab/ingestion/chunking.py:176-202 | with the target at the maximum and room for two overlaps, no chunk of at most overlap length is followed by an echo |
| `RoundTripByConfig.UnitOverlapHasNoEcho` | memory_lab/ingestion/chunking.py:176-202 | with a unit overlap below the target no seam of any text is echoed |
| `RoundTripByConfig.DefaultConfigLosesSomeText` | memory_lab/ingestion/chunking.py:24-28 | under the default configuration some text that is not cut short is not stitched back |
| `RoundTripLimits.LowMinimumLosesSomeText` | memory_lab/content/canonical_body.py:97-112 | in every other configuration with an overlap of at least two, the default one included, two equal words make a CR-free text that is not cut short and loses the second word |
| `RoundTripLimits.UnitTargetLosesSomeText` | memory_lab/content/canonical_body.py:97-112 | with overlap and target one, two full-width stops make such a text |
| `RoundTripLimits.HiddenOverlapHealsIff` | memory_lab/content/canonical_body.py:97-112 | a chunk too short to show its overlap is appended whole; the next seam undoes this if and only if the duplicated characters come again, and otherwise one overlap too much remains |
| `BodyStore.ChunkTable.PersistMultiChunks` | memory_lab/persistence/body_chunks.py:61-102 | full replace: the new table is the other contents' rows followed by the non-empty pairs in order, with their count |
| `BodyStore.ChunkTable.PersistBodyChunks` | memory_lab/persistence/body_chunks.py:117-166 | index-0 replace: the content's row 0 goes, the new text comes unless empty, all other rows stay |
| `BodyStore.ChunkTable.SaveBody` | memory_lab/api/services/api_adapter.py:231-245 | saving chunks the body and replaces its rows, falling back to the raw body when there are no chunks |
| `BodyStore.ReplaceIsLocal` | memory_lab/persistence/body_chunks.py:61-84 | a full replace makes the content's rows exactly the given pairs and changes no other content's rows |
| `BodyStore.IndexZeroReplaceKeepsCheck` | memory_lab/persistence/body_chunks.py:117-166 | replacing row 0 keeps a sound row set sound exactly when the new text is non-empty or there was no other row |
| `BodyStore.IndexZeroReplaceIsLocal` | memory_lab/persistence/body_chunks.py:117-166 | an index-0 replace leaves every other content's rows unchanged, keeps the content's rows of other indices, and puts the new text last unless it is empty |
| `BodyStore.SaveThenRead` | memory_lab/api/services/api_adapter.py:231-245 | reading any content after a save gives the saved pairs for that content and the old rows for the others |
| `BodyStore.SavedRowsPassIndexCheck` | memory_lab/persistence/body_chunks.py:61-84 | rows written from chunker output always pass the index check |
| `BodyStore.CandidateHasNoCr` | memory_lab/content/canonical_body.py:86-112 | nothing rebuilt from a non-blank body's chunks holds a CR, so a body with a CR never verifies |
| `BodyStore.SavedBodyVerifies` | memory_lab/content/canonical_body.py:115-174 | end to end, for every valid configuration and a collision-free digest: a saved body verifies if and only if it is blank, or has no CR and stitching recovers it in the sense of the drift condition; for minimum at least overlap that is no truncation and no echoed seam |
| `BodyStore.DiagnosticIsExact` | memory_lab/content/canonical_body.py:234-261 | for every saved body: the line-ending flag is true if and only if the body is not blank, has a CR, its normalised text is stitched back, and its line endings are uniformly CRLF or uniformly CR; so never for a verified body or one without CR |
| `CanonicalBody.DiagnosticsShowCandidate` | memory_lab/content/canonical_body.py:234-261 | diagnostics repeat the outcome of the reconstruction, and exactly after a failed digest of a whole row set also show the candidate; the flag tells whether one of its two variants has the stored digest |
| `ChunkScoring.BatchRisks` | memory_lab/ingestion/chunk_scoring.py:282-297 | each batch risk is listed once, and exactly when some chunk or adjacent pair raises it |
| `ChunkScoring.NoRiskIff` | memory_lab/ingestion/chunk_scoring.py:263-297 | a batch raises no risk exactly when its chunks are numbered in order and neighbours adjoin with at most one character more than the expected overlap |
| `ChunkScoring.ChunkerRaisesNoRisk` | memory_lab/ingestion/chunk_scoring.py:263-297 | chunker output scored with its own overlap raises no order, offset, gap, overlap or offset-metadata risk |
| `CurrentState.CurrentStateStore.ResolveAfterIngest` | memory_lab/current_state/resolver.py:151-287 | the ordered table updates make exactly the step function's new tables and outcome |
| `CurrentState.RefusedCallsChangeNothing` | memory_lab/current_state/resolver.py:101-127 | a call without confidence of at least 0.7, workspace, content, memory type or an allowed origin is refused for the first thing it lacks and changes nothing; no other call is |
| `CurrentState.GroupingSetsScopeOnly` | memory_lab/current_state/resolver.py:141-160 | a call without identity sets the scope of its own row and changes nothing else: no anchor, no other row, no other column |
| `CurrentState.IdentityOutcomes` | memory_lab/current_state/resolver.py:162-287 | which outcome a call with an identity has: idempotent exactly if an active anchor repeats it, refused by the table exactly for an unknown row or type, resolved otherwise |
| `CurrentState.StepSetsColumns` | memory_lab/current_state/resolver.py:182-287 | what a call does to every column of every row: confirmed, superseded, grouped or untouched |
| `CurrentState.LastCallSetsScope` | memory_lab/current_state/resolver.py:141-287 | at the end of any run a content's scope is the one brought by the last accepted call that grouped, confirmed or superseded it |
| `CurrentState.SaveAddsRow` | memory_lab/api/services/api_adapter.py:186-201 | saving a new content adds a row without current-state columns and changes nothing else |
| `CurrentState.RunKeepsSeamless` | memory_lab/current_state/resolver.py:229-270 | over every run the anchors of a key are valid one after the other: each ends when the next starts, the last has no end |
| `CurrentState.ChainsAfterCall` | memory_lab/current_state/resolver.py:215-270 | a superseding call appends to its key's chain one anchor that supersedes the last one and retires it; every other key's anchors are untouched, and other calls touch none |
| `CurrentState.ExtendLinear` | memory_lab/current_state/resolver.py:229-270 | a linear chain stays linear, and its old links keep everything but status and end of validity |
| `CurrentState.AtMostOneActive` | memory_lab/current_state/resolver.py:229-243 | in linked tables at most one anchor per key is active |
| `CurrentState.CallKeepsLinked` | memory_lab/current_state/resolver.py:151-287 | every call keeps all chains linear: each link supersedes its predecessor's content, all but the last are superseded |
| `CurrentState.RepeatIsIdempotent` | memory_lab/current_state/resolver.py:182-213 | from any tables, repeating a call later, even with another scope, changes neither anchors nor `is_current` |
| `CurrentState.CallKeepsAgreement` | memory_lab/current_state/resolver.py:151-287 | every call keeps the agreement of the content columns with the anchors |
| `CurrentState.RunKeepsInvariants` | memory_lab/current_state/resolver.py:151-287 | over every run of saves and calls both invariants hold |
| `CurrentState.CurrentIffActive` | memory_lab/current_state/resolver.py:151-287 | in every reachable state a content resolved under a single key is current if and only if it has an active anchor |
| `CurrentState.StepDecidesItem` | memory_lab/current_state/resolver.py:182-287 | after a call a content's flag agrees with its anchors exactly as the state before decides: yes for the call's own confirmed content, for a superseded one if and only if it is not active under another key, unchanged for all others |
| `CurrentState.StepKeepsExactIff` | memory_lab/current_state/resolver.py:215-287 | from an agreeing state a call keeps `is_current` TRUE exactly for contents with an active anchor if and only if it does not supersede a content that is also active under another key |
| `CurrentState.RunExactIff` | memory_lab/current_state/resolver.py:151-287 | over a whole run all states agree if and only if no call does so |
| `CurrentState.LastCallDecides` | memory_lab/current_state/resolver.py:151-287 | at the end of any run a content agrees if and only if the last call that confirmed or superseded it did not supersede it while active under another key |
| `CurrentState.TwoKeysDisagree` | memory_lab/current_state/resolver.py:244-253 | a concrete run of five operations after which a content has an active anchor and is not current |
| `CurrentState.RunKeepsIdentityHeld` | memory_lab/current_state/resolver.py:182-287 | over every run a current content is active under its stored identity, whatever else it was resolved under |
| `CurrentState.SupersessionAlignsScopes` | memory_lab/current_state/resolver.py:244-287 | a superseding call leaves old and new content in one scope, the old not current and the new current and pointing back |
| `ConflictDetector.DetectCompeting` | memory_lab/conflicts/detector.py:93-186 | the filter, scope, first-row and group loops compute the competing-anchor candidates |
| `ConflictDetector.DetectedAreCompeting` | memory_lab/conflicts/detector.py:162-186 | every candidate names two distinct current contents of one scope, memory type and identity |
| `ConflictDetector.ReportedIff` | memory_lab/conflicts/detector.py:162-186 | a group is reported in a scope if and only if two different contents have their first current rows there in it, whatever their later rows show |
| `ConflictDetector.ReportedAsAsked` | memory_lab/conflicts/detector.py:162-186 | a caller is told only of two different current contents of its workspace, in the scope and of the memory type it asked about, shown by given rows |
| `ConflictDetector.NoRivalsIffUndetected` | memory_lab/conflicts/detector.py:162-186 | whatever rows of a state are read and whatever is asked for, no candidate with a state identity is reported if and only if no two current contents share workspace, memory type and identity |
| `ConflictDetector.ApplyKeepsNoRivalsIff` | memory_lab/current_state/resolver.py:182-287 | a call leaves no such two contents if and only if it does not make its content current beside another of that identity with the same stored workspace and memory type that it does not supersede, a guard on the state and the call alone |
| `ConflictDetector.NoCompetingIdentities` | memory_lab/conflicts/detector.py:162-186 | over a whole run no state ever has a competing pair with an identity to report if and only if no call is such a call |
| `ConflictDetector.CallsAsStoredDoNotCompete` | memory_lab/current_state/resolver.py:244-287 | so a run from empty tables whose inserting calls name each content's stored workspace and memory type never has one reported |
| `ConflictDetector.MistypedContentsCompete` | memory_lab/current_state/resolver.py:218-233 | a concrete run of four operations, one call naming another memory type than the stored one, after which two contents are reported |
| `Enrichment.Enrich` | memory_lab/query/current_state_enrichment.py:104-160 | the loops compute the annotated and, when something is demoted, reordered and renumbered list |
| `Enrichment.ReorderIsPartition` | memory_lab/query/current_state_enrichment.py:150-150 | the stable sort keeps retained items in order, then demoted items in order |
| `Enrichment.OrderPartitioned` | memory_lab/query/current_state_enrichment.py:150-160 | with a demotion the output is a permutation of the annotated input, retained part first, ranked from 1 |
| `Enrichment.RanksFollowPlaces` | memory_lab/query/current_state_enrichment.py:150-160 | after a demotion each item's rank is its place counted from 1, exactly the demoted items gain the reason, and each is a given item with the columns of its content |
| `Enrichment.UndemotedKeepPlace` | memory_lab/query/current_state_enrichment.py:104-148 | for historical questions and without a demotion every item keeps place, rank and reason and shows the evaluated columns of its content |
| `Enrichment.RetainedAboveDemoted` | memory_lab/query/current_state_enrichment.py:150-160 | every retained item stands above every demoted one |
| `Enrichment.DemotedBelowCurrent` | memory_lab/query/current_state_enrichment.py:138-160 | every demoted item has a current item of its own scope above it |
| `Enrichment.DemotedIff` | memory_lab/query/current_state_enrichment.py:136-147 | an item sinks exactly when it is not current and a current item of its named scope is in the list |
| `Enrichment.SupersededSinksBelowSuccessor` | memory_lab/query/current_state_enrichment.py:104-160 | right after a supersession in the resolver, present-tense answers rank the new content's items above the old content's |
| `ScopeSlug.SlugIsWellFormed` | memory_lab/current_state/scope_pipeline.py:62-69 | every string slugifies to a non-empty scope of at most 120 allowed characters, no double hyphen, no separator at either end |
| `ScopeSlug.FixedIffWellFormed` | memory_lab/current_state/scope_pipeline.py:62-69 | the slugifier's fixed points are exactly the well-formed scopes |
| `ScopeSlug.SlugifyIsIdempotent` | memory_lab/current_state/scope_pipeline.py:62-69 | slugifying twice is slugifying once, on every string |
| `ScopeSlug.SlugIsSqueezed` | memory_lab/current_state/scope_pipeline.py:62-75 | the slug is the trimmed lower-case value without quotes, every plain character kept and each maximal run of others one hyphen, its end separators and what exceeds 120 characters cut off |
| `ScopeSlug.UniqueBest` | memory_lab/current_state/scope_pipeline.py:92-104 | a candidate is returned exactly when it alone has the greatest positive score; a tie at the top gives none |
| `ScopeSlug.ResolveScope` | memory_lab/current_state/scope_pipeline.py:169-207 | the first tier that yields a scope wins, the table tiers only with a unique best answer that is not the global scope |
| `ScopeSlug.TiersDecide` | memory_lab/current_state/scope_pipeline.py:169-206 | which tier decides: hint, then marker, then a lineage scope that alone has the best score, then hubs, then topic, domain and the global scope; blank texts, ties and the global scope never decide before the end |
| `ScopeSlug.ResolvedIsWellFormed` | memory_lab/current_state/scope_pipeline.py:169-207 | if the stored scopes are well formed, so is every resolved one, whatever tier it came from |
| `ScopeSlug.RunKeepsScopesOk` | memory_lab/current_state/scope_pipeline.py:107-132 | over every run whose calls bring scopes resolved over the anchors of that moment, all scopes stored in anchors and contents stay well formed |
| `Decisions.DecisionStore.CreateDecision` | memory_lab/decisions/store.py:303-354 | insert, and mark the superseded decision; an invisible one is an error that changes nothing |
| `Decisions.DecisionStore.SetStatus` | memory_lab/decisions/store.py:415-432 | only the status of a visible decision changes |
| `Decisions.CreateRecordsSupersession` | memory_lab/decisions/store.py:303-351 | a create is refused exactly for an invisible superseded decision; otherwise the new row points back, the old one points forward and is superseded, and nothing else changes |
| `Decisions.UpdateSetsStatusOnly` | memory_lab/decisions/store.py:415-432 | an update is refused exactly for an invisible decision and otherwise changes that status alone |
| `Decisions.SupersessionIsListed` | memory_lab/decisions/store.py:303-401 | right after a supersession the old decision is the new one's first ancestor, followed by its own former ancestors, and the new one the old one's only descendant |
| `Decisions.RunKeepsHistory` | memory_lab/decisions/store.py:303-432 | over every run no decision is removed, moved to another workspace or changes what it superseded |
| `Decisions.RunKeepsSound` | memory_lab/decisions/store.py:303-354 | over every run, back links go to older decisions, forward links go to the latest successor and only there (so no cycles, and forward links are answered by back links) |
| `Decisions.LineageIsExact` | memory_lab/decisions/store.py:356-401 | lineage lists exactly the first ten links each way of the full visible chains, and flags the limit exactly when ten were reached |
| `Decisions.WalkIsMonotone` | memory_lab/decisions/store.py:356-401 | ancestors strictly decrease and descendants strictly increase creation order, each linked from the entry before |
| `Decisions.DescendantsLeadBack` | memory_lab/decisions/store.py:356-401 | walking back from a listed descendant retraces the walk and reaches the queried decision |
| `Decisions.LineageIsConsistent` | memory_lab/decisions/store.py:356-401 | every listed descendant lists the queried decision at the mirrored place of its ancestors |
| `Decisions.OnlyLatestSuccessorIsListed` | memory_lab/decisions/store.py:330-350 | an earlier successor keeps its ancestor but is listed among its descendants if and only if it is the latest one |
| `CircuitBreaker.EvaluateCircuitState` | memory_lab/governance/circuit_breaker.py:53-107 | the loop over the sorted events computes the fold of the step function and its final observation |
| `CircuitBreaker.InvalidIff` | memory_lab/governance/circuit_breaker.py:60-63 | evaluation fails exactly when an event no later than now has an unknown type |
| `CircuitBreaker.LatestIsLast` | memory_lab/governance/circuit_breaker.py:59-62 | the fold over the sorted events ends with the latest event no later than now, the last listed of simultaneous ones |
| `CircuitBreaker.LatestOutageTrips` | memory_lab/governance/circuit_breaker.py:72-74 | from any state and whatever came before: if the latest event is an outage, the snapshot is unavailable and refused with the rest of the open duration to wait, and half open and allowed from its end on |
| `CircuitBreaker.LatestResetCloses` | memory_lab/governance/circuit_breaker.py:66-68 | if it is a manual reset, the snapshot is closed |
| `CircuitBreaker.LatestFailureTrips` | memory_lab/governance/circuit_breaker.py:75-83 | if it is a failure with at least the threshold of failures in its window since the last clear, the snapshot is open in the same sense |
| `CircuitBreaker.NothingCounted` | memory_lab/governance/circuit_breaker.py:53-63 | if no event counts, the snapshot shows the initial state |
| `CircuitBreaker.OpenCircuitProbes` | memory_lab/governance/circuit_breaker.py:69-92 | an open circuit ignores successes until the open duration is over; then a success starts probing, or closes it with enough simultaneous successes, and a failure opens it anew |
| `CircuitBreaker.HalfOpenCircuitProbes` | memory_lab/governance/circuit_breaker.py:76-90 | probing since a time, a success closes the circuit exactly with enough successes counted since then, and a failure opens it |
| `CircuitBreaker.RecentIsWindow` | memory_lab/governance/circuit_breaker.py:65-78 | at every event the failure list is exactly the failures since the last clear that lie within the window |
| `CircuitBreaker.FailureEffect` | memory_lab/governance/circuit_breaker.py:76-85 | a failure opens a probing circuit, or one with at least the threshold of such failures, and otherwise at most degrades a closed one |
| `CircuitBreaker.SuccessEffect` | memory_lab/governance/circuit_breaker.py:86-92 | a success closes a probing circuit exactly with enough successes since probing began, a degraded one exactly when its window holds no failure, and changes no other state |
| `CircuitBreaker.CooldownBounded` | memory_lab/governance/circuit_breaker.py:93-98 | from closed: requests are refused exactly in open and unavailable, and then the retry time is the cooldown, in (0, open duration] |
| `CircuitBreaker.ResetErasesHistory` | memory_lab/governance/circuit_breaker.py:66-68 | a manual reset makes the outcome that of the later events alone from closed, although the success count rescans the whole list |
| `QueryExpansion.ExpandQuery` | memory_lab/graph/expansion.py:6-34 | the layered loop with its early break computes the terms within the hop limit of the normalised, alias-resolved seeds |
| `QueryExpansion.ExpansionStartsAtSeeds` | memory_lab/graph/expansion.py:6-20 | every normalised query term, or every term the alias table makes of them, normalised again, is in the expansion, and without hops nothing else is |
| `QueryExpansion.WithinIsDistance` | memory_lab/graph/expansion.py:14-34 | these are exactly the ends of walks of at most that many steps from a seed |
| `QueryExpansion.Saturated` | memory_lab/graph/expansion.py:21-33 | stopping at an empty layer loses nothing |
| `QueryExpansion.MoreHops` | memory_lab/graph/expansion.py:6-34 | more hops never lose a term |
| `GraphHealth.Search` | memory_lab/graph/health_service.py:332-344 | one search marks exactly the connected class of its start and counts it; the queue empties |
| `GraphHealth.LargestComponentSize` | memory_lab/graph/health_service.py:326-345 | the searches partition the nodes into connected classes whose sizes sum to the node count, and the result is the greatest size |
| `GraphHealth.ComputeTopologyMetrics` | memory_lab/graph/health_service.py:173-199 | counts, isolated and low-degree nodes, largest class and coverage in terms of the edge list alone |
| `GraphHealth.DegreesAre` | memory_lab/graph/health_service.py:173-199 | a node is isolated exactly if no edge touches it, and of low degree exactly if its edges lead to at most one node |
| `HybridSearch.EnrichExisting` | memory_lab/graph/hybrid_search.py:97-104 | only the first row with the key gains the query, the rescue mark and the terms |
| `HybridSearch.AddResults` | memory_lab/graph/hybrid_search.py:78-104 | appends the first usable row of each unseen key, in order, and only enriches existing rows |
| `HybridSearch.FillShortage` | memory_lab/graph/hybrid_search.py:131-167 | adds the first two admissible corroborated rows over all rescue queries, stopping early, and changes nothing else but graph provenance |
| `HybridSearch.CandidatesAreDistinct` | memory_lab/graph/hybrid_search.py:75-167 | candidate keys are pairwise distinct, and the usable primary rows are the prefix and keep all their keys |
| `HybridSearch.RescueIsLimited` | memory_lab/graph/hybrid_search.py:131-167 | three primary rows add nothing; one or two add at most two, each corroborated by its own text, and fewer only if no eligible key is left out |
| `HybridSearch.HybridSearch` | memory_lab/graph/hybrid_search.py:60-167 | the list before rerank: the rows of the retrieval law below, primary ones unmarked and from the query alone, rescued ones marked, with exactly the queries and terms that found them, shortage rows marked, corroborated and with the one query they answer |
| `HybridSearch.CandidatesAreRetrieved` | memory_lab/graph/hybrid_search.py:75-167 | over the searches alone: the first usable row of each key for the query; if there is none, the first usable row of each key over the extended queries, in query then row order; with one or two, the first two such corroborated rows with a new key; with three or more, nothing else |
| `HybridSearch.SameKeyIff` | memory_lab/graph/hybrid_search.py:27-38 | two rows share a key exactly when workspace, content and chunk agree |
| `EdgeStore.KeyForgetsDirection` | memory_lab/graph/hub_edge_store.py:21-23 | two edges share a key exactly when they have the same type and the same two endpoints in either direction |
| `EdgeStore.HubEdgeStore.CreateEdge` | memory_lab/graph/hub_edge_store.py:58-98 | invalid values, hubs outside the workspace, refused rows and an active key are errors that change nothing; otherwise one row is added |
| `EdgeStore.HubEdgeStore.ApproveInferredEdge` | memory_lab/graph/hub_edge_store.py:189-212 | inserts an approved row or turns the active row of the key into one, keeping reason and note when none is given |
| `EdgeStore.HubEdgeStore.RejectInferredEdge` | memory_lab/graph/hub_edge_store.py:214-235 | the same with rejection, which keeps the row's confidence |
| `EdgeStore.HubEdgeStore.ArchiveEdge` | memory_lab/graph/hub_edge_store.py:168-187 | archives one visible unarchived row |
| `EdgeStore.HubEdgeStore.UpdateEdge` | memory_lab/graph/hub_edge_store.py:137-166 | changes the given fields of one visible row, never the key |
| `EdgeStore.HubEdgeStore.PersistEdgeProposals` | memory_lab/graph/edge_inference.py:243-287 | the new table is that of the insert-unless-active fold, and inserted plus skipped equals the proposals |
| `EdgeStore.CreateTakesEffect` | memory_lab/graph/hub_edge_store.py:58-98 | which of the four refusals applies, in order, and otherwise the appended row with exactly the data asked for |
| `EdgeStore.DecideRefusedIff` | memory_lab/graph/hub_edge_store.py:189-235 | a decision is refused exactly for hubs outside the workspace or a row the table forbids |
| `EdgeStore.UpdateTakesEffect` | memory_lab/graph/hub_edge_store.py:137-166 | each given field of a visible row is set, every other field and row stays, invalid values are refused |
| `EdgeStore.ArchiveTakesEffect` | memory_lab/graph/hub_edge_store.py:168-187 | exactly a visible unarchived row is marked archived and nothing else changes |
| `EdgeStore.OnlyHumansDecide` | memory_lab/graph/edge_inference.py:20-23 | over every run a row that is approved or rejected was so before or was named by a create, decide or update call; producer runs and archiving never decide |
| `EdgeStore.RunKeepsInPlace` | migrations/006_add_hub_edges.sql:10-36 | over every run all rows meet the table's constraints, and a row of a workspace joins two different hubs of it, given that producers propose inside theirs |
| `EdgeStore.RunKeepsOne` | migrations/006_add_hub_edges.sql:44-48 | over every run of calls, type changes included, a key has at most one unarchived row |
| `EdgeStore.ApplyKeepsAgreementIff` | memory_lab/graph/hub_edge_store.py:137-166 | from agreeing rows a call keeps every key that of its row if and only if it is not an accepted update of a visible row to another type, a guard on the table and the call alone |
| `EdgeStore.RunKeepsAgreementIff` | memory_lab/graph/hub_edge_store.py:21-23 | over a whole run every state agrees if and only if no call is such an update |
| `EdgeStore.ApplyKeepsUniqueIff` | migrations/006_add_hub_edges.sql:44-48 | from unique active pairs and types a call keeps them unique if and only if it is no permitted insert under an inactive key whose pair and type an active row already joins, and no accepted type change to the type of another active row of its pair |
| `EdgeStore.RunKeepsUniqueIff` | migrations/006_add_hub_edges.sql:44-48 | over a whole run every state has unique active pairs and types if and only if no call is such a call |
| `EdgeStore.ActivePairsAreUnique` | memory_lab/graph/hub_edge_store.py:90-98 | hence over every run without a type change no two active edges ever join the same hubs with the same type, in either direction |
| `EdgeStore.TypeChangeAllowsDuplicates` | memory_lab/graph/hub_edge_store.py:138-146 | after a type change the table accepts a duplicate active pair and type |
| `EdgeStore.PersistAppends` | memory_lab/graph/edge_inference.py:250-287 | a producer run changes no existing row and appends only unarchived rows with status inferred and origin ai_suggested, each with the data of one of its proposals and no note |
| `EdgeStore.PersistCounts` | memory_lab/graph/edge_inference.py:259-287 | exactly one row is inserted per proposed key without an active row, and all proposed keys are active afterwards |
| `EdgeStore.RerunInsertsNothing` | memory_lab/graph/edge_inference.py:250-287 | the same proposals again insert nothing |
| `EdgeStore.ApplyFrame` | memory_lab/graph/hub_edge_store.py:58-235 | no call changes a row it does not address, and no row disappears |
| `EdgeStore.RejectedStaysRejected` | memory_lab/graph/edge_inference.py:20-23 | a rejected row stays rejected, and the only active row of its key, over every run in which no human reopens it |
| `EdgeStore.DecisionTakesEffect` | memory_lab/graph/hub_edge_store.py:189-235 | an accepted decision leaves one active row for its key with its status, origin, confidence, reason and note; an existing row is reused, keeps endpoints, type, workspace and creator and what was not given, and no other row changes |
| `EdgeStore.LastDecisionWins` | memory_lab/graph/hub_edge_store.py:189-235 | of two accepted decisions on one pair and type, each given in any direction, the later stands on the same row |
| `EdgeStore.ArchiveFreesKey` | memory_lab/graph/hub_edge_store.py:96-98 | a valid edge of an active pair and type is refused in either direction until the row is archived |
| `EdgeInference.ConfidenceScale` | memory_lab/graph/edge_inference.py:84-85 | evidence at the threshold or above scores in [0.75, 0.95], monotonically, and ties only at the cap |
| `EdgeInference.CombinationsExact` | memory_lab/graph/edge_inference.py:114-114 | the pairs enumerated are exactly the ordered pairs of distinct hubs, each once |
| `EdgeInference.ProposeFromCoMembership` | memory_lab/graph/edge_inference.py:101-122 | each unordered pair is proposed once and exactly when its content overlap reaches the threshold |
| `EdgeInference.ProposeFromTagAlignment` | memory_lab/graph/edge_inference.py:138-171 | each unordered pair is proposed once and exactly when enough distinct documents mention both hubs |
| `EdgeInference.MentionedIff` | memory_lab/graph/edge_inference.py:138-160 | a document mentions a hub exactly when one of its tags, noise and empty ones aside, normalises to one of the hub's terms |
| `EdgeInference.NoiseSupportsNothing` | memory_lab/graph/edge_inference.py:138-160 | a document whose tags are all noise adds support to no pair |
| `EdgeInference.MergeProposals` | memory_lab/graph/edge_inference.py:174-190 | the nested loops compute the sorted keyed merge of all lists |
| `EdgeInference.MergeIsExact` | memory_lab/graph/edge_inference.py:174-190 | one proposal per proposed key, namely the first of the most confident ones with the union of all rules, strictly sorted by confidence descending, then key |
| `EdgeInference.MergeOrderIrrelevant` | memory_lab/graph/edge_inference.py:177-190 | keys, confidences and rules of the merged list do not depend on the order or repetition of the inputs |
| `EdgeInference.CoMembershipIsProposable` | memory_lab/graph/edge_inference.py:101-122 | what the membership signal proposes over known hubs meets every table constraint |
| `EdgeInference.TagAlignmentIsProposable` | memory_lab/graph/edge_inference.py:138-171 | so does what the tag signal proposes |
| `EdgeInference.RepeatedRunIsIdle` | memory_lab/graph/edge_inference.py:290-335 | a run over such proposals is never refused, inserts all kept proposals on a table without their keys, and repeating it inserts nothing |
| `EdgeInference.RunEdgeInference` | memory_lab/graph/edge_inference.py:290-335 | both signals, merge and cap over known hubs: the rows are exactly those of the strongest supported pairs in order, each with its greater confidence and the rules that support it, and a supported pair is missing only when the cap is reached and every row outranks it; on any table they are accepted, and written once only |

## Left out

- Whole-text scanners as regular expressions: the list-item scanner is any function from a window to positions, restricted to starting at newlines only where a lemma says so; paragraph, newline, sentence and whitespace scanners are concrete and proved equal to a left-to-right pattern search.
- Chunk ids, source metadata and quality flags: labels that no modelled decision reads; the metadata risks about missing labels are left out with them.
- The digest is any function of the text, collision-free only where a lemma requires it; digest strings and encodings are not modelled.
- Embedding of stored chunks and the word-count and workspace columns of the chunk table: side data that reconstruction does not read.
- The resolver's gate on confidence, memory type and classifier signals is one predicate of the call, and the resolved scope is an input of the call; anchor ids are not modelled.
- ConflictDetector.DetectCompeting: models the competing-anchor rule only; marker-based findings, contradictions, opposing claims, supersession tensions, candidate ids, deduplication by id, final ordering and the result limit are not modelled, and a row's scope after markers is an input.
- The historical-query classifier of the enrichment is a boolean input, and a demotion reason is a flag instead of a sentence.
- ScopeSlug.ResolveScope: marker extraction and the scores of lineage and hub rows are inputs, and a failed or skipped table tier is one without rows; lower-casing is any function that leaves slug characters alone.
- Decision texts, alternatives, tags, previews and conflict listings: field plumbing around the modelled table.
- CircuitBreaker.EvaluateCircuitState: the failure-reason summary and the rounding of the displayed cooldown are not modelled; times are reals.
- GraphHealth.ComputeTopologyMetrics: the coverage is not rounded to four decimals.
- The health scores, index searchability, alias hygiene and consistency warnings: arithmetic settled by reading one body.
- QueryExpansion.ExpandQuery: the neighbour lookup and the alias table are functions, so confidence filters and workspace filters are part of them; approved edges are not claimed to be walked.
- HybridSearch.HybridSearch: stops before the score boost and the caller's rerank; knowledge paths are not modelled, expanded terms and row texts are taken in lower case, and the expanded terms are an input.
- EdgeStore.HubEdgeStore: deletion of hubs, weights and timestamps are not modelled; hub ids are ordered values in canonical spelling, and listing and reading edges is left out.
- EdgeStore.HubEdgeStore.PersistEdgeProposals: the stored reason text is an input, without its 500-character cut.
- EdgeInference.MergeProposals: proposals are values, so input objects mutated by a merge are not observed; rules are sets, reasons are short names, and the order of keys is a parameter.
- EdgeInference.ProposeFromTagAlignment: term normalisation is a parameter and the hub term index is given with distinct hubs.
- Transactions, concurrency between connections, web and tool servers, authentication, command-line tools and report writers.
