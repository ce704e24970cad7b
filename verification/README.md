# A verified model of the data-pipeline governance layer

This project models the parts of the pipeline governance layer that carry state, protocols or translations, and
proves what they promise:

- **Handoff cycles** (`HandoffCycles.dfy`, on `Graphs.dfy`): the recursive three-colour search over handoff routes. It
  reports nothing iff the forward graph is acyclic, every report is a real simple cycle, and the last edges of the
  reports are a feedback arc set that the reversed finishing order certifies.
- **Assertions** (`Sql.dfy`, `Assertions.dfy`): the assertion language is compiled to counting queries over tables with
  nullable cells and three-valued logic (section 8.12 of ISO/IEC 9075:1992), and the answers mean what the language
  says. `InList.dfy` is the lexer and printer of `IN (...)` lists with both of its round trips, and `InAssertions.dfy`
  leads from the text of a list to the verdict.
- **Derived columns** (`Derive.dfy`): aggregate, then left join back, is a window computation.
- **Lineage** (`LineageStore.dfy`, `LineageQuery.dfy`): the event and edge store, the two explicit-stack traversals on
  arbitrary, possibly cyclic, graphs, and the queries on top of them.
- **Dual write** (`DualWrite.dfy`): `emit` as steps of concurrent threads over two stores, with upserts that may fail
  before or after taking effect, and the sequential code as one thread of that protocol.
- **Masking and its gates** (`Masking.dfy`, `PiiValidator.dfy`, `PostPipelineGate.dfy`): what masking does to
  references and joins, and the agreement between the masker's formats and the two checks that read them later.
- **Key rotation and approvals** (`KeyRotation.dfy`, `HumanApproval.dfy`): clocked state machines, with properties over
  all runs.
- **Contracts and loading** (`Contracts.dfy`, `DataLoad.dfy`): the version chain and its hash index with three
  independent verifiers, and the stage-then-swap load.

Objects whose methods update fields are classes here too; each method is proved against a function on values, and the
properties over runs are lemmas about those functions. Python dictionaries are maps, iterated in any order, so no
theorem depends on iteration order. Clock readings, fresh identifiers, random samples and the responses of external
stores are parameters or left open. Hashes are parameters (`Mac`, `Digest`, `PointId`); injectivity is a hypothesis only
where a statement says so. `Common.dfy` and `Strings.dfy` hold list and string vocabulary.

Where code and documentation disagree, the model follows the code:

- `emit` says it holds a lock during the write; the writes run outside it (lineage/emitter.py:114, lineage/emitter.py:142).
- The retry loop announces backoffs of 1, 3 and 9 seconds; the last is never slept (lineage/qdrant_writer.py:32, lineage/qdrant_writer.py:222).
- `is_version_accessible` promises the current key; a status check that finds it due locks it out (gates/key_rotation.py:293, gates/key_rotation.py:338).
- Sensitive events are promised to be in both stores; Qdrant keeps one event per content hash, and the tools' hashes leave out pipeline, session and time (lineage/qdrant_writer.py:171, tools/data_load.py:31).
- `accessible_versions` lists retained versions past their limit (gates/key_rotation.py:156).
- The scan looks for sensitive columns in a table's first row only (gates/pii_validator.py:164).
- A comment accepts FPE values in restricted columns; the test refuses them (gates/post_data_pipeline.py:511).
- Approvals are said to be approve, reject or request-changes; a submitted PENDING or TIMEOUT is not refused (gates/human_approval.py:275).
- A review time without time zone makes both freshness checks raise instead of rejecting (contracts/steward_gate.py:185, contracts/contract_validator.py:263).
- `create_contract` speaks of a new contract but does not look for an existing one (contracts/contract_manager.py:117).
- Thresholds of `ROW_COUNT` and `COUNT(DISTINCT ...)` are cut to integers (quality/assertion_engine.py:215).
- The lineage graph is called a DAG; cycles are not refused (lineage/pg_writer.py:143).

## Model

| member | source | states |
|---|---|---|
| HandoffCycles.DetectHandoffCycles | agents/__init__.py:216-270 | for every route list and every node order: the searched edges are those of routes with both ends named and a direction other than direct and return; empty result iff they form no cycle; each report is a simple cycle of them; without the closing edges the graph is acyclic and the reversed finishing order sorts it |
| HandoffCycles.BuildGraph | agents/__init__.py:232-239 | an edge leads from u to v iff some route with both ends named, neither direct nor return, does; each source lists its targets in route order and multiplicity |
| HandoffCycles.OtherRoutesAreIgnored | agents/__init__.py:233-235 | a direct or return route anywhere in the list changes neither edges nor lists |
| HandoffCycles.TargetsConcat | agents/__init__.py:233-239 | targets are listed route by route: concatenated routes give concatenated lists |
| HandoffCycles.CycleSearch.Dfs | agents/__init__.py:253-264 | one call restores the live path, finishes its node, only extends what was finished and reported, and uses up white nodes |
| HandoffCycles.CycleSearch.SearchAll | agents/__init__.py:266-268 | every node ends up finished, whatever order roots are taken in |
| HandoffCycles.EnterNode | agents/__init__.py:254-255 | graying a white successor keeps the search invariant |
| HandoffCycles.ReportCycle | agents/__init__.py:257-260 | a gray neighbour closes a simple cycle, and the back edge becomes a closing edge |
| HandoffCycles.LeaveNode | agents/__init__.py:263-264 | blackening a node whose edges are accounted for keeps the finishing order sound |
| HandoffCycles.FinishingOrderIsTopological | agents/__init__.py:256-268 | minus the closing edges, the reversed finishing order is a topological order |
| HandoffCycles.EveryCycleIsCut | agents/__init__.py:257-260 | every directed cycle runs through the closing edge of a reported one |
| Assertions.RowAssertionMeaning | quality/assertion_parser.py:259-381 | IS NOT NULL, comparison, BETWEEN and IN pass iff no row makes them FALSE, and report the number of rows that do |
| Assertions.WhereSelectsViolations | quality/assertion_parser.py:268-373 | each generated WHERE clause is TRUE of exactly the violating rows under three-valued logic |
| Assertions.UniqueMeaning | quality/assertion_parser.py:278-295 | IS UNIQUE passes iff the column is NULL-free and pairwise distinct; it reports NULLs plus repeats |
| Assertions.FailConditionMeaning | quality/assertion_parser.py:259-381 | a row or uniqueness assertion fails iff its reported count meets the printed condition, count > 0 |
| Assertions.NullsRepeatsAndValues | quality/assertion_parser.py:287-287 | COUNT(*) splits into NULLs, repeats and COUNT(DISTINCT) |
| Assertions.TruncationExactness | quality/assertion_engine.py:214-254 | per operator, the exact condition under which cutting the threshold changes no verdict |
| Assertions.TruncationExactForAllOperators | quality/assertion_engine.py:241-254 | all six operators are exact iff the threshold is an integer or at most -1 |
| Assertions.ThresholdMeaning | quality/assertion_engine.py:163-177 | the verdict compares with the cut threshold and a failure reports the count; for harmless thresholds it is exact and the negation of the printed fail condition |
| Assertions.HarmfulThresholdMisjudges | quality/assertion_engine.py:214-216 | otherwise some table gets the verdict its fail condition contradicts |
| Assertions.NegatedComparison | quality/assertion_parser.py:444-454 | the negated operator is the complement |
| Assertions.ErrorsExactly | quality/assertion_engine.py:122-138 | a query errs iff table or column is missing or a cell does not compare with the literals |
| Assertions.RunAssertions | quality/assertion_engine.py:55-110 | all lines run; an answerable line gets the verdict and count of its meaning, an unparsable or unanswerable one fails with -1; the run blocks iff asked to and some line failed, in particular on each of the latter |
| Assertions.ExecuteSingleMeaning | quality/assertion_engine.py:112-147 | the outcome of a line is that of its meaning if it can be answered, and a failure with count -1 if it does not parse or the database errs |
| InList.SplitInValues | quality/assertion_parser.py:416-441 | the character loop yields the specified parts |
| InList.SplitIsInvertible | quality/assertion_parser.py:416-441 | joining the parts gives back the input but for one trailing comma outside quotes |
| InList.SplitIsComplete | quality/assertion_parser.py:423-436 | no part holds a comma outside quotes |
| InList.ParseInValues | quality/assertion_parser.py:386-413 | returns the printed list of the values meant, or the error of the first bad part or of an empty list |
| InList.RefusedExactly | quality/assertion_parser.py:391-411 | a list is refused iff some part is neither blank, quoted nor a number |
| InList.FirstBadIsReported | quality/assertion_parser.py:394-409 | the first such part is the one reported |
| InList.OneValuePerPart | quality/assertion_parser.py:394-409 | an accepted list has one value per part that is not blank |
| InList.NumberLanguage | quality/assertion_parser.py:406-409 | numbers are exactly the decimal literals: sign, digits with or without a point, exponent |
| InList.QuotedParts | quality/assertion_parser.py:399-405 | a quoted part is a text between quotes of one kind, or a lone quote for the empty text |
| InList.EmittedListReadsBack | quality/assertion_parser.py:398-413 | reading the SQL by quote doubling (section 5.3 of ISO/IEC 9075:1992) gives each inner text and number in order |
| InList.WrittenListReadsBack | quality/assertion_parser.py:386-441 | a list written with a free kind of quote around each text is read as meant |
| InAssertions.InTextMeaning | quality/assertion_parser.py:340-364 | for every text of an IN list: the emitted query, read back, passes iff each cell is NULL or one of the values meant, and reports the number of the others |
| InAssertions.WrittenInMeaning | quality/assertion_parser.py:386-441 | the same from the values a user writes down to the verdict |
| Derive.DeriveIsWindow | quality/transform_engine.py:192-215 | for any group order: one row per input row, original columns unchanged, new field the aggregate of exactly the rows with equal key cells, each as often as it occurs, or NULL for a NULL key |
| Derive.GroupOfMeaning | quality/transform_engine.py:192-196 | a group holds each row as often as the table does if it agrees in every key column, NULL with NULL, and not at all otherwise |
| Derive.CountingDerive | quality/transform_engine.py:192-216 | a counting aggregate derives the number of rows with equal key cells |
| Derive.JoinConditionMeaning | quality/transform_engine.py:200-204 | the join condition is TRUE iff keys are equal and NULL-free |
| Derive.MatchesOwnGroup | quality/transform_engine.py:210-215 | a row meets exactly its own group row, or none when a key is NULL |
| Derive.EqualKeysEqualValues | quality/transform_engine.py:192-196 | rows of equal key get equal values |
| Derive.GroupRows | quality/transform_engine.py:192-196 | grouping yields one row per distinct key with that group's aggregate |
| Derive.BareName | quality/transform_engine.py:183-187 | the part after the last dot |
| Derive.BareNameMeaning | quality/transform_engine.py:183-187 | qualified or plain, a name gives its part after the last dot |
| Derive.Executor.ExecuteDerive | quality/transform_engine.py:175-222 | succeeds iff both CREATE statements are accepted, said of table, columns and names; then only the window table is added and registered, its new field deriving per group; a failure of the second leaves the intermediate table behind |
| LineageStore.PgLineageWriter.WriteEvent | lineage/pg_writer.py:77-114 | adds one row under a fresh id |
| LineageStore.PgLineageWriter.AddDagEdge | lineage/pg_writer.py:116-165 | adds the edge iff type and both endpoints are known, so all endpoints stay registered |
| LineageStore.PgLineageWriter.GetParents | lineage/pg_writer.py:260-265 | exactly the edges into the event |
| LineageStore.PgLineageWriter.GetChildren | lineage/pg_writer.py:253-258 | exactly the edges out of the event |
| LineageStore.PgLineageWriter.Values | lineage/pg_writer.py:73-106 | exactly the stored rows, in insertion order |
| LineageStore.PgLineageWriter.StoreContractVersion | lineage/pg_writer.py:167-204 | appends the version and touches no other |
| LineageStore.PgLineageWriter.TraceAncestry | lineage/pg_writer.py:267-287 | terminates on every store; lists exactly the events that reach the start, once each, start first, each later one a parent of an earlier one |
| LineageStore.PgLineageWriter.TraceDescendants | lineage/pg_writer.py:289-309 | the same forward |
| LineageStore.Visit | lineage/pg_writer.py:277-285 | visiting an unvisited stack top keeps the traversal invariant |
| LineageStore.TraversalEnds | lineage/pg_writer.py:276-287 | an empty stack means the list is exact |
| LineageStore.TraversalsAreDual | lineage/pg_writer.py:253-309 | a is in the ancestry of b iff b is in the descendants of a |
| LineageQuery.LineageQueryEngine.TraceProvenance | lineage/query.py:80-132 | a duplicate-free, timestamp-sorted list of exactly the union of the ancestries of the matching events |
| LineageQuery.LineageQueryEngine.ImpactAnalysis | lineage/query.py:134-190 | each named target of a descendant appears once, with an event that writes it, and nothing else appears |
| LineageQuery.LineageQueryEngine.AuditPii | lineage/query.py:192-226 | exactly the sensitive events of the period in time order, with their number per class |
| LineageQuery.LineageQueryEngine.TargetEvents | lineage/pg_writer.py:318-332 | exactly the stored events whose target table and tier are those asked for, an empty name matching all |
| LineageQuery.LineageQueryEngine.SourceEvents | lineage/pg_writer.py:311-316 | exactly the stored events that read the table |
| LineageQuery.Merge | lineage/query.py:116-122 | merging one more traversal keeps the duplicate-free union |
| LineageQuery.DistinctTargets | lineage/query.py:169-184 | one entry per distinct named target |
| LineageQuery.SameTarget | lineage/query.py:172-176 | two events write the same target iff table and tier agree, missing names counting as empty |
| LineageQuery.CountClasses | lineage/query.py:214-218 | the classes that occur, each with its number of events |
| DualWrite.SensitiveReturnMeansBothStores | lineage/emitter.py:173-187 | over every interleaving, a sensitive emit that returns normally has its row stored, and its event in Qdrant iff it was the last put on its point, in particular if all emits on the point carry it; its content hash stays even otherwise, unless a different hash collides |
| DualWrite.EqualHashDisplaces | lineage/qdrant_writer.py:171-211 | two different sensitive events of equal content hash: both emits return success without a warning, and the first event is in PostgreSQL only |
| DualWrite.StoreSizes | lineage/qdrant_writer.py:106-116 | one row per successful row write, holding its event; only hashes that took effect are points, and there is one point for each, holding it, iff no two of them collide |
| DualWrite.GapIsAccountedFor | lineage/emitter.py:173-222 | a hash in one store only belongs to emits that raised, warned or are in flight, unless the point holds a different hash that collides |
| DualWrite.EventGapIsAccountedFor | lineage/emitter.py:173-222 | an event in one store only belongs to emits that raised, warned or are in flight, unless another emit has put a different event on its point |
| DualWrite.PointHoldsLastUpsert | lineage/qdrant_writer.py:178-211 | whatever the interleaving, a point holds the event of the last upsert that took effect on it |
| DualWrite.InvariantHolds | lineage/emitter.py:147-222 | every step of every thread keeps the protocol invariant |
| DualWrite.StepKeepsRows | lineage/emitter.py:160-163 | every step keeps rows and successful writers in one-to-one correspondence |
| DualWrite.StepKeepsPoints | lineage/qdrant_writer.py:178-211 | every step keeps the points those of the hashes that took effect |
| DualWrite.StepKeepsPointEvents | lineage/qdrant_writer.py:178-211 | every step keeps each point the event of some emit that took effect there |
| DualWrite.FailedLoopBackoff | lineage/qdrant_writer.py:178-227 | a failed retry loop sleeps (3^(MAX-1)-1)/2, that is 4, seconds |
| DualWrite.TotalBackoffClosedForm | lineage/qdrant_writer.py:214-223 | the sum of the backoffs in closed form, for any number of retries |
| DualWrite.LeavesNothingExactly | lineage/emitter.py:147-187 | an emit, raising or not, leaves its hash in neither store iff all its upserts were refused and its row write failed; one that raised for PostgreSQL always leaves its point (RaisedMayBeStored is a run that raises with the event in both stores) |
| DualWrite.AttemptStep | lineage/qdrant_writer.py:179-223 | what one attempt does to store, backoff and phase, for each response of the store |
| DualWrite.FinishEmit | lineage/emitter.py:160-222 | row write and decision after the upserts, for each combination of failures |
| DualWrite.LineageEmitter.WriteQdrant | lineage/qdrant_writer.py:157-227 | the retry loop succeeds iff one of its attempts is acknowledged, changes its point iff one took effect, and is the run of the protocol that the responses prescribe |
| DualWrite.LineageEmitter.EmitEvent | lineage/emitter.py:110-222 | one emit is one thread of the protocol, with both stores given afterwards; it reports success iff both writes succeed, warns otherwise, and raises, naming Qdrant first, iff the data is sensitive and one failed; a new event is in neither store afterwards iff all attempts are refused and the row write fails |
| Masking.SimulateMaskingApi | tools/data_mask.py:102-150 | masks every cell by its column's strategy, for any order of tables, rows and columns |
| Masking.BuildStrategyMap | tools/data_mask.py:108-120 | each column gets the strategy of the last rule naming its class, else the default |
| Masking.ColumnStrategyMeaning | tools/data_mask.py:108-120 | the last rule naming the class decides, its strategy before its action; else the default, tokenizing if there is none; a column without class is public |
| Masking.MaskTable | tools/data_mask.py:126-142 | the rows of a table, masked in order |
| Masking.MaskOneRow | tools/data_mask.py:128-141 | each cell masked by the strategy of its qualified column |
| Masking.MaskedForms | tools/data_mask.py:130-141 | what each strategy writes, as text; any other strategy leaves the value |
| Masking.UnlistedColumnStays | tools/data_mask.py:129-132 | a column without strategy is unchanged |
| Masking.MaskingKeepsShape | tools/data_mask.py:123-144 | tables, row counts and row keys are unchanged |
| Masking.MaskingKeepsInclusions | tools/data_mask.py:129-141 | columns of one strategy keep every inclusion of values |
| Masking.MaskingAndForeignKeys | tools/data_mask.py:134-139 | an SQL foreign key survives iff no child value is missing or some parent value is masked like a missing one: any under redaction, one with the digest of None under hashing |
| Masking.ForeignKeyBreaks | tools/data_mask.py:134-139 | a foreign key with one missing child value, sound before tokenizing and broken after it |
| Masking.MaskingKeepsJoins | tools/data_mask.py:136-139 | an equality join over two hashed columns selects the same pairs iff no digest collides |
| Masking.MaskingAndSqlJoins | tools/data_mask.py:136-139 | under SQL equality the join is kept iff missing values do not meet in both columns |
| PiiValidator.PIIValidator.Validate | gates/pii_validator.py:130-206 | totals and one report per sensitive column of each sampled table; there is a result iff the analyser answers for every sampled sensitive cell it is asked about; it passes iff each such cell has a right format or the analyser was asked, answered and found nothing; when the tables fit the sample, iff every cell of the sensitive columns of the first rows is clean; format-clean data passes without any analyser call |
| PiiValidator.PIIValidator.ScanTable | gates/pii_validator.py:164-181 | fails iff the analyser fails on some sensitive cell; else one report per sensitive column, and the number of those with violations |
| PiiValidator.PIIValidator.ScanColumn | gates/pii_validator.py:226-306 | counts exactly the rows with a format violation or a finding of the analyser and names exactly these; calls the analyser iff some cell's format leaves the matter open; fails iff it then fails |
| PiiValidator.CellVerdict | gates/pii_validator.py:244-326 | one cell, said of its format and the analyser: when it is asked, when it fails, what is wrong, and when the cell passes |
| PiiValidator.FindingsAreFlaws | gates/pii_validator.py:256-283 | whatever the analyser finds in a text it is asked about is reported, and the cell does not pass |
| PiiValidator.ReportMeaning | gates/pii_validator.py:226-306 | a report counts exactly the flawed rows and names exactly their flaws |
| PiiValidator.TokenLanguage | gates/pii_validator.py:37-41 | tokens are exactly the words of the three patterns, with or without a final newline |
| PiiValidator.RedactedForms | gates/pii_validator.py:329-336 | redacted are exactly missing values, blanks and the three placeholders with blanks around them |
| PiiValidator.FirstRowDecides | gates/pii_validator.py:164-166 | columns that the first row lacks are never looked at: the verdict is the same whatever later rows hold there |
| PiiValidator.LateColumnEscapes | gates/pii_validator.py:164-181 | a dataset that passes with any value in a confidential column, under any analyser |
| PiiValidator.OutagePassesOnFormatOnly | gates/pii_validator.py:308-326 | while the analyser is down, a table can be read and is clean iff every sampled sensitive cell is in order by its format |
| PiiValidator.CleanByFormatMeansUnread | gates/pii_validator.py:249-283 | a cell is clean without asking the analyser iff its format is in order |
| PiiValidator.DescribedClean | gates/pii_validator.py:183-183 | the reports of a table show no violation iff its sensitive columns are clean |
| PiiValidator.DescribeTable | gates/pii_validator.py:150-191 | one more table keeps totals and reports in agreement with the samples |
| PostPipelineGate.MaskedOutputPasses | gates/post_data_pipeline.py:450-545 | if sensitive columns resolve to redact or tokenize, the masked output passes both checks, for every sample and analyser |
| PostPipelineGate.ContractDrivenMaskingPasses | tools/data_mask.py:109-120 | the same for the strategies derived from contract and policy |
| PostPipelineGate.MaskedCellIsAccepted | gates/pii_validator.py:329-346 | the masker's redacted and tokenized formats satisfy both readers |
| PostPipelineGate.RestrictedColumnVerdict | gates/post_data_pipeline.py:506-521 | exactly when a masked restricted column passes, strategy by strategy; FPE values are refused |
| PostPipelineGate.CappedScan | gates/post_data_pipeline.py:499-521 | capping keeps the verdict, and the count is at most 9 plus the number of restricted columns |
| PostPipelineGate.CappedBelowTen | gates/post_data_pipeline.py:499-521 | below ten violations the number is exact |
| PostPipelineGate.CappedExactly | gates/post_data_pipeline.py:499-521 | from the column on that reaches the tenth, each later column with a violation adds one to ten |
| PostPipelineGate.CheckRestrictedData | gates/post_data_pipeline.py:450-545 | the verdict is that of the uncapped scan, with the bound on the count |
| PostPipelineGate.ScanRestricted | gates/post_data_pipeline.py:500-521 | the nested loops with their inner break compute the capped count |
| PostPipelineGate.CountColumn | gates/post_data_pipeline.py:508-521 | one column adds its violations up to the cap, and one when the cap is already reached |
| PostPipelineGate.RestrictedColumns | gates/post_data_pipeline.py:486-490 | exactly the columns classified restricted in any case, once each |
| PostPipelineGate.SplitJoins | gates/post_data_pipeline.py:502-505 | a name splits iff it has a dot, at the first one, and qualifying undoes it |
| PostPipelineGate.AcceptableForms | gates/post_data_pipeline.py:510-518 | acceptable are exactly missing and empty values, two placeholders and texts with one of two prefixes |
| PostPipelineGate.CheckMasking | gates/post_data_pipeline.py:311-394 | passes iff all inputs are given and every sampled sensitive cell has a right format or the analyser was asked, answered and found nothing; always passes on format-clean data |
| PostPipelineGate.Evaluate | gates/post_data_pipeline.py:141-211 | all six checks run; the gate passes iff each does, and names the failed ones; an analyser failure fails the masking check and so the gate |
| KeyRotation.OnlyCurrentIsActive | gates/key_rotation.py:165-205 | over every run, a version is CURRENT, WARNING or OVERDUE iff it is the current one, and is due one interval after its creation |
| KeyRotation.StatusMovesForward | gates/key_rotation.py:207-320 | from any point of a run to any later one the status of a version not installed anew stays or moves strictly forward |
| KeyRotation.SweepIsInvisible | gates/key_rotation.py:227-234 | a tracker that never swept would give every answer of `is_version_accessible` alike, now and later |
| KeyRotation.SweepShowsInList | gates/key_rotation.py:156-163 | the sweep shows in `accessible_versions`: exactly the versions marked ROTATED leave the list |
| KeyRotation.ListedButInaccessible | gates/key_rotation.py:156-163 | the list and `is_version_accessible` differ by exactly the RETAINED versions whose limit has come |
| KeyRotation.TwinsPerform | gates/key_rotation.py:227-241 | every call keeps a swept and an unswept tracker indistinguishable |
| KeyRotation.RetiringTwice | gates/key_rotation.py:236-241 | the double retirement in a rotation equals a single one |
| KeyRotation.RetiredUntilLimit | gates/key_rotation.py:340-343 | a retired version not installed anew is accessible up to its fixed limit and never after, whatever is called |
| KeyRotation.RotatedOutForOneInterval | gates/key_rotation.py:368-377 | the replaced version, unless installed anew, stays readable for exactly one interval |
| KeyRotation.PromiseKeptExactly | gates/key_rotation.py:326-344 | the documented answer is given iff the version does not carry WARNING or OVERDUE |
| KeyRotation.CheckLocksOutCurrent | gates/key_rotation.py:289-320 | a status check locks the current key out iff rotation is overdue or due within the threshold |
| KeyRotation.LockedOutExactly | gates/key_rotation.py:280-344 | over every run, the current version is inaccessible iff some status check since its installation came when rotation was overdue or due within the threshold |
| KeyRotation.LockedOutRun | gates/key_rotation.py:289-305 | under every configuration some run from the start locks its current version out for good |
| KeyRotation.KeyRotationTracker.Initialize | gates/key_rotation.py:165-205 | retires the current version and installs the new one, under a known or a new id, and keeps the invariant |
| KeyRotation.KeyRotationTracker.StoreNewKey | gates/key_rotation.py:183-198 | retires the current key and installs the new one |
| KeyRotation.KeyRotationTracker.Retire | gates/key_rotation.py:368-377 | sets status, retirement time and retention limit of a known version |
| KeyRotation.KeyRotationTracker.SweepRetained | gates/key_rotation.py:227-234 | marks exactly the retained versions past their limit |
| KeyRotation.KeyRotationTracker.RotateKey | gates/key_rotation.py:207-243 | marks retained versions past their limit, retires the current key for one interval and installs the new one, due one interval later |
| KeyRotation.KeyRotationTracker.CheckStatus | gates/key_rotation.py:280-320 | OVERDUE iff the due date has passed, WARNING iff it is within the threshold, and writes the status into the current key unless it is CURRENT |
| KeyRotation.KeyRotationTracker.IsVersionAccessible | gates/key_rotation.py:326-344 | answers by status and retention limit |
| HumanApproval.ConsumedAtMostOnce | gates/human_approval.py:252-350 | over every run a token is consumed once if it ends up used, and never otherwise |
| HumanApproval.UsedTokenIsFrozen | gates/human_approval.py:243-350 | no later call changes anything in a used token |
| HumanApproval.GeneratedTokenLives | gates/human_approval.py:213-250 | over every run, a token generated and not consumed since is accepted iff at most one timeout has passed and times out iff more has; it stays the token of its execution and contract |
| HumanApproval.TokenIdentityIsKept | gates/human_approval.py:252-350 | no call changes the ids and times of a token, and none changes it without consuming it |
| HumanApproval.DecisionHasCause | gates/human_approval.py:275-350 | every decision comes from the call that consumed the token: a submission validated no later than expiry, whose decision it is, or a check after expiry, which makes it TIMEOUT |
| HumanApproval.DecisionLateExactly | gates/human_approval.py:275-296 | over every run, a submitted decision is recorded after expiry iff the validating and the recording read of the consuming submission straddle it, which they cannot if the submission ends by expiry (DecisionTimeMayBeLate is a run where they do) |
| HumanApproval.EarlyTimeoutExactly | gates/human_approval.py:275-345 | over every run, TIMEOUT is recorded by expiry iff it was itself submitted and recorded by then |
| HumanApproval.OddDecisionsStand | gates/human_approval.py:275-314 | runs in which a submitted TIMEOUT stands by expiry and a submitted PENDING uses a token up undecided |
| HumanApproval.AuditIsComplete | gates/human_approval.py:281-342 | the log only grows, by exactly the entry of each submission and each timeout, in order |
| HumanApproval.AuditSize | gates/human_approval.py:281-342 | over every run from the start the log has one entry per submission and one per timed-out token, a submitted TIMEOUT counting once |
| HumanApproval.AuditMatchesTokens | gates/human_approval.py:298-342 | the log accepts as many decisions as there are used tokens |
| HumanApproval.RunKeepsWellFormed | gates/human_approval.py:213-335 | over every run used tokens are exactly those with a decision, and expiry stays one timeout after creation, iff no submission of PENDING was accepted |
| HumanApproval.HumanApprovalWorkflow.GenerateApproval | gates/human_approval.py:191-232 | adds a pending token with the given ids, created at the clock read and expiring one timeout later |
| HumanApproval.HumanApprovalWorkflow.ValidateToken | gates/human_approval.py:234-250 | accepts iff known, unused and not past expiry, and names the first reason otherwise |
| HumanApproval.HumanApprovalWorkflow.SubmitDecision | gates/human_approval.py:252-314 | on success the token carries the decision, reason and time and one entry accepts it; on refusal only an entry with the reason is added |
| HumanApproval.HumanApprovalWorkflow.CheckForTimeout | gates/human_approval.py:316-350 | iff the token is known, unused and past its expiry, it becomes TIMEOUT and one system entry is added; else nothing changes |
| HumanApproval.HumanApprovalWorkflow.RecordAudit | gates/human_approval.py:438-461 | appends one entry |
| HumanApproval.HumanApprovalWorkflow.GetDecisionOf | gates/human_approval.py:356-373 | the decision after a possible timeout |
| Contracts.VersionChain | contracts/contract_manager.py:117-272 | with at most one creation: versions are 1..n, version v returns the v-th text, the latest is n |
| Contracts.ChainHolds | contracts/contract_manager.py:173-219 | store and index form one chain of all texts |
| Contracts.ChainExactly | contracts/contract_manager.py:117-123 | versions are exactly 1..n once each iff the pipeline was created at most once |
| Contracts.FirstsAreCreations | contracts/contract_manager.py:117-123 | every creation leaves one more version 1 behind |
| Contracts.SortingChain | lineage/pg_writer.py:334-341 | sorting a chain by version changes nothing |
| Contracts.VerifiersAgree | contracts/artifact_integrity.py:164-213 | for a pipeline created at least once and without a hash registered since its last text, all three verifiers accept a text iff its hash is that of the text given last |
| Contracts.VerifiersAccept | contracts/artifact_integrity.py:100-213 | over every run of creations, updates and registered hashes: what each verifier accepts, and exactly when the three agree on a text |
| Contracts.LatestIsVerifiedExactly | contracts/contract_manager.py:117-219 | the index names the latest stored version iff no creation has followed an update without a further update and no hash was registered since; the stored latest text is accepted iff its hash is the registered one, or without one iff that holds or the two texts collide |
| Contracts.CreationIsSafeExactly | contracts/contract_manager.py:117-130 | a creation leaves the index naming the latest version iff no version above 1 is stored before it |
| Contracts.RecreationDiverges | contracts/contract_manager.py:117-130 | create A, update to B, create C: the latest contract is B, the verifiers accept C and reject B |
| Contracts.UncreatedPipeline | contracts/steward_gate.py:207-221 | without a creation and a registered hash the store rejects every text and the gate admits every text |
| Contracts.GateNamesFirstFailure | contracts/steward_gate.py:80-246 | the gate admits iff all five checks hold, else names the first that fails; it raises iff the first three hold and the review time has no time zone |
| Contracts.GateImpliesFresh | contracts/contract_validator.py:223-283 | under one limit an admitted contract is fresh for the validator, and where the gate raises the validator does |
| Contracts.FreshnessMeaning | contracts/contract_validator.py:223-283 | fresh iff reviewed within the limit in days; raises iff the review time has no time zone |
| Contracts.ContractManager.constructor | contracts/contract_manager.py:34-51 | makes room for contract hashes and changes nothing else in the state |
| Contracts.ContractManager.RegisterVersion | contracts/contract_manager.py:206-219 | appends the version and overwrites the index entry with its number and hash |
| Contracts.ContractManager.CreateContract | contracts/contract_manager.py:72-139 | stores version 1 and overwrites the index entry |
| Contracts.ContractManager.UpdateContract | contracts/contract_manager.py:141-229 | stores the next version, or changes nothing when there is none |
| Contracts.ContractManager.GetContract | contracts/contract_manager.py:231-272 | the latest, or the first stored with the wanted number |
| Contracts.ArtifactIntegrity.RegisterHash | contracts/artifact_integrity.py:100-136 | overwrites one entry of a known type; for a contract, as the modelled call |
| Contracts.ArtifactIntegrity.Verify | contracts/artifact_integrity.py:138-213 | valid iff an entry exists and the hashes agree |
| DataLoad.Execute | tools/data_load.py:127-265 | wherever staging fails, all or nothing: success installs exactly the given rows; failure leaves all targets as they were; no staging entry of this load remains and others are untouched |
| DataLoad.ApprovalTokens | tools/data_load.py:67-80 | a token is 64 or more lower-case hexadecimal digits, with or without a final newline |
| DataLoad.SwapAll | tools/data_load.py:202-205 | once everything is staged no swap fails |
| DataLoad.StageAll | tools/data_load.py:190-200 | staging stops at the first table that fails, before or after it is on record; every staged table is on record under its own name, others are untouched |
| DataLoad.DropAll | tools/data_load.py:207-210 | removes exactly the staged names |
| DataLoad.SimulatedTargetStore.CreateStaging | tools/data_load.py:106-110 | stores the rows under the staging name |
| DataLoad.SimulatedTargetStore.SwapStaging | tools/data_load.py:112-116 | moves a staged table into place, or fails without effect |
| DataLoad.SimulatedTargetStore.DropStaging | tools/data_load.py:118-120 | removes one staged table if present |
| DataLoad.StagingNameInjective | tools/data_load.py:106-110 | different tables never share a staging name |

## Left out

- SQL text: assertions start from parsed fields and compile to query trees; identifier and injection patterns, MATCHES and custom ASSERT statements are not modelled.
- Implicit casts: a text cell compared with a number, or the reverse, is a conversion error here; the engine's casting of numeric texts is not modelled.
- Numeric literals: decimal notation only; nan, inf, underscores and float rounding are not modelled, and the values of an IN list's numbers are a parameter.
- Unicode: stripping, lower-casing and patterns are those of ASCII text.
- Derive.Executor.ExecuteDerive: assumes that the new field is not already a column, because the naming of duplicate output columns belongs to the engine; the other transforms and the derive without GROUP BY are not modelled.
- Row order of joins: SQL leaves it open; the joined rows are given in the order of the left table.
- DualWrite.LineageEmitter.EmitEvent: schema validation before the first write, and missing event fields, are not modelled; a failing row write has no effect.
- LineageStore.PgLineageWriter.WriteEvent: stores only the fields that the traversals and queries read.
- KeyRotation.KeyRotationTracker.Initialize: version ids are arguments, known or new; generated ids, execution records and mismatch warnings are not modelled.
- HumanApproval.HumanApprovalWorkflow.GenerateApproval: tokens and token ids are arguments and must be new; payloads, user agents and notifications are not modelled.
- PostPipelineGate.Evaluate: contract coverage, quality, lineage completeness and referential integrity enter by their results; the gate registry is not modelled.
- Contracts.ContractManager.CreateContract: the returned contract document, timestamps and ids of stored versions are not modelled.
- DataLoad.Execute: a missing target store, lineage events of the load and timings are not modelled.
- Aliasing: keys, tokens and rows are values, so changes that callers make to returned objects from outside are not captured.
- Recursion depth: Python's recursion limit in the cycle search is not modelled.
- Threads: only the dual write is interleaved; the other objects are used by one caller at a time.
- Contract checks against pipelines and schemas, schema drift, GDPR records, tool registry, profiling, connections and the telemetry emitter: they would only add easy members.
