# Verification of Agent Braid's planning, runtime and accounting rules

Agent Braid decides which agent tasks may be reordered, plans their order, executes fixed Git patches in a
private repository that survives crashes, and keeps the accounts of what was measured, approved and learned.
This project models those rules in Dafny and proves what they are for. `dafny verify dfyconfig.toml` checks
everything.

## What is modelled

- **Dependencies and orders** (`DependencyGraphs`, `Analysis`, `GitReplay`, `Lexicographic`): batch
  validation by peeling, the ancestor fixpoint over a table updated in place, classification of pairs,
  enumeration of admissible orders, replay, verdict and preparation plan. An operation is a partial function
  on trees (or stores) whose failure absorbs.
- **Order independence** (`Traces`, `Footprints`, `Paths`, `PartialOrder`, `IntegrationWaves`, `Counterexamples`): classes of
  orders under swaps of adjacent independent operations, the greedy wave scheduler and the search for a
  smallest divergent witness. The main results: two orders share a class exactly when they order all dependent
  pairs alike; replaying one order per class gives the verdict of replaying all, and for patches that keep to their
  paths the comparison never finds a counterexample; a clean report means that the order does not matter.
- **The crash-recoverable runtime** (`GitManifest`, `RunDirectory`, `GitRuntime`): the rehearsal that seals a manifest,
  the durable writes of every session in their order, and a coordinator object over a durable disk that is proved to
  make exactly these writes. Every durable write costs one unit of a credit that is arbitrary, so a kill is allowed
  between any two writes; a locked Git command is two writes, with the lock file in between. Statements about runs
  range over any number of resumes, aborts and kills, and `GitRuntime.RunSessions` is the program they are about.
- **Exact statistics** (`Binomial`, `Outcomes`, `Evaluation`): Clopper-Pearson bounds by binary search over an exact
  scaled distribution, and the paired noninferiority verdict, all in integers and stated by the weight of the
  outcomes of the trials, listed one by one.
- **Ridge regression** (`Vectors`, `Regression`): Gauss-Jordan elimination on an array of rows, over the reals. The
  elimination stage by stage is a function of the equations, the refusal is stated by its pivots, and the result by its
  loss over the samples.
- **Scanner** (`JsoncLexer`, `Jsonc`): the comment and trailing-comma eraser over a character array, against a
  declarative reading of the text as tokens.
- **Accounts** (`Costs`, `Phases`, `Telemetry`): conservation of shared costs over arms, the interval-union sweep, and
  the telemetry recorder.
- **Lifecycles** (`Journal`, `Experience`): the journal of profile versions and the store of lessons, both
  derived by replaying events.

Digests are content addresses: a commit, a profile or a decision stands for itself, which is what an
injective digest gives. Identifiers of operations are their ranks in the sorted batch, and sorted
lists without repetition are sets where their order carries nothing.

## Where the code and its promises differ

- **A telemetry receipt can be refused after a legal session.** The phases of every legal session reconcile, but
  the receipt's digest is taken over canonical JSON with a budget of one mebibyte, and the recorder is closed before.
  `Telemetry.TelemetryRecorder.Finish` gives the exact condition, `Telemetry.FewCountersFit` a bound a caller
  can check, and `Telemetry.FullLogIsLost` a session that loses its recording.
- **A regression with one solution can be refused as singular.** With a positive ridge and the intercept column the
  normal equations always have exactly one solution (`Regression.NormalMatrixIsRegular`), yet `forecast_baselines.py:55`
  refuses a pivot within 1e-12. `Regression.FitRegression` gives the exact condition and
  `Regression.SilentSampleIsRefused` an input: one row with features `[0.0]` and ridge 1e-13.
- **Terminal events do not always fit an experience history.** A comment in `harness_experience.py` says that ordinary
  events stop early so that revocation, rollback and expiry always fit. Activation is exempt from the early
  stop too. `Experience.Leave` gives the exact condition and `Experience.HistoryCanFill` an active entry that can no
  longer be revoked.

## Model

| member | source | states |
|---|---|---|
| DependencyGraphs.AcyclicIffOrdered | agent_braid/git_replay.py:138-146 | a batch has an admissible serial order if and only if no operation depends on itself through any chain |
| DependencyGraphs.MinimalElement | agent_braid/analysis.py:206-213 | whatever part of an acyclic batch is left, some operation in it needs nothing else in it, so peeling can go on |
| DependencyGraphs.OrderedIsAcyclic | agent_braid/git_replay.py:138-146 | an admissible order rules out every dependency cycle |
| DependencyGraphs.CombinationsExact | agent_braid/analysis.py:315-317 | the enumeration of pairs holds every pair of distinct identifiers exactly once, smaller first |
| DependencyGraphs.StuckIsCyclic | agent_braid/analysis.py:206-213 | when nothing is ready although something is left, the batch is cyclic; shared by validation, planning and wave scheduling |
| Analysis.ValidateBatch | agent_braid/analysis.py:194-213 | a batch is accepted if and only if it is well formed; it is called cyclic only when it is closed and has a cycle |
| Analysis.Ancestors | agent_braid/analysis.py:224-237 | the in-place fixpoint ends, for every visiting order, with exactly the operations reachable through dependency chains |
| Analysis.ExpandedIsSound | agent_braid/analysis.py:230-236 | one in-place update adds only true dependencies and shrinks what is missing, which is why the fixpoint ends |
| Analysis.EffectMap | agent_braid/analysis.py:216-221 | the map holds for every resource exactly the kinds of effect of the declared, inferred and observed channels |
| Analysis.ClassificationMeaning | agent_braid/analysis.py:249-287 | the classification is the one that dependency chains and the effects of the records determine: conflicting exactly for an unordered pair with a change on a shared resource, unknown exactly when nothing collides but an effect is incomplete or goes beyond reading and writing |
| Analysis.Interact | agent_braid/analysis.py:249-306 | the branch ladder, on the effect maps, yields that classification, and the named resources are exactly those both records have effects on |
| Analysis.Analyze | agent_braid/analysis.py:309-367 | a report exists exactly for a well formed batch and classifies every unordered pair once |
| Analysis.CandidateIsDeclared | agent_braid/analysis.py:258-278 | a candidate for independence has complete coverage on both sides, no external effect, and no shared resource with a write |
| Analysis.CandidatePairsCommute | agent_braid/analysis.py:258-278 | operations of a candidate pair that keep to their footprints commute as partial functions |
| Analysis.CleanReportIsOrderIndependent | agent_braid/analysis.py:309-367 | if every pair is ordered or a candidate, any two dependency-respecting orders of the whole batch reach the same state, or both fail |
| Footprints.DisjointFootprintsCommute | agent_braid/analysis.py:258-278 | two operations confined to footprints where neither writes what the other touches commute, including their failures |
| Traces.ConnectedIffSameDependentOrder | agent_braid/git_partial_order.py:63-99 | two orders are linked by swaps of adjacent independent operations if and only if they order every dependent pair alike |
| Traces.ConnectedSound | agent_braid/git_partial_order.py:63-99 | swaps of adjacent independent operations never reorder a dependent pair |
| Traces.BubbleDown | agent_braid/git_partial_order.py:84-97 | an operation independent of all before it can be moved to the front by adjacent swaps |
| Traces.ConnectedKeepsOutcome | agent_braid/git_partial_order.py:116-124 | if independent pairs commute, all orders linked by swaps reach the same tree or all fail |
| GitReplay.PermutationsExact | agent_braid/git_replay.py:138-146 | the enumeration holds every permutation of the identifiers exactly once |
| GitReplay.TopologicalOrdersExact | agent_braid/git_replay.py:138-146 | the listed orders are exactly the admissible ones, each once; listing fails if and only if the batch is cyclic |
| GitReplay.ReplayOrder | agent_braid/git_replay.py:252-281 | a replayed schedule ends in the tree that composing the patches gives, stops at the first failure, and its trace is true step by step |
| GitReplay.ReplayOrders | agent_braid/git_replay.py:233-285 | every selected order is replayed in isolation from the same base |
| GitReplay.VerdictMeaning | agent_braid/git_replay.py:308-313 | equivalent means one tree for every schedule; inconclusive means that some schedule has none |
| GitReplay.LayerStep | agent_braid/git_replay.py:427-433 | the operations ready in one round are exactly those whose longest dependency chain has that length |
| GitReplay.PlanWaves | agent_braid/git_replay.py:423-435 | waves exist exactly for acyclic batches, the wave number is the length of the longest dependency chain, and the flattened waves are an admissible order |
| GitReplay.MakePlan | agent_braid/git_replay.py:411-469 | the mode, the waves and the fallback order of a plan; the serial fallback is chosen exactly for a verified bundle that is no candidate and whose least order was replayed to its end |
| Lexicographic.LexMinUnique | agent_braid/git_replay.py:443-446 | the least of a set of orders is unique, so the fallback does not depend on how orders are listed |
| Lexicographic.LexMeaning | agent_braid/git_replay.py:443-446 | one order comes before another when it is a prefix of it or smaller at their first difference |
| PartialOrder.Prerequisites | agent_braid/git_partial_order.py:30-38 | the worklist ends with exactly the transitive dependencies of the operation |
| Paths.OverlapMeansRelated | agent_braid/git_partial_order.py:26-27 | two paths overlap exactly when, split at the slashes, the components of one begin with those of the other: the same file, or one inside the other |
| PartialOrder.IndependentPairs | agent_braid/git_partial_order.py:41-60 | a pair is independent exactly when it is incomparable, both observations are complete and no observed path of one lies at, above or below one of the other |
| PartialOrder.SwapKeepsAdmissible | agent_braid/git_partial_order.py:63-99 | swapping adjacent independent operations of an admissible order gives an admissible order |
| PartialOrder.Component | agent_braid/git_partial_order.py:70-91 | the search collects exactly the orders reachable by independent adjacent swaps |
| PartialOrder.Classes | agent_braid/git_partial_order.py:68-92 | the classes are disjoint, cover all orders, and each starts from its least order, in ascending order |
| PartialOrder.PartitionOrders | agent_braid/git_partial_order.py:63-99 | two admissible orders share a class if and only if they order alike every pair that is comparable, incompletely observed or on related paths; refused exactly for a cycle |
| PartialOrder.SameClassMeaning | agent_braid/git_partial_order.py:63-99 | membership in one class is the same as agreeing on all dependent pairs |
| PartialOrder.AllIndependentMeansOneClass | agent_braid/git_partial_order.py:63-99 | if all incomparable pairs are independent there is exactly one class, and it holds every order |
| PartialOrder.ClassesAgree | agent_braid/git_partial_order.py:116-124 | true exactly when within each class all outcomes are equal |
| PartialOrder.CommutingClassesAgree | agent_braid/git_partial_order.py:116-124 | if independent pairs commute, the classes always agree |
| PartialOrder.RepresentativesGiveTheVerdict | agent_braid/git_partial_order.py:127-178 | if independent pairs commute, replaying one representative per class gives the verdict of replaying every admissible order |
| PartialOrder.PathRuleIsSound | agent_braid/git_partial_order.py:26-60 | patches that read and write only at, above and below the paths they were observed on commute whenever the path rule calls them independent |
| PartialOrder.AgreeingGivesTheVerdict | agent_braid/git_partial_order.py:162-178 | where every class agrees, replaying one representative per class gives the verdict of replaying every admissible order |
| PartialOrder.PathLocalSwapsDoNotMatter | agent_braid/git_partial_order.py:41-60 | for patches that keep to their observed paths, orders that agree on every non-independent pair end alike |
| PartialOrder.Compare | agent_braid/git_partial_order.py:127-186 | a counterexample is reported exactly when two orders that agree on every non-independent pair end differently, which patches that keep to their paths and what lies above and below never do; otherwise the representatives give the verdict of the exhaustive replay |
| IntegrationWaves.ConflictMeaning | agent_braid/git_integration_prototype.py:191-195 | two footprints conflict exactly when one may write a path or shared resource that the other may touch |
| IntegrationWaves.GreedyWave | agent_braid/git_integration_prototype.py:182-200 | a nonempty wave; two or more members have complete and pairwise compatible footprints, and whoever is left out is incomplete or conflicts with a member |
| IntegrationWaves.WaveOrderDoesNotMatter | agent_braid/git_integration_prototype.py:182-200 | for operations that keep to their footprints, the members of a wave of two or more end alike in every order |
| IntegrationWaves.NextWave | agent_braid/git_integration_prototype.py:178-203 | progress fails only on a cyclic request |
| IntegrationWaves.Waves | agent_braid/git_integration_prototype.py:173-204 | scheduling ends for every request; the waves hold every operation once, after all its dependencies, and their concatenation is among the topological orders |
| Counterexamples.SubsetsExact | agent_braid/git_counterexamples.py:188-191 | the enumeration of one size holds exactly the subsets of that size |
| Counterexamples.CandidatesBySize | agent_braid/git_counterexamples.py:188-191 | smaller candidates are always tried before larger ones |
| Counterexamples.ClosedUnderDependence | agent_braid/git_counterexamples.py:191-195 | a subset is replayed only when it holds everything its members depend on, through however many operations |
| Counterexamples.SearchSize | agent_braid/git_counterexamples.py:191-268 | the search of one size either passes every subset or ends at a named one for a named cause |
| Counterexamples.Search | agent_braid/git_counterexamples.py:183-286 | the whole search either passes every candidate or ends at a position of the enumeration, with everything before it passed |
| Counterexamples.ReducedIsSmallest | agent_braid/git_counterexamples.py:236-244 | a reduced report names a verified divergent closed subset, and every smaller closed subset was verified equivalent |
| Counterexamples.UnchangedIsMinimal | agent_braid/git_counterexamples.py:279-286 | an unchanged report means that every closed proper subset of two or more operations is equivalent |
| Counterexamples.TenAttemptsAreEnough | agent_braid/git_counterexamples.py:195-197 | for at most four operations the budget of ten attempts is never what stops the search |
| Counterexamples.Reduce | agent_braid/git_counterexamples.py:125-286 | the outcome for every kind of input evidence; unusable means that some closed candidate truly replayed to no verdict, and an exhausted search has run out of time within twelve clock readings |
| GitManifest.CheckpointContent | agent_braid/git_runtime.py:355-359 | the commit of position i records exactly the first i operations and the tree after them |
| GitManifest.CheckpointsDistinct | agent_braid/git_runtime.py:192-197 | the checkpoints along a manifest are pairwise different |
| GitManifest.EffectsAreTheDifference | agent_braid/git_runtime.py:171-189 | the recorded effects are exactly the difference of the two trees: making them yields the later one, none is void, and a deletion is refused |
| GitManifest.RehearseStep | agent_braid/git_runtime.py:237-251 | a step is rehearsed exactly when its patch applies and changes the declared paths, all in a supported way; otherwise the refusal names what failed |
| GitManifest.Prepare | agent_braid/git_runtime.py:207-260 | preparation succeeds exactly when every patch passes in turn and the last tree is the expected one, and yields a well formed manifest that admits the patches; otherwise it names the first patch that fails, or the last tree |
| GitRuntime.Coordinator.LockedUpdate | agent_braid/git_runtime.py:435-444 | a Git command under a lock file is refused without effect when the lock exists, else it makes its two writes or is killed within them |
| GitRuntime.Coordinator.UpdateRef | agent_braid/git_runtime.py:513 | the private ref moves only from the expected commit; otherwise, or under a lock, the refusal changes nothing |
| GitRuntime.Coordinator.BuildStage | agent_braid/git_runtime.py:447-463 | the stage is built again from whatever an earlier attempt left, by the stated writes or a prefix of them |
| GitRuntime.Coordinator.Bootstrap | agent_braid/git_runtime.py:447-469 | the repository is published at the base and that is recorded, by the stated writes or a prefix of them, and never refused in an owned directory |
| GitRuntime.Coordinator.ClearLocks | agent_braid/git_runtime.py:435-444 | abandoned lock files are removed, the one of the index first, and nothing else changes |
| GitRuntime.Coordinator.CheckRef | agent_braid/git_runtime.py:364-400 | a fault in the record or the ref means a foreign directory; without one, owned means that the checkpoints of the named prefix are stored |
| GitRuntime.Coordinator.CheckChain | agent_braid/git_runtime.py:401-408 | no fault exactly when every checkpoint of the prefix is stored |
| GitRuntime.Coordinator.CheckState | agent_braid/git_runtime.py:362-409 | the checks pass if and only if the directory is published and in a state consistent with the manifest |
| GitRuntime.Coordinator.Inspect | agent_braid/git_runtime.py:362-409 | recovery finds no fault with an owned state and never passes another one; it writes nothing but the removal of abandoned locks |
| GitRuntime.Coordinator.ApplyStep | agent_braid/git_runtime.py:499-510 | scratch, recorded intent and patch: exactly the stated writes or a prefix of them, never refused between two steps of an owned directory |
| GitRuntime.Coordinator.CommitStep | agent_braid/git_runtime.py:511-517 | checkpoint, ref and record: exactly the stated writes or a prefix of them, never refused after the declared tree |
| GitRuntime.Coordinator.DriveStep | agent_braid/git_runtime.py:499-517 | one operation is committed and recorded, or the process was killed after a known prefix of its writes |
| GitRuntime.Coordinator.FinishForward | agent_braid/git_runtime.py:496-521 | the remaining operations are committed by exactly the stated writes or a prefix of them, and the report is about the directory they leave |
| GitRuntime.Coordinator.GoBack | agent_braid/git_runtime.py:485-495 | the abort is recorded, ref and scratch go to the base and that is recorded, by exactly the stated writes or a prefix of them |
| GitRuntime.Coordinator.Drive | agent_braid/git_runtime.py:472-521 | for every owned directory, action and point of a kill the directory left and the outcome are those of the session; resume never loses a committed step and never undoes a recorded abort, an aborted result is where it was or at the base, and with enough writes left the process is not cut short |
| GitRuntime.Coordinator.Verify | agent_braid/git_runtime.py:587-606 | verification reports only from an owned state and names the actual head; completed is said exactly of a completed directory and aborted exactly of an aborted one |
| GitRuntime.AdmittedMeansPosition | agent_braid/git_runtime.py:370-393 | a ref admitted for the recorded phase and index stands for exactly one position of the manifest |
| GitRuntime.PositionIsUnique | agent_braid/git_runtime.py:385-393 | the ref decides the one position a directory can stand for |
| RunDirectory.ReportNamesHead | agent_braid/git_runtime.py:412-432 | in every owned state the report names the tree of the actual head and the operations recorded by its chain |
| RunDirectory.RunIsOwned | agent_braid/git_runtime.py:447-521 | after any number of resumes, aborts and kills the directory is in an owned state whose ref names the checkpoint of its position, so inspection accepts it |
| RunDirectory.AbortIsFinal | agent_braid/git_runtime.py:484-495 | once an abort is recorded it stays recorded, and the result stays where it was or goes to the base |
| RunDirectory.CommittedStepsAreKept | agent_braid/git_runtime.py:496-521 | while no abort is recorded, the number of committed steps never decreases over any run of sessions |
| RunDirectory.SessionsReportTruly | agent_braid/git_runtime.py:412-432 | in any run a resume reports the completed batch or is refused for a recorded abort, an abort reports the base, and nothing else is refused |
| RunDirectory.NoReportAfterAbort | agent_braid/git_runtime.py:484-486 | after an abort is recorded no later resume of the run reports |
| RunDirectory.RecoveryDoesNotShow | agent_braid/git_runtime.py:472-521 | after any sessions that record no abort, a resume that lives to its end reports exactly what one uninterrupted resume reports |
| RunDirectory.OwnedIsReached | agent_braid/git_runtime.py:362-409 | every state that the checks accept has the record and the position of a state that at most two sessions leave |
| RunDirectory.DriveTrail | agent_braid/git_runtime.py:472-521 | after every single write of a session the directory is owned and keeps every committed operation or is recorded as aborting; the last write completes the batch or returns it to the base |
| RunDirectory.SessionKeepsPromise | agent_braid/git_runtime.py:472-521 | a session killed after any number of writes keeps the promises of its action |
| GitRuntime.RunSessions | agent_braid/git_runtime.py:570-584 | running any list of sessions, each process taking over what the one before it left, leaves the directory and gives the outcomes that the statements about runs speak of |
| Binomial.TailIsWhole | agent_braid/harness_evaluation.py:139-142 | the terms of the scaled distribution add up to the full power |
| Binomial.TailAntitone | agent_braid/harness_evaluation.py:139-142 | the lower tail can only fall when a success becomes more likely |
| Binomial.TailFallsWithTrials | agent_braid/harness_evaluation.py:170-181 | more trials with the same number of successes make the lower tail smaller in proportion |
| Outcomes.WordsExact | agent_braid/harness_evaluation.py:139-142 | the outcomes of n trials are listed, each exactly once |
| Outcomes.TailIsWeight | agent_braid/harness_evaluation.py:139-142 | the scaled distribution is the total weight of the outcomes with fewer than the given number of successes |
| Evaluation.SumsMeet | agent_braid/harness_evaluation.py:139-142 | the lower and the upper sum share the full power between them |
| Evaluation.UpperMirrorsLower | agent_braid/harness_evaluation.py:157-167 | the upper tail of a count is the lower tail of the complementary count at the complementary probability |
| Evaluation.First | agent_braid/harness_evaluation.py:145-154 | the binary search returns the first point at which a monotone condition holds |
| Evaluation.CdfFalls | agent_braid/harness_evaluation.py:139-142 | the scaled distribution is non-increasing in the probability, as the binary search needs |
| Evaluation.Interval | agent_braid/harness_evaluation.py:157-167 | the upper bound is the least point at which the outcomes with at most that many successes weigh at most a fortieth of all, the lower bound the greatest such for at least that many, with the ends at zero and full counts |
| Evaluation.IntervalMirrors | agent_braid/harness_evaluation.py:157-167 | the interval of the complementary count is the mirrored interval |
| Evaluation.IntervalOrdered | agent_braid/harness_evaluation.py:157-167 | the bounds are ordered strictly and stay within the scale |
| Evaluation.IntervalMonotone | agent_braid/harness_evaluation.py:157-167 | both bounds grow with the count |
| Evaluation.MinimumPairedUnits | agent_braid/harness_evaluation.py:75-79 | the loop returns the least number of pairs at which zero worse pairs is significant, which is nineteen |
| Evaluation.MinimumIsTight | agent_braid/harness_evaluation.py:170-181 | below the minimum no count of worse pairs is noninferior; at the minimum zero is |
| Evaluation.NoninferiorMeaning | agent_braid/harness_evaluation.py:178-181 | the verdict holds exactly when the outcomes with at most that many worse pairs, at three chances in twenty each, weigh less than a twentieth of all outcomes |
| Evaluation.FewerWorseIsBetter | agent_braid/harness_evaluation.py:170-181 | the verdict is antitone in the worse pairs |
| Evaluation.MorePairsIsBetter | agent_braid/harness_evaluation.py:170-181 | the verdict is monotone in the pairs |
| Evaluation.Paired | agent_braid/harness_evaluation.py:347-354 | each of the five counts is the number of pairs of its kind, the worse count bounds the worse pairs under every way to fill the missing outcomes, and noninferiority is said exactly when enough distinct lineages carry it, under every such way, by the weight of the outcomes |
| Regression.PivotRow | agent_braid/forecast_baselines.py:53-54 | the first row with the largest entry of the column from the diagonal on |
| Regression.SwapEquivalent | agent_braid/forecast_baselines.py:54 | swapping rows keeps the solutions |
| Regression.ScaleEquivalent | agent_braid/forecast_baselines.py:56 | dividing a row by its pivot keeps the solutions |
| Regression.EliminateEquivalent | agent_braid/forecast_baselines.py:57-58 | subtracting a multiple of another row keeps the solutions |
| Regression.PivotExists | agent_braid/forecast_baselines.py:55 | a regular system always has a nonzero pivot left |
| Regression.ClearColumn | agent_braid/forecast_baselines.py:57-58 | in place, the column becomes that of the identity, the solutions stay, and the result is the stated function of the input |
| Regression.GaussJordan | agent_braid/forecast_baselines.py:52-58 | the elimination finishes exactly when every pivot is beyond the threshold, with the identity and the same solutions; else it stops at the first pivot that is not, with the matrix of that stage |
| Regression.PivotIsLargest | agent_braid/forecast_baselines.py:53-55 | the pivot of a stage is the largest entry left in its column, and never zero in a system with one solution |
| Regression.IdentitySolution | agent_braid/forecast_baselines.py:59 | with the identity in place the last column is the only solution |
| Regression.NormalRowMeaning | agent_braid/forecast_baselines.py:50-51 | an equation of the matrix says that the gradient of half the squared error plus the penalty vanishes in that coordinate |
| Regression.ErrorExpands | agent_braid/forecast_baselines.py:39-61 | the squared error along a direction is its value, twice the slope, and the curvature |
| Regression.LossIsObjective | agent_braid/forecast_baselines.py:48-51 | the objective of the normal equations is the squared misses of the samples, each with its own outcome, plus the ridge on the squared slopes |
| Regression.EquationsMeaning | agent_braid/forecast_baselines.py:48-51 | every entry of the equations is the stated sum over the samples, with the ridge on the diagonal except at the intercept |
| Regression.NormalMatrixIsRegular | agent_braid/forecast_baselines.py:48-55 | with an intercept column and a positive ridge the system has only one solution |
| Regression.SolutionMinimises | agent_braid/forecast_baselines.py:39-61 | a solution of the normal equations minimises squared error plus ridge on the non-intercept weights over all vectors, and is the only minimiser |
| Regression.SolveSystem | agent_braid/forecast_baselines.py:50-59 | the coefficients are the one solution of the original equations, and are found exactly when every pivot is beyond the threshold |
| Regression.FitRegression | agent_braid/forecast_baselines.py:39-61 | a fit succeeds exactly for sound rows, a positive ridge and pivots beyond the threshold, and then no other weights lose as little over the samples; every refusal names its cause in the input |
| Regression.SilentSampleIsRefused | agent_braid/forecast_baselines.py:50-55 | one row with the feature zero is fitted exactly when the ridge exceeds the threshold, although its equations have one solution for every positive ridge |
| JsoncLexer.StringCloseMeaning | agent_braid/jsonc.py:39-40 | a string ends at the first quote before which the run of backslashes is even, and nowhere if there is none |
| JsoncLexer.TokenMeaning | agent_braid/jsonc.py:34-60 | the token at a place is the one that can be read there: a string to its closing quote, a comment to its first end, white space or one character |
| JsoncLexer.LexMeaning | agent_braid/jsonc.py:33-67 | lexing yields exactly the sequence of tokens that the text reads as |
| Jsonc.SkipString | agent_braid/jsonc.py:35-42 | the scan stops at the first quote that is not escaped, or reports that there is none |
| Jsonc.CleanToken | agent_braid/jsonc.py:33-67 | one turn of the scanner advances over one token and keeps what is known of pending commas |
| Jsonc.Clean | agent_braid/jsonc.py:25-68 | the in-place scanner fails exactly on texts that break off in a string or comment; otherwise comments are blanked except line breaks, exactly the trailing commas are blanked and listed in order, and every other character stays |
| Jsonc.TrailingMeaning | agent_braid/jsonc.py:44-65 | a comma trails exactly when, past white space and comments, something other than an opening bracket, a comma or a colon comes before it and a closing bracket comes after it |
| Jsonc.CleaningKeepsTokens | agent_braid/jsonc.py:25-68 | the significant tokens of the output are those of the input, at the same offsets, without exactly the trailing commas |
| Jsonc.CleaningIsIdempotent | agent_braid/jsonc.py:25-68 | cleaning the output again changes nothing and lists no comma |
| Jsonc.CleaningKeepsOffsets | agent_braid/jsonc.py:25-68 | length, line breaks and string contents stay where they are, and the listed commas are trailing ones in increasing order |
| Jsonc.NothingTrailsAgain | agent_braid/jsonc.py:44-65 | after the trailing commas are removed no comma trails |
| Costs.Fold | agent_braid/harness_costs.py:186-204 | the accumulated bounds are those of the specification for every dimension, unknown entries included |
| Costs.FoldIsChargeSum | agent_braid/harness_costs.py:186-204 | folding the rows charged to a set of attempts adds up the shares of the entries |
| Costs.PeakIsLargest | agent_braid/harness_costs.py:172-204 | resident memory is not added up: an arm is charged the largest value among the entries it holds for certain, by rule, or in part, and zero without any |
| Costs.EntryShares | agent_braid/harness_costs.py:172-183 | for one entry the lower shares of the arms add to at most its value, the point shares to exactly it with what is unallocated, the upper shares to at least it |
| Costs.PointsConserve | agent_braid/harness_costs.py:301-315 | over any ledger the arms' point costs plus the cross-arm unallocated values are the total |
| Costs.BoundsConserve | agent_braid/harness_costs.py:301-315 | over any ledger the lower bounds add to at most the total and the upper bounds to at least it |
| Costs.ArmBounds | agent_braid/harness_costs.py:301-315 | in each arm the lower bound is at most the point and the point at most the upper bound |
| Costs.ReportAddsUp | agent_braid/harness_costs.py:333-371 | what the report shows for a fully measured dimension adds up to the ledger total, an untouched arm counting zero |
| Phases.SweepStep | agent_braid/forecast_data.py:150 | one step of the sweep adds exactly the instants no earlier interval covers |
| Phases.Sweep | agent_braid/forecast_data.py:149-150 | the sweep measures the number of instants that at least one interval covers, for any number, order and overlap |
| Phases.CoveredIgnoresOrder | agent_braid/forecast_data.py:150 | the measured set does not depend on the order of the phases |
| Phases.ReconcilePhases | agent_braid/forecast_data.py:142-151 | accepted exactly when the wall, the number and every phase are valid; covered and residual time share the wall; the error is that of the first invalid phase |
| Phases.CoveredAgainstTotal | agent_braid/forecast_data.py:149-151 | the union is at most the sum of the phases, and equals it if and only if no two phases overlap |
| Phases.PhasesCoverWithin | agent_braid/forecast_data.py:149-151 | the union never exceeds the wall |
| Telemetry.TelemetryRecorder.constructor | agent_braid/forecast_telemetry.py:8-12 | a new recorder is open, empty and valid at its origin |
| Telemetry.TelemetryRecorder.Tick | agent_braid/forecast_telemetry.py:14-16 | a reading is refused exactly when closed, out of range or regressing |
| Telemetry.TelemetryRecorder.StartPhase | agent_braid/forecast_telemetry.py:18-20 | the new state, or the first refusal in the order of the checks with nothing changed |
| Telemetry.TelemetryRecorder.EndPhase | agent_braid/forecast_telemetry.py:22-24 | the phase moves from the open ones to the recorded ones with its two readings |
| Telemetry.TelemetryRecorder.Sample | agent_braid/forecast_telemetry.py:26-31 | a counter is recorded once per name and instant; a late refusal keeps only the clock reading |
| Telemetry.TelemetryRecorder.Finish | agent_braid/forecast_telemetry.py:33-39 | closing yields exactly the receipt of the session, the refusal of the clock, or the refusal of its size: the phases of every legal session reconcile |
| Telemetry.Seal | agent_braid/forecast_telemetry.py:33-39 | valid phases always reconcile; only the size of the receipt can refuse it |
| Telemetry.Measure | agent_braid/forecast_data.py:44-51 | the measured size is that of the receipt, whatever the order in which the open phases are taken |
| Telemetry.ReceiptTextHasSize | agent_braid/forecast_data.py:44-51 | the size is the length of the canonical JSON text of the receipt, in whatever order the open phases are listed |
| Telemetry.DecimalReads | agent_braid/forecast_data.py:44-51 | the decimal notation in that text reads as the number |
| Telemetry.FewCountersFit | agent_braid/forecast_telemetry.py:33-39 | a session with at most 1300 counters always gets its receipt |
| Telemetry.FullLogIsLost | agent_braid/forecast_telemetry.py:33-39 | a legal session with a full log of long names is refused its receipt and left closed |
| Identifiers.IdentifierMeaning | agent_braid/harness_experience.py:44 | an identifier has 1 to the given number of characters, each a letter, a digit or one of four marks, the first no mark |
| Journal.Replay | agent_braid/harness_assurance.py:560-596 | the loop computes the state that the events derive, or the error of the first bad event |
| Journal.AppendIsOneStep | agent_braid/harness_assurance.py:636-647 | appending an event, with the profile it may add, is one step of the replay |
| Journal.ScannedKeeps | agent_braid/harness_assurance.py:560-596 | in every replayed journal nothing is restorable without an active version, no version is activated twice, and the newest version of each name is tracked |
| Journal.VersionsIncrease | agent_braid/harness_assurance.py:580-587 | the versions begun under one name strictly increase along every journal |
| Journal.ReplayIsAStack | agent_braid/harness_assurance.py:588-595 | replay refines a stack read off the events alone: its top is active, the rest can be restored |
| Journal.WithdrawnLeavesNothing | agent_braid/harness_assurance.py:665-684 | any stretch of events that withdraws every version it commits, as begin, commit, rollback does, restores active and previous exactly |
| Journal.DeniedIsRecorded | agent_braid/harness_assurance.py:655-661 | a denied change is recorded and changes no state, and recording it never fails for another reason than room or time |
| Journal.DenialMeaning | agent_braid/harness_assurance.py:655-659 | denied are exactly the change of an agent, and that of a human from a file the operator does not own |
| Journal.Open | agent_braid/harness_assurance.py:607-614 | a journal exists only with the state its events derive |
| Journal.Append | agent_braid/harness_assurance.py:636-647 | an event is appended and replayed when there is room and its tick does not regress, else the first lack is named |
| Journal.RoomMeaning | agent_braid/harness_assurance.py:636-641 | an event is recorded exactly when fewer than 256 of its sort are on record and its tick is in range and not before any of theirs |
| Journal.Act | agent_braid/harness_assurance.py:649-663 | identity and ownership are checked before the state: the change of whoever is not human, or from a file that is not the operator's, ends in the record of its denial, or in a lack of room that is the same in every state |
| Journal.BeginChange | agent_braid/harness_assurance.py:665-669 | a version begins exactly when none is pending, there is room, and it is newer than every stored one of its name; only the pending version changes |
| Journal.Commit | agent_braid/harness_assurance.py:671-674 | the pending version becomes active and the former active one restorable |
| Journal.Abort | agent_braid/harness_assurance.py:676-679 | only the pending version is dropped |
| Journal.Rollback | agent_braid/harness_assurance.py:681-684 | the newest restorable version becomes active again, the pending one stays |
| Journal.ExtensionKeepsProfiles | agent_braid/harness_assurance.py:714-727 | a journal that extends a stored one keeps all its profiles |
| Journal.JournalFile.Save | agent_braid/harness_assurance.py:714-727 | the stored journal is replaced exactly when its events are a prefix of the new ones, else it stays |
| Experience.ReplayHistory | agent_braid/harness_experience.py:165-176 | the loop computes the state that the events lead to, or refuses |
| Experience.ValidateEntry | agent_braid/harness_experience.py:138-185 | an entry is accepted exactly when its record is consistent and it carries a sealed human decision if and only if it is active |
| Experience.TerminalIsLast | agent_braid/harness_experience.py:46-56 | no event follows a revocation or an expiry |
| Experience.ActiveIsApproved | agent_braid/harness_experience.py:138-185 | an entry is active if and only if its latest activation stands, and that activation is a human approval of this content, over evidence it holds, at that tick |
| Experience.Change | agent_braid/harness_experience.py:303-313 | a change succeeds exactly when the event may follow and the resulting entry is valid; it only ever adds to the entry |
| Experience.Add | agent_braid/harness_experience.py:317-328 | a proposal is admitted exactly when there is room, it is new and presentable; it starts in quarantine with a history of two events |
| Experience.Validate | agent_braid/harness_experience.py:332-347 | exactly the passed validations by somebody else than the producer, over other evidence, succeed; they move quarantined entries to validated, or renew the time of validation, and never activate |
| Experience.AddEvidence | agent_braid/harness_experience.py:349-351 | evidence is added exactly when it is new, timely and within the bound; state and decision stay |
| Experience.Activate | agent_braid/harness_experience.py:355-368 | activation succeeds exactly for a validated entry without contrary evidence, before its expiry and within its time of validation, under a human approval over exactly its evidence at that tick; no other entry is touched |
| Experience.Leave | agent_braid/harness_experience.py:370-375 | rollback leads from active to validated, revocation and expiry from a live state to the end; they succeed exactly when the lifecycle has them, at a tick no event comes after, with a name and a place in the history |
| Experience.EvolvedTransitive | agent_braid/harness_experience.py:303-313 | over any sequence of operations histories and evidence only grow, and terminal entries stay as they are; without an activation nothing becomes active |
| Experience.LeaveAll | agent_braid/harness_experience.py:377-397 | either every chosen entry leaves or the operation fails; the new store is stated in full |
| Experience.RevokeEvidence | agent_braid/harness_experience.py:377-386 | exactly the live entries with this piece of supporting evidence are revoked, by one event each, and no other entry changes; or nothing happens |
| Experience.Sweep | agent_braid/harness_experience.py:388-397 | exactly the live entries whose expiry has come expire, by one event each, and no other entry changes; or nothing happens |
| Experience.ServedIsEarlier | agent_braid/harness_experience.py:418-432 | a served lesson has every event, every evidence observation and its human approval strictly before the start of the job it is served to, applies exactly, and has no contrary evidence |
| Experience.ExclusionMeaning | agent_braid/harness_experience.py:418-432 | a lesson is served exactly when it is active, recorded before the job, in date, freshly validated, of the same applicability and undisputed, and otherwise excluded for the first of these that fails |
| Experience.Query | agent_braid/harness_experience.py:399-416 | every entry of a valid store is either served or excluded for the first reason that keeps it back, and nothing else is listed |
| Experience.HistoryCanFill | agent_braid/harness_experience.py:254-261 | activations can fill a history so that an active entry can neither be revoked nor rolled back |

## Left out

- Git itself: trees, patches and commits are values, applying a patch is a function; diffs, fsck and patch text are not modelled.
- Subprocesses, file-system permissions, symlinks, directory locks, sandboxing, sockets and signals: operating-system behaviour.
- Wall-clock deadlines: a clock reading is a parameter; the reduction deadline is the number of readings before it passes.
- Canonical JSON, decoding and record-shape checks: values are typed; only the text and the size of a telemetry receipt are modelled.
- Exceptions in the middle of a runtime write: they act like a kill at that point.
- The replacement of the state record by a renamed temporary file: one atomic write, as the operating system gives it.
- Rounding: regression, costs and their bounds are over the reals; the statistics are exact integers, scaled by a common denominator.
- Reports of the analyzer: reason texts, constraint lists, read versions and digests; the classification is modelled.
- Telemetry.TelemetryRecorder.Finish: the receipt holds unfinished phases as a set; the order of their list, sorted by name, is not modelled.
- Counterexamples.Reduce: replaying a subset is a function of the subset; the texts of reasons and the recorded durations are not modelled.
- Experience.ValidateEntry: the denylist over lesson text is a property of the content, not modelled character by character.
- Journal.BeginChange: profile validation and path ownership are given; a profile comes validated and owned paths are a set.
- Journal.JournalFile.Save: the exclusive file lock and the atomic rename are one step; a failed write is not modelled.
- `resolve` and `required_reviews` of `harness_assurance.py`: raise-only maxima over small enumerations, easy members.
- `_order`, `_oracle_consistent` and registration of `harness_evaluation.py`: seeded balancing and record checks.
- EWMA baselines and `predict_regression` of `forecast_baselines.py`: single folds and an inner product.
- `_advice_scope.py`, `harness_context.py`, `harness_host_codex.py`, `client_hello_sni` and `_Lineage` of `harness_containment_macos.py`, `forecast_windows.py`: bounded bookkeeping, excerpts and scanners, whose properties are easier than those proved here.
- Command line, MCP transport, rendering, learned-model adapters and simulated fixtures.
