# Verification of the acceptance and evaluation core

A Dafny model of the ROS-free core of the embodied-agent workspace: the evaluators that judge a
recorded run, and the machinery that opens, supervises and closes an acceptance session. The model
follows the code branch by branch, and the theorems say what that code promises.

`dafny verify dfyconfig.toml` checks everything.

## What is modelled

| module | concern |
|---|---|
| `MonotonicPairing`, `TranscriptAlignment`, `RoundingLoss` | alignment of expected utterances with ASR finals: two-key dynamic program, traceback, slot safety, and what the twelve-digit rounding costs |
| `ActionMatch` | the rolling-row longest common subsequence |
| `OccupancyGrid`, `Reachability`, `MapScoring` | cell geometry under yaw, obstacle matching, clearance erosion, breadth-first reachability, scoring a built map |
| `PathSampling`, `TruthAlignment` | densified path checks; time alignment of estimates with truth frames and the P95 verdict |
| `Numerals`, `PlainPgm`, `ShowcaseScene` | the PGM reader, the scene printer, and what a loaded map says of the scene |
| `StaticTf` | planar transforms and the search over the static TF graph |
| `LoopScoring` | top-k retrieval scores |
| `RuntimeLog`, `ServerDownPattern`, `ServerDownPhrase` | the incremental log monitor, its line pattern, and the phrases that pattern reports |
| `Leases` | `flock` leases over any interleaving of processes |
| `Session`, `SessionRuns` | the acceptance session and whole sequences of calls on it |
| `RosEnvironment` | isolation of the ROS environment |
| `ScenarioCleanup` | the dynamic-scenario cleanup transaction |
| `ResourceWatchdog` | the latch on consecutive pressured samples |
| `Options`, `Rounding`, `StableSort` | shared vocabulary: optional values, Python's rounding, a stable sort |

Objects that change in place are classes whose methods are proved against a function of their state
(`View()`); loops are loops; whole runs are sequences of calls or events. Exceptions are outcomes,
and every outside call answers through an argument, so a theorem over all arguments is a theorem
over every way the outside can fail.

Floating-point numbers are `real`. The roundings and slacks written in the code (`round(x, 12)`,
`1e-12`) are modelled as written. A yaw is a pair (cosine, sine) of unit length, 1/sqrt(2) a positive
`h` whose square is one half, and `hypot` a function whose square is the sum of squares.

## What the proofs brought to light

- **Rounding in the alignment.** Ranking totals rounded to twelve digits can prefer a less similar
  alignment, on texts of less than a hundred characters (`ShortTextsLoseSimilarity`; the similarities
  are 2M/T with M the common letters of each pair in order, which are its matching blocks).
  `CompetitorIsNoBetter` bounds the loss, and it is none for scores that are multiples of 1/l exactly
  if l is at most 10^12 (`ExactExactlyWhenCoarse`).
- **Scene and map.** A printed scene is true of the world centres of the loaded cells exactly when the
  vertical bounds are a whole number of rows apart; the horizontal bounds do not matter, because
  both sides count columns from the same edge.
- **The cleanup claim.** `cleanup_complete` matches an empty error list only if the process session was
  running when the session was closed. A session closed without having been entered reports no
  error and still claims an incomplete cleanup.
- **An announcement that raises.** Entering prints a line after everything is set up and outside its
  exception handler. If that raises, both leases and the process session stay held and the `with`
  statement never closes them. This is the only way a block fails to give everything back.
- **Entering twice.** A session that was closed can be entered again; its second close returns at once
  and both leases stay held. This is the only way a close fails to give everything back.
- **Cut line ends.** Log text is translated chunk by chunk, so a CR LF pair cut by a read yields a blank
  line the log does not hold. This is harmless for the pattern in use, and
  `AgreesExactlyWhenBlankIsHarmless` says for which line checks it is harmless in general.
- **Required but not audited.** A required package outside the audited list always counts as missing.
- **Unlogged pressure.** The watchdog reports only after the sample was written, so low memory is not
  reported while nothing can be written.
- **Clearance slack.** The list of clearance offsets is the whole disc of clearance plus 10^-12 exactly if
  cells are wider than 10^-12; otherwise the square of candidates cuts it.
- **Truth frames.** The bound of 2N - 1 aligned samples needs at least one truth frame; with none there
  are no aligned samples.

## Model

| member | source | states |
|---|---|---|
| `MonotonicPairing.TableBeatsEveryPairing` | tools/evaluation/evaluate_live_voice_benchmark.py:54-82 | by induction over the table: the value of a cell has at least as many pairs as every increasing one-to-one pairing of the remaining rows and columns, and against equally many pairs gives up at most one rounding slack per remaining row and column |
| `MonotonicPairing.DecisionFits` | tools/evaluation/evaluate_live_voice_benchmark.py:61-82 | every decision of a solved table names a neighbour inside the table and carries exactly that neighbour's value, so following decisions cannot leave the table or stall |
| `MonotonicPairing.ChoiceIsDecided` | tools/evaluation/evaluate_live_voice_benchmark.py:66-82 | each cell pairs if that is permitted and neither skip is strictly ahead by count and then rounded total, and of the two skips takes the column's unless the row's is strictly ahead: every tie is decided |
| `MonotonicPairing.FillTable` | tools/evaluation/evaluate_live_voice_benchmark.py:45-82 | the nested descending loops over two arrays leave a table in which every cell is the winner of the three-key ranking among its options |
| `MonotonicPairing.Align` | tools/evaluation/evaluate_live_voice_benchmark.py:84-98 | the traceback returns an increasing one-to-one pairing of permitted pairs that realises the corner of the table in count and in total, in at most rows + columns steps |
| `MonotonicPairing.RealisedCornerIsOptimal` | tools/evaluation/evaluate_live_voice_benchmark.py:26-31 | a pairing that realises the corner has the maximum number of pairs over all pairings, and the best total up to the slack of the ranking key |
| `TranscriptAlignment.HasUnsafeSlotMismatch` | tools/evaluation/evaluate_live_voice_benchmark.py:119-135 | the loop over slot groups returns exactly whether some group mentioned by the wanted text is answered by a different set of words |
| `TranscriptAlignment.SafePairsAgree` | tools/evaluation/evaluate_live_voice_benchmark.py:119-135 | a pair of normalised texts passes the check if and only if, in the texts as spoken, every mentioned group of control words is answered by the same words: normalisation hides no slot |
| `TranscriptAlignment.SafePairsKeepControlWords` | tools/evaluation/evaluate_live_voice_benchmark.py:119-135 | spelled out: a pair is safe if and only if left and right, front and back, and the four colours are the same on both sides wherever the wanted text mentions one of the group |
| `TranscriptAlignment.NormalizedCharacters` | tools/evaluation/evaluate_live_voice_benchmark.py:19-20 | the normalised text holds exactly the digits, the ideographs and the letters, in lower case, of the text |
| `TranscriptAlignment.Round3IsNearest` | tools/evaluation/evaluate_live_voice_benchmark.py:109-112 | a reported similarity is a whole number of thousandths and at most half a thousandth off |
| `TranscriptAlignment.RoundedOrder` | tools/evaluation/evaluate_live_voice_benchmark.py:54-55 | comparing values rounded to twelve digits misjudges their order by at most 10^-12 |
| `TranscriptAlignment.RoundedOrderOfMultiples` | tools/evaluation/evaluate_live_voice_benchmark.py:54-55 | it misjudges no two multiples of one fraction 1/l with l at most 10^12 |
| `TranscriptAlignment.RoundingIsReliable` | tools/evaluation/evaluate_live_voice_benchmark.py:54-55 | ranking by rounded totals costs at most one unit per decision |
| `TranscriptAlignment.RoundingIsExactOnMultiples` | tools/evaluation/evaluate_live_voice_benchmark.py:54-55 | and nothing at all when the scores are multiples of such a fraction, whose sums stay multiples of it |
| `TranscriptAlignment.AlignTexts` | tools/evaluation/evaluate_live_voice_benchmark.py:32-98 | the alignment of texts is an increasing one-to-one set of permitted pairs that realises the corner of a solved table, has the maximum size and near-best similarity, and takes at most n + m steps |
| `TranscriptAlignment.CompetitorIsNoBetter` | tools/evaluation/evaluate_live_voice_benchmark.py:26-31 | against every competing alignment of the texts, increasing and of similar and safe pairs, named without the table: never fewer pairs, and with equally many pairs the similarity is within (n + m) * 10^-12, or not worse at all for scores that are multiples of some 1/l with l at most 10^12 |
| `TranscriptAlignment.PairingIsPermitted` | tools/evaluation/evaluate_live_voice_benchmark.py:70-77 | the pairings that compete are exactly the increasing ones whose pairs all reach the threshold and agree in every control slot |
| `RoundingLoss.NearIsTaken` | tools/evaluation/evaluate_live_voice_benchmark.py:54-82 | where every utterance may take its own final or the next one, every solved table takes the own finals whenever they look no worse, whatever else is permitted |
| `RoundingLoss.FarIsMissed` | tools/evaluation/evaluate_live_voice_benchmark.py:54-98 | so a better alignment that rounds no higher is missed by every run |
| `RoundingLoss.ExactExactlyWhenCoarse` | tools/evaluation/evaluate_live_voice_benchmark.py:54-98 | over all score matrices of multiples of 1/l between 0 and 1, every alignment is exactly the most similar one if and only if l is at most 10^12 |
| `RoundingLoss.ShortCommonMultipleIsExact` | tools/evaluation/evaluate_live_voice_benchmark.py:34-40 | for scores that are similarities 2M/T of texts, the alignment is exact whenever the joint text lengths have a common multiple of at most 10^12, which a caller can compute |
| `RoundingLoss.ShortTextsLoseSimilarity` | tools/evaluation/evaluate_live_voice_benchmark.py:26-31 | the loss is real: on three utterances and four finals of less than a hundred characters each, with similarities 2M/T of those lengths and the default threshold, every run returns a less similar alignment than another of the same size |
| `TranscriptAlignment.MonotonicTextMatches` | tools/evaluation/evaluate_live_voice_benchmark.py:100-116 | one report line per utterance: matched exactly when assigned, with the assigned final and its similarity; otherwise no final and the rounded largest similarity of the row, or zero for no finals |
| `ActionMatch.MatchCount` | tools/evaluation/evaluate_live_voice_benchmark.py:146-162 | the rolling-row loop returns the length of a longest common subsequence: some common subsequence has that length and none is longer |
| `ActionMatch.NoCommonIsLonger` | tools/evaluation/evaluate_live_voice_benchmark.py:153-161 | no common subsequence is longer than the recurrence, although it takes the diagonal on a match without comparing |
| `ActionMatch.EntryIsAttained` | tools/evaluation/evaluate_live_voice_benchmark.py:153-161 | some common subsequence, with its positions in both sequences, has the length the recurrence computes |
| `ActionMatch.CountIsSymmetric` | tools/evaluation/evaluate_live_voice_benchmark.py:146-162 | swapping expected and observed actions does not change the count |
| `ActionMatch.FullCreditMeansSubsequence` | tools/evaluation/evaluate_live_voice_benchmark.py:146-162 | the count equals the number of expected actions exactly when they are a subsequence of the observed ones |
| `ActionMatch.OneMissCostsAtMostOne` | tools/evaluation/evaluate_live_voice_benchmark.py:149-152 | deleting any one observed action never raises the count and lowers it by at most one, so a miss does not cascade |
| `ActionMatch.OneMissFromPerfectRun` | tools/evaluation/evaluate_live_voice_benchmark.py:149-152 | deleting any one action from a run that did exactly the plan costs exactly one credit |
| `OccupancyGrid.LocalKeepsDistance` | tools/acceptance/unknown_world_evidence.py:228-251 | distances between points are the same in world and map coordinates under any yaw |
| `OccupancyGrid.CenterRoundTrip` | tools/acceptance/unknown_world_evidence.py:228-251 | the world centre of every cell falls back into that cell, under any yaw and resolution |
| `OccupancyGrid.MapAxes` | tools/acceptance/unknown_world_evidence.py:228-251 | the map lies in the world as its yaw says: columns run along (cosine, sine), rows a quarter turn to the left of that, and the two add up |
| `OccupancyGrid.OccupiedNear` | tools/acceptance/unknown_world_evidence.py:448-477 | the bounded search returns true exactly when the point is in the map and some occupied cell of its window is close enough |
| `OccupancyGrid.WindowNeverMisses` | tools/acceptance/unknown_world_evidence.py:459-464 | every cell whose centre lies within the tolerance is inside the search window, under any yaw |
| `OccupancyGrid.MatcherIsComplete` | tools/acceptance/unknown_world_evidence.py:448-477 | for a point inside the map, an occupied centre anywhere within the tolerance is always matched |
| `OccupancyGrid.MatcherSeesEveryPoint` | tools/acceptance/unknown_world_evidence.py:456-477 | for a point inside the map, the matcher answers yes whenever any world point of an occupied cell, not only its centre, lies within the tolerance, under any yaw |
| `OccupancyGrid.HalfDiagonalIsNeeded` | tools/acceptance/unknown_world_evidence.py:460-461 | and no smaller margin would do: for every resolution and tolerance there is a map with an obstacle within the tolerance of a point and no occupied centre nearer than the tolerance plus half a cell diagonal |
| `OccupancyGrid.MatcherIsSound` | tools/acceptance/unknown_world_evidence.py:456-477 | a match exhibits an occupied centre within tolerance + resolution/sqrt(2) + 10^-12 of the point |
| `OccupancyGrid.SurroundingsAreSearched` | tools/acceptance/unknown_world_evidence.py:456-477 | whatever the tolerance, a close enough occupied cell among the eight around the point's own is matched |
| `Reachability.OffsetsCoverDisc` | tools/acceptance/unknown_world_evidence.py:361-371 | for every resolution, each offset within the clearance is listed and each listed offset is within the clearance plus 10^-12 |
| `Reachability.OffsetsAreExactForWideCells` | tools/acceptance/unknown_world_evidence.py:361-371 | the listed offsets are, for every clearance, exactly those within the clearance plus 10^-12, if and only if a cell is wider than 10^-12 |
| `Reachability.NarrowCellIsCutOff` | tools/acceptance/unknown_world_evidence.py:364-370 | with narrower cells and no clearance, the neighbouring cell is within the slack and is not listed |
| `Reachability.OffsetsGrow` | tools/acceptance/unknown_world_evidence.py:361-371 | a larger clearance asks for a superset of the offsets |
| `Reachability.ClearanceSafeCells` | tools/acceptance/unknown_world_evidence.py:374-390 | the double loop collects exactly the free cells whose whole neighbourhood of offsets is inside the map and free |
| `Reachability.SafeCellIsClear` | tools/acceptance/unknown_world_evidence.py:374-390 | around a safe cell every cell whose centre lies within the clearance, measured in the world, is a free cell of the map |
| `Reachability.ClearCellIsSafe` | tools/acceptance/unknown_world_evidence.py:374-390 | conversely, a cell with nothing but free cells within clearance plus slack is safe |
| `Reachability.SafeMeansClear` | tools/acceptance/unknown_world_evidence.py:374-390 | for cells wider than the slack: a cell is safe if and only if every cell whose centre lies within the clearance plus 10^-12, measured in the world, is a free cell of the map |
| `Reachability.Component` | tools/acceptance/unknown_world_evidence.py:405-418 | the queue-driven search returns exactly the cells joined to the start by paths of safe cells whose row and column differences add up to one at each step |
| `Reachability.NeighboursAreAdjacent` | tools/acceptance/unknown_world_evidence.py:409-414 | the listed neighbours of a cell are exactly the cells whose row and column differences add up to one |
| `Reachability.AdjacentCentres` | tools/acceptance/unknown_world_evidence.py:409-414 | cells are adjacent if and only if their centres are exactly one resolution apart in the world |
| `Reachability.ReachableSpreads` | tools/acceptance/unknown_world_evidence.py:405-418 | from a reachable cell every safe cell whose centre is one resolution away is reachable |
| `Reachability.ReachableByCentres` | tools/acceptance/unknown_world_evidence.py:405-418 | every reachable cell is joined to the start by safe centres, each one resolution from the last |
| `Reachability.ConnectedBothWays` | tools/acceptance/unknown_world_evidence.py:405-418 | being connected goes both ways |
| `Reachability.ReachableComponent` | tools/acceptance/unknown_world_evidence.py:393-418 | the search is refused exactly for a negative clearance or a start that is not safe, and otherwise gives the connected set |
| `Reachability.ReachableShrinks` | tools/acceptance/unknown_world_evidence.py:1404-1426 | a larger clearance reaches a subset, and once it accepts the start the zero-clearance search accepts it too |
| `Reachability.ReachableObstacleBoundary` | tools/acceptance/unknown_world_evidence.py:421-445 | the boundary is exactly the occupied cells of the map touching, by an edge or a corner, a cell reachable without clearance |
| `Reachability.BoundaryInWorld` | tools/acceptance/unknown_world_evidence.py:421-445 | in world distances: the boundary is the occupied cells of the map within one cell diagonal of a cell reachable without clearance |
| `MapScoring.CountSaying` | tools/acceptance/unknown_world_evidence.py:1408-1413 | the loop counts the reachable cells whose centre the built map calls a given state |
| `MapScoring.CoveredAndUnknownAreDisjoint` | tools/acceptance/unknown_world_evidence.py:1408-1415 | for every built map, covered + unknown never exceeds the reachable cells |
| `MapScoring.ComputeRegionRatios` | tools/acceptance/unknown_world_evidence.py:1367-1388 | the loop over the regions sorted by name reports, per name, covered over contained reachable cells of the last region given with that name |
| `MapScoring.SortedByName` | tools/acceptance/unknown_world_evidence.py:1376-1376 | the sorted regions are the given ones, in the order of their names |
| `MapScoring.ReportIsInNameOrder` | tools/acceptance/unknown_world_evidence.py:1375-1388 | the report lists every name in the table once, in ascending order |
| `MapScoring.SortingKeepsRatios` | tools/acceptance/unknown_world_evidence.py:1376-1387 | because the sort is stable, sorting by name does not change what is reported under any name |
| `MapScoring.ReportedRatio` | tools/acceptance/unknown_world_evidence.py:1375-1388 | what stands under a name is the ratio of the last region given with that name |
| `MapScoring.EveryNameIsReported` | tools/acceptance/unknown_world_evidence.py:1375-1388 | a name is in the table exactly when some region bears it, and exactly when a reported region does |
| `MapScoring.CountBoundary` | tools/acceptance/unknown_world_evidence.py:480-508 | the loop counts the boundary cells the built map represents and those it shows as free without a match |
| `MapScoring.RepresentedAndFalseFreeAreDisjoint` | tools/acceptance/unknown_world_evidence.py:490-506 | for every built map, represented + false-free never exceeds the boundary cells |
| `MapScoring.EvaluateMap` | tools/acceptance/unknown_world_evidence.py:1391-1454 | the evaluation is refused only by the clearance search, and its seven figures are the sizes of the sets they name |
| `MapScoring.SelfScore` | tools/acceptance/unknown_world_evidence.py:1402-1454 | the truth map scored against itself has coverage 1, unknown 0, boundary recall 1 and false-free 0, whatever its yaw and resolution |
| `MapScoring.PassesExactly` | tools/acceptance/unknown_world_evidence.py:1427-1446 | an evaluation passes if and only if covered, unknown, represented and false-free cells reach their shares, counted in cells, and every reported region reaches its own |
| `MapScoring.MatchToleranceIsLeast` | tools/acceptance/unknown_world_evidence.py:487-487 | the matching tolerance is the least that reaches ten centimetres and one and a half cells of either map |
| `MapScoring.SelfRegionRatio` | tools/acceptance/unknown_world_evidence.py:1367-1388 | on itself a region scores 1 if it holds a reachable cell and 0 otherwise |
| `MapScoring.SelfPasses` | tools/acceptance/unknown_world_evidence.py:1427-1446 | the truth map passes its own evaluation if and only if there is a region and, unless the region threshold is zero, every reported region holds a reachable cell |
| `MapScoring.WallFreeMapFails` | tools/acceptance/unknown_world_evidence.py:425-430 | a built map without any occupied cell represents no boundary cell, so painting everything free scores recall 0 wherever there is a boundary |
| `PathSampling.DensifyPath` | tools/acceptance/unknown_world_evidence.py:668-688 | the loop returns the first pose followed, for each segment, by its evenly spaced samples, and refuses a step that is not positive |
| `PathSampling.PosesAreSampled` | tools/acceptance/unknown_world_evidence.py:668-688 | every pose of the path is among the samples, in order |
| `PathSampling.EndsAreKept` | tools/acceptance/unknown_world_evidence.py:677-688 | the first and last samples are the first and last poses |
| `PathSampling.NeighboursAreClose` | tools/acceptance/unknown_world_evidence.py:679-687 | any two neighbouring samples of the whole path are at most one step apart |
| `PathSampling.StepCountIsLeast` | tools/acceptance/unknown_world_evidence.py:679-680 | no segment is cut into more steps than that needs |
| `PathSampling.CheckPath` | tools/acceptance/unknown_world_evidence.py:709-723 | the report counts the samples by state and passes exactly when there are samples and all are free |
| `PathSampling.SamplesAreCounted` | tools/acceptance/unknown_world_evidence.py:709-723 | the reported counts are the numbers of samples in that state |
| `PathSampling.LongStretchHoldsFreePoint` | tools/acceptance/unknown_world_evidence.py:709-723 | on a passed path every stretch of a segment at least half a cell long holds a free sampled point |
| `PathSampling.AcceptedPathIsNeverBlocked` | tools/acceptance/unknown_world_evidence.py:709-723 | a stretch of a passed path on which no point is free lies within one segment and is shorter than half a cell |
| `TruthAlignment.UniqueTimestamps` | tools/acceptance/unknown_world_evidence.py:515-527 | the loop keeps the first sample of every time stamp and counts the rest |
| `TruthAlignment.UniqueTicks` | tools/acceptance/unknown_world_evidence.py:515-527 | on sorted samples the kept time stamps strictly increase |
| `TruthAlignment.UniqueKeepsTimes` | tools/acceptance/unknown_world_evidence.py:515-527 | no time stamp is lost |
| `TruthAlignment.UniqueKeepsFirst` | tools/acceptance/unknown_world_evidence.py:515-527 | of the sorted samples of each time stamp exactly the first is kept |
| `TruthAlignment.FramesKeepFirst` | tools/acceptance/unknown_world_evidence.py:605-608 | because sorting is stable, of the samples with one time stamp the first to arrive is kept |
| `TruthAlignment.BisectLeft` | tools/acceptance/unknown_world_evidence.py:544-545 | bisection by halving returns the number of truth frames before the sample |
| `TruthAlignment.AlignedTruthSample` | tools/acceptance/unknown_world_evidence.py:530-578 | the bisecting form computes the declared alignment for every list of strictly ticking frames |
| `TruthAlignment.AlignedExactly` | tools/acceptance/unknown_world_evidence.py:541-578 | a sample is aligned if and only if some truth frame lies within the allowed gap plus 10^-12 |
| `TruthAlignment.AlignmentIsSupported` | tools/acceptance/unknown_world_evidence.py:546-578 | the support is one frame or two adjacent frames around the sample; no frame lies nearer than the one used alone, and every earlier one lies farther |
| `TruthAlignment.InterpolatedExactly` | tools/acceptance/unknown_world_evidence.py:556-570 | two frames are used if and only if the sample lies strictly between them and both are within the allowed gap |
| `TruthAlignment.InterpolationFollowsUniformMotion` | tools/acceptance/unknown_world_evidence.py:565-570 | for a robot moving at constant velocity between two frames, the interpolated truth is its true position |
| `TruthAlignment.AlignAll` | tools/acceptance/unknown_world_evidence.py:615-628 | each support keeps a sample of least gap among all estimates with that support, the earliest among equals, and nothing else is in the table |
| `TruthAlignment.FewSupports` | tools/acceptance/unknown_world_evidence.py:613-628 | at most 2N - 1 supports exist over N frames, for N at least one |
| `TruthAlignment.ErrorsAreBounded` | tools/acceptance/unknown_world_evidence.py:613-632 | however many estimates arrive, at most 2N - 1 errors are counted over N truth frames, and none over no frames |
| `TruthAlignment.PercentileMeans` | tools/acceptance/unknown_world_evidence.py:581-586 | the nearest-rank percentile is within a limit exactly when at least the ranked number of values is, whatever order they came in |
| `TruthAlignment.PassMeansFewExceed` | tools/acceptance/unknown_world_evidence.py:581-586 | the ninety-fifth percentile is within the limit if and only if at most one error in twenty exceeds it |
| `TruthAlignment.ErrorIsDistance` | tools/acceptance/unknown_world_evidence.py:629-632 | an error is the planar distance of the estimate from its truth |
| `TruthAlignment.OverlapMeansCommonMoment` | tools/acceptance/unknown_world_evidence.py:609-612 | the time ranges overlap if and only if some moment lies in both |
| `TruthAlignment.EvaluateLocalization` | tools/acceptance/unknown_world_evidence.py:589-644 | bad thresholds are refused exactly; a pass is exactly overlap, no duplicates, enough aligned errors, and enough of them within the limit |
| `TruthAlignment.PassNeedsTruthFrames` | tools/acceptance/unknown_world_evidence.py:613-644 | reaching the required number of aligned samples forces at least (n + 1) / 2 distinct truth frames |
| `StaticTf.ComposeAssociates` | tools/evaluation/augment_pose_graph_scan_overlap.py:69-79 | composition of planar transforms is associative |
| `StaticTf.IdentityIsNeutral` | tools/evaluation/augment_pose_graph_scan_overlap.py:69-79 | the zero transform is neutral on both sides |
| `StaticTf.InverseIsTwoSided` | tools/evaluation/augment_pose_graph_scan_overlap.py:82-89 | composing with the inverse on either side gives the zero transform |
| `StaticTf.ComposeIsValid` | tools/evaluation/augment_pose_graph_scan_overlap.py:69-89 | composition and inversion keep rotations of unit length |
| `StaticTf.ComposeCarries` | tools/evaluation/augment_pose_graph_scan_overlap.py:69-79 | in coordinates, a composed transform carries a point as the first and then the second do |
| `StaticTf.InverseCarriesBack` | tools/evaluation/augment_pose_graph_scan_overlap.py:82-89 | the inverse carries a carried point back |
| `StaticTf.SlashesAreStripped` | tools/evaluation/augment_pose_graph_scan_overlap.py:65-66 | exactly the leading slashes of a frame name go |
| `StaticTf.BuildGraph` | tools/evaluation/augment_pose_graph_scan_overlap.py:104-116 | the adjacency lists hold exactly the edges of the transforms and their inverses |
| `StaticTf.ResolveScanToBase` | tools/evaluation/augment_pose_graph_scan_overlap.py:99-134 | the search fails exactly when no walk of transforms joins the frames; otherwise it returns the composition along a walk with the fewest edges of all walks, and for every point with coordinates in all frames that agree with the transforms, that pose carries the point's scan coordinates to its base coordinates |
| `StaticTf.WalkAgrees` | tools/evaluation/augment_pose_graph_scan_overlap.py:99-134 | if all transforms come from one placement of the frames, every walk composes to the relative pose of its ends |
| `StaticTf.ResolutionIsUnique` | tools/evaluation/augment_pose_graph_scan_overlap.py:99-134 | then the resolved transform is the same whichever walk the search found |
| `RuntimeLog.RuntimeLogHealthMonitor.Check` | tools/acceptance/runtime_log_health.py:25-69 | one check moves offset, pending line and latched failure exactly as the specification says, for a missing, shorter or longer log |
| `RuntimeLog.ScanContinues` | tools/acceptance/runtime_log_health.py:42-60 | scanning a silent text and then more is scanning its unfinished line and then more, and leaves the same unfinished line |
| `RuntimeLog.ScanIsStable` | tools/acceptance/runtime_log_health.py:47-68 | a report made of a text is made of every longer text |
| `RuntimeLog.ChunksAgree` | tools/acceptance/runtime_log_health.py:36-46 | two chunks read separately, line ends translated per chunk, scan like the whole and leave the same unfinished line |
| `RuntimeLog.ScanByParts` | tools/acceptance/runtime_log_health.py:43-60 | finished lines and then the pending line is the whole scan |
| `RuntimeLog.RunIsFaithful` | tools/acceptance/runtime_log_health.py:25-69 | after any interleaving of appends and checks the offset, the pending line and the failure are those of the part read so far |
| `RuntimeLog.IncrementalVerdictIsWholeVerdict` | tools/acceptance/runtime_log_health.py:25-69 | after any run a check reports what scanning every line of the whole log would, an unterminated last line included |
| `RuntimeLog.AgreesExactlyWhenBlankIsHarmless` | tools/acceptance/runtime_log_health.py:36-46 | for a line check whose reports persist as a line grows, that agreement holds in all runs if and only if a blank line is silent or every ended line reports |
| `RuntimeLog.BlankLineReporterDisagrees` | tools/acceptance/runtime_log_health.py:36-46 | a check that reports blank lines disagrees when a CR LF pair is cut between two reads |
| `RuntimeLog.ShorterLogIsReread` | tools/acceptance/runtime_log_health.py:32-41 | a log replaced by a shorter one is read again from its start |
| `RuntimeLog.BreakCodes` | tools/acceptance/runtime_log_health.py:43-46 | lines end at exactly the characters that end a line for Python once line ends are translated |
| `ServerDownPattern.ParseIsSound` | tools/acceptance/runtime_log_health.py:10-13 | what the matcher returns fits the pattern, piece by piece, and is a prefix of the text |
| `ServerDownPattern.ParseIsComplete` | tools/acceptance/runtime_log_health.py:10-13 | every text of the pattern's shape is matched into exactly its parts, whatever follows, without backtracking |
| `ServerDownPattern.FirstMatchStays` | tools/acceptance/runtime_log_health.py:10-13 | the leftmost match of a line stays the leftmost match, with the same parts, when the line grows |
| `ServerDownPattern.ServerDownIsSteady` | tools/acceptance/runtime_log_health.py:10-13 | the server-down pattern meets what the incremental monitor needs of a line check |
| `ServerDownPattern.MonitorAgreesWithRescan` | tools/acceptance/runtime_log_health.py:25-69 | with this pattern the monitor agrees with rescanning the whole log in every run |
| `ServerDownPhrase.LeftmostPhraseIsReported` | tools/acceptance/runtime_log_health.py:10-13 | a line is reported under the server its leftmost phrase names, for every phrase: the words in any mixture of cases that Python takes for equal, the gaps, and a name over letters, digits, underscore, slash and hyphen |
| `ServerDownPhrase.ReportedExactlyForPhrases` | tools/acceptance/runtime_log_health.py:47-57 | a line is reported if and only if such a phrase stands in it, and then under the leftmost one's name |
| `ServerDownPhrase.PlainMessageIsReported` | tools/acceptance/runtime_log_health.py:10-13 | the message in capitals is reported under its name, after any text without a colon and before any text |
| `ServerDownPhrase.MessageNamesServer` | tools/acceptance/runtime_log_health.py:51-55 | reports of different servers differ |
| `ServerDownPhrase.MonitorReportsExactlyPhrases` | tools/acceptance/runtime_log_health.py:25-69 | after any interleaving of appends and checks, a check reports a failure if and only if some line of the log, an unterminated last one included, holds the phrase, and it names the first of them |
| `PlainPgm.ScanToken` | tools/acceptance/unknown_world_evidence.py:261-277 | the offset loop finds exactly the next token of the remaining text, skipping blanks and comments, or the end |
| `PlainPgm.WordIsNextToken` | tools/acceptance/unknown_world_evidence.py:261-277 | after any gap of blanks and comments the next token is the word that stands there, up to a blank, a hash or the end, and what follows is left as it is |
| `PlainPgm.GapHasNoToken` | tools/acceptance/unknown_world_evidence.py:261-277 | a text of gaps, and perhaps a last comment without a line end, has no token |
| `PlainPgm.ScanValues` | tools/acceptance/unknown_world_evidence.py:294-297 | the raster loop reads exactly so many numbers or fails as the first bad token does |
| `PlainPgm.ReadPgmFile` | tools/acceptance/unknown_world_evidence.py:280-314 | the reader as written computes the declared result, error cases in their order included |
| `PlainPgm.AcceptedImageIsSound` | tools/acceptance/unknown_world_evidence.py:289-314 | what is accepted is a full image of positive size, with a maximum of one byte and every sample in range |
| `PlainPgm.BinaryRaster` | tools/acceptance/unknown_world_evidence.py:298-310 | a binary raster begins after one separator, and a CR LF pair is one |
| `PlainPgm.BinaryImageIsRead` | tools/acceptance/unknown_world_evidence.py:298-314 | a binary file is read as the bytes after its separator |
| `PlainPgm.OtherKindsAreRefused` | tools/acceptance/unknown_world_evidence.py:280-314 | no kind but P2 and P5 is read |
| `Numerals.PrintedIntIsParsed` | tools/acceptance/unknown_world_evidence.py:286-297 | every printed whole number is read back |
| `Numerals.UnderscoreBetweenDigits` | tools/acceptance/unknown_world_evidence.py:286-297 | an underscore between two numerals joins their digits |
| `Numerals.OtherCharactersAreRefused` | tools/acceptance/unknown_world_evidence.py:286-297 | a token with any character but digits, signs, underscores and feeds is no number |
| `Numerals.FeedsAreStripped` | tools/acceptance/unknown_world_evidence.py:286-297 | vertical tabs and form feeds around a number are no part of it |
| `Numerals.PrintsWhite` | scripts/generate_showcase_scene.py:138-138 | the maximum written literally in the header is the printed number 255 |
| `PlainPgm.PrintedValuesAreRead` | tools/acceptance/unknown_world_evidence.py:294-297 | numbers printed with separators between them are read back in order |
| `PlainPgm.HeaderIsRead` | tools/acceptance/unknown_world_evidence.py:282-288 | the printed header, with its comment line, is read back and leaves the raster |
| `ShowcaseScene.RenderPgm` | scripts/generate_showcase_scene.py:125-138 | the nested loops print exactly the header and the rows of the pixel grid |
| `ShowcaseScene.PixelTexts` | scripts/generate_showcase_scene.py:131-136 | each printed sample is 0 where an object covers its point and 254 elsewhere |
| `ShowcaseScene.CoveredPoints` | scripts/generate_showcase_scene.py:114-121 | a box covers what lies at most half its size from its middle on both axes |
| `ShowcaseScene.CylinderCoversDisc` | scripts/generate_showcase_scene.py:114-122 | a cylinder covers its closed disc, and none if its radius is negative |
| `ShowcaseScene.PgmRoundTrip` | scripts/generate_showcase_scene.py:125-138 | printing any nonempty grid as plain PGM and parsing it returns the same width, height, maximum and samples |
| `ShowcaseScene.EmptySceneIsRefused` | tools/acceptance/unknown_world_evidence.py:289-290 | a scene without a row or column prints a file the reader refuses |
| `ShowcaseScene.CutIsRowMajor` | tools/acceptance/unknown_world_evidence.py:225-226 | row r and column c of the loaded image is sample r * width + c |
| `ShowcaseScene.CutUndoesFlatten` | tools/acceptance/unknown_world_evidence.py:225-226 | cutting a flattened grid into rows gives the grid back |
| `ShowcaseScene.LoadedExactly` | tools/acceptance/unknown_world_evidence.py:328-337 | a map is loaded if and only if the image is accepted, the resolution is positive and the thresholds are ordered in the unit range; the image's fault comes first |
| `ShowcaseScene.LoadedCellShowsItsSample` | tools/acceptance/unknown_world_evidence.py:339-358 | every loaded cell shows the sample of its place in the file, the top row first |
| `ShowcaseScene.ClassifiedExactly` | tools/acceptance/unknown_world_evidence.py:340-348 | a cell is occupied or free exactly as the darkness of its sample, or its brightness if negated, exceeds or stays below the threshold share of the maximum |
| `ShowcaseScene.SceneRoundTrip` | scripts/generate_showcase_scene.py:114-165 | printing and loading a scene gives a map in which a cell is occupied exactly when its printed point is covered, free otherwise, never unknown |
| `ShowcaseScene.CentersDiffer` | scripts/generate_showcase_scene.py:131-136 | printed points and loaded cell centres agree horizontally for all bounds and differ vertically by the part of the last row the bounds do not fill |
| `ShowcaseScene.MapIsTruthfulExactlyWhenRowsFill` | scripts/generate_showcase_scene.py:125-165 | for a printable scene, whatever its objects, loaded cells are occupied exactly when a colliding object covers their world centre, if and only if the vertical bounds are a whole number of rows apart |
| `ShowcaseScene.RowsFillExactly` | scripts/generate_showcase_scene.py:128-129 | that is: exactly when some whole number of cells spans the vertical bounds |
| `ShowcaseScene.GridFitsBounds` | scripts/generate_showcase_scene.py:128-129 | the image is as wide and as high as the bounds, up to half a cell |
| `Leases.FileTable.TryLock` | tools/acceptance/leases.py:53-58 | opening and locking succeeds exactly when no open file holds the lock; a refused file is closed again |
| `Leases.Lease.Release` | tools/acceptance/leases.py:22-27 | the first release closes its own descriptor, a repeated one leaves every open file alone |
| `Leases.AcquireDomain` | tools/acceptance/leases.py:40-75 | a preferred domain is leased itself or not at all, otherwise the smallest unlocked domain of the pool; unavailable if and only if every wanted domain is locked; a preferred domain out of range is refused |
| `Leases.AcquireDirectory` | tools/acceptance/leases.py:99-123 | a directory is leased exactly when nobody holds its lock file, and a refusal leaves no file open |
| `Leases.DomainPathsDiffer` | tools/acceptance/leases.py:51-53 | different domains have different lock files |
| `Leases.RunIsSound` | tools/acceptance/leases.py:22-123 | in every state of every interleaving, over any number of processes, live leases and locked open files correspond one to one |
| `Leases.LeasesNeverShare` | tools/acceptance/leases.py:40-123 | at no moment do two live leases hold one lock file |
| `Leases.DomainsNeverShare` | tools/acceptance/leases.py:40-75 | so no two live leases share a ROS domain |
| `Leases.DirectoriesNeverShare` | tools/acceptance/leases.py:99-123 | nor an artifact directory, whatever the digest function |
| `Leases.ReleaseTouchesOnlyItsOwn` | tools/acceptance/leases.py:22-27 | a release, first or repeated, changes no other live lease and no file of one, even if its descriptor number was reused |
| `Leases.RefusedCandidatesWereLeased` | tools/acceptance/leases.py:51-58 | an acquire that moved past a candidate did so at its own try of that candidate, and the candidate was leased at that very moment of the run |
| `Leases.ExhaustedMeansAllHeld` | tools/acceptance/leases.py:51-75 | an acquisition that ran out found its preferred domain, or every domain of the pool, held when it tried it, by a live lease of that domain and of no other |
| `Leases.AcquisitionCanFinish` | tools/acceptance/leases.py:40-75 | from every state an acquisition can be begun and tried to its end; undisturbed it leases the first free candidate or passes them all, as the loop does |
| `Leases.ExitTakesOnlyItsOwn` | tools/acceptance/leases.py:22-75 | a process that ends loses its files, leases and attempts, and nobody else loses anything |
| `Leases.CrashFreesLease` | tools/acceptance/leases.py:53-58 | what a crashed owner held can be locked again |
| `Leases.ReleaseFreesLease` | tools/acceptance/leases.py:22-27 | a live lease's path is locked, and free once it is released |
| `Leases.OtherFileComesAndGoes` | tools/acceptance/leases.py:53-58 | opening a lock file without its lock and closing it again changes nothing |
| `Session.AcceptanceSession.Enter` | tools/acceptance/session.py:367-474 | entering changes the session exactly as specified however far it gets, and undoes what it took, except when the announcement after the handler raises |
| `Session.AcceptanceSession.Spawn` | tools/acceptance/session.py:520-540 | a child is recorded before the manifest is written, and refused on an inactive session |
| `Session.AcceptanceSession.Run` | tools/acceptance/session.py:542-585 | a run is recorded before the command starts and completed with exit code, timeout and error, and raises on an interruption, a timeout, a checked exit code or a manifest failure |
| `SessionRuns.RecordsAreTheRuns` | tools/acceptance/session.py:548-585 | in every life of a session the run records are one for each run that was let through, in order: exit code and timeout are the command's own, the error is an interruption, a timeout or the checked exit code exactly as these happened, and none otherwise; no other call adds or changes any |
| `SessionRuns.RunReturnsExactly` | tools/acceptance/session.py:542-585 | over all calls: a run returns if and only if it was let through, was not interrupted, ended in time, exited with 0 if checked, and the manifest was written |
| `SessionRuns.ChildrenAreTheSpawns` | tools/acceptance/session.py:520-540 | in every life of a session its children are the spawns that were carried out, in order, with their roles and processes |
| `SessionRuns.SpawnReturnsExactly` | tools/acceptance/session.py:520-540 | a spawn returns if and only if it was carried out and the manifest was written |
| `SessionRuns.RecordsAreKept` | tools/acceptance/session.py:548-585 | later calls leave earlier records as they are |
| `Session.AcceptanceSession.StopChildren` | tools/acceptance/session.py:732-744 | the reversed loop computes stop results, errors and attempts of the specification |
| `Session.AcceptanceSession.Close` | tools/acceptance/session.py:716-781 | closing computes the specified state and exit for every answer of the adapters |
| `Session.StopsInReverse` | tools/acceptance/session.py:732-744 | stopping attempts every child once, in reverse order of spawning, and changes nothing but stop results |
| `Session.NoErrorsMeansReaped` | tools/acceptance/session.py:732-744 | stopping leaves no error exactly when every child was reaped with an exit code |
| `Session.ErrorsAreExact` | tools/acceptance/session.py:732-744 | one error for each child that was not reaped, the last spawned first, each under its role and with what the adapter said |
| `Session.CloseReturnsExactlyOnPass` | tools/acceptance/session.py:716-781 | with no incoming error and the manifest written, close returns normally exactly when the outcome is a pass, that is when there was no resource failure and no cleanup error |
| `Session.CloseRaisesExactly` | tools/acceptance/session.py:771-785 | closing an open session raises if and only if the manifest cannot be written, a failure cannot be printed, or something went wrong and the caller brought in no error of its own |
| `Session.ReportMentionsAll` | tools/acceptance/session.py:762-768 | the recorded error begins with what went wrong first and mentions every cleanup error |
| `Session.FailureIsExplained` | tools/acceptance/session.py:764-773 | an outcome is failed exactly when an error is recorded, and an incoming error is never turned into a pass |
| `SessionRuns.EveryStateKeeps` | tools/acceptance/session.py:367-785 | in every state any calls lead to: leases and process sessions taken are those given back plus those held, and before closing the session is fully open or fully idle |
| `SessionRuns.EveryLifeIsOrderly` | tools/acceptance/session.py:367-785 | after every single event of every life: a process session is begun under a held domain and finished before that is freed, a domain is taken under a held directory and freed before it, and children are spawned and stopped only within a process session |
| `SessionRuns.ChildrenAreStoppedInReverse` | tools/acceptance/session.py:732-744 | whatever is called, the stop attempts are the spawned children reversed once closed, and none before |
| `SessionRuns.CloseGivesBackExactly` | tools/acceptance/session.py:716-781 | closing gives back both leases and the process session, whatever fails, if and only if the session was not closed already and entered again since |
| `SessionRuns.BlockGivesBackExactly` | tools/acceptance/session.py:367-785 | in every `with` block, whatever acquisition, adapter call, manifest write or printing fails, both leases and the process session are given back if and only if it is not the announcement of entering that raises; a begun process session is finished once if the body is reached, and each child gets one stop attempt in reverse order |
| `SessionRuns.LostEntry` | tools/acceptance/session.py:470-474 | if printing the announcement raises, entering raises with both leases and the process session held |
| `SessionRuns.CleanupClaimIsHonestExactlyWhenOpen` | tools/acceptance/session.py:628-635 | the manifest claims a complete cleanup exactly when the close found no error, if and only if the process session was running when close was called |
| `SessionRuns.UnenteredClaimIsWrong` | tools/acceptance/session.py:628-635 | closing a session that was never entered finds no error and still claims an incomplete cleanup |
| `SessionRuns.ReenteredSessionLeaks` | tools/acceptance/session.py:716-718 | a session entered again after its close takes both leases, and closing it again frees neither |
| `RosEnvironment.EntriesRoundTrip` | tools/acceptance/session.py:150-151 | a list of nonempty entries without separators survives being joined and split |
| `RosEnvironment.ColonSeparates` | tools/acceptance/session.py:150-151 | colons separate entries wherever they stand, and empty entries vanish |
| `RosEnvironment.Collect` | tools/acceptance/session.py:195-233 | the loop sorts the prefixes into retained, removed, allowed and excluded, or stops at the first that mixes allowed packages with others |
| `RosEnvironment.Narrow` | tools/acceptance/session.py:235-267 | the path variables and the two current prefixes are rewritten as specified and every other variable is kept |
| `RosEnvironment.Isolate` | tools/acceptance/session.py:182-308 | isolation returns the specified environment, removed prefixes and providers, or the first mixed prefix, or all missing packages in order |
| `RosEnvironment.PathsAreSublists` | tools/acceptance/session.py:256-263 | every path variable after isolation is an order-preserving sublist of what it was |
| `RosEnvironment.PathsAreFiltered` | tools/acceptance/session.py:237-263 | and exactly the entries to be kept remain |
| `RosEnvironment.OthersAreUntouched` | tools/acceptance/session.py:190-190 | every other variable is as before |
| `RosEnvironment.KeptExactly` | tools/acceptance/session.py:237-254 | an entry is dropped exactly when it lies under a removed overlay and is neither trusted nor inside an allowed prefix or the build directory of one of its packages |
| `RosEnvironment.PrefixesExactly` | tools/acceptance/session.py:202-235 | an ament prefix is kept if and only if it is ours or lists only allowed packages and at least one, and removed if and only if it is not ours and lists no allowed package |
| `RosEnvironment.MixedExactly` | tools/acceptance/session.py:202-225 | isolation is refused for a mixed prefix if and only if one that is not ours lists allowed packages beside others, and it names such a one |
| `RosEnvironment.OverlaysOfWorkspace` | tools/acceptance/session.py:226-233 | a foreign prefix in a colcon workspace, merged or isolated, takes out the install and the build tree of that workspace |
| `RosEnvironment.OverlaysElsewhere` | tools/acceptance/session.py:226-233 | any other foreign prefix takes out only itself |
| `RosEnvironment.BuildRootsOfWorkspace` | tools/acceptance/session.py:213-218 | an allowed prefix in a workspace brings in the build directories of exactly its packages |
| `RosEnvironment.CurrentPrefixExactly` | tools/acceptance/session.py:264-267 | a current prefix stays, unchanged, if and only if it is empty or would be kept as an entry |
| `RosEnvironment.ForeignWorkspaceIsGone` | tools/acceptance/session.py:226-263 | no path variable holds anything of the install or build tree of a removed workspace, unless it is ours or so excused |
| `RosEnvironment.NoForeignEntryStays` | tools/acceptance/session.py:226-263 | no entry of any path variable lies under a removed overlay unless trusted or so excused |
| `RosEnvironment.RequiredPackagesAreOurs` | tools/acceptance/session.py:269-293 | every required package not allowed from outside is provided by a retained prefix within the workspace or the system |
| `RosEnvironment.IsolatedExactly` | tools/acceptance/session.py:202-293 | isolation succeeds if and only if no prefix is mixed and every required package is audited and provided by a retained prefix |
| `RosEnvironment.IsolatingTwice` | tools/acceptance/session.py:182-308 | isolating an isolated environment changes nothing and removes nothing |
| `LoopScoring.LoadRows` | tools/evaluation/evaluate_lidar_loop_candidates.py:45-68 | rows are accepted exactly when nonempty, with unique ids, times in order and ranks counting from one; a refusal names the fault of the first bad row |
| `LoopScoring.FaultsSpoil` | tools/evaluation/evaluate_lidar_loop_candidates.py:45-68 | after well-formed rows, a row has a fault if and only if it spoils them, and the fault says how |
| `LoopScoring.BuildEligible` | tools/evaluation/evaluate_lidar_loop_candidates.py:195-207 | a query is eligible exactly when it has a pose and truly revisits an earlier scan, with exactly the scans it revisits |
| `LoopScoring.RevisitedByDistance` | tools/evaluation/evaluate_lidar_loop_candidates.py:195-207 | an earlier row counts as revisited if and only if its pose is at least the separation older and no farther than the radius |
| `LoopScoring.RankedBestFirst` | tools/evaluation/evaluate_lidar_loop_candidates.py:91-107 | ranking keeps the candidates as a multiset and orders them by falling similarity, rising distance and rising id, or by rising distance, falling similarity and rising id |
| `LoopScoring.FirstTrue` | tools/evaluation/evaluate_lidar_loop_candidates.py:108-121 | the loop finds the rank of the first true candidate within the largest cut-off, counting skipped candidates |
| `LoopScoring.ScoreRanking` | tools/evaluation/evaluate_lidar_loop_candidates.py:71-136 | for every cut-off the counters are the hit queries, true, scored and unscored pairs, and there is one reciprocal rank per query with positives |
| `LoopScoring.CountersCountPairs` | tools/evaluation/evaluate_lidar_loop_candidates.py:124-136 | the counters of a cut-off are the numbers of pairs of a query and one of its best candidates that are true, have a pose, or have none |
| `LoopScoring.HitsGrow` | tools/evaluation/evaluate_lidar_loop_candidates.py:124-136 | a larger cut-off hits every query a smaller one does |
| `LoopScoring.CutoffsAreConsistent` | tools/evaluation/evaluate_lidar_loop_candidates.py:138-150 | hits and recall grow along the cut-offs, recall and precision are proportions, true pairs never exceed scored pairs |
| `LoopScoring.RecallFitsMean` | tools/evaluation/evaluate_lidar_loop_candidates.py:138-155 | recall at each cut-off k is at most k times the mean reciprocal rank |
| `LoopScoring.MeanFitsRecall` | tools/evaluation/evaluate_lidar_loop_candidates.py:138-155 | the mean reciprocal rank is at most the recall at the largest cut-off |
| `LoopScoring.OneRankEach` | tools/evaluation/evaluate_lidar_loop_candidates.py:122-123 | there are as many reciprocal ranks as eligible queries, because query ids are unique |
| `LoopScoring.RerankingOnlyReorders` | tools/evaluation/evaluate_lidar_loop_candidates.py:210-215 | at a cut-off covering every candidate list, ring-key retrieval and similarity reranking report the same hits and pairs |
| `LoopScoring.Evaluate` | tools/evaluation/evaluate_lidar_loop_candidates.py:174-215 | bad cut-offs and thresholds are refused exactly; otherwise both rankings are scored against the exact eligible table |
| `LoopScoring.EvaluationFits` | tools/evaluation/evaluate_lidar_loop_candidates.py:174-215 | of every evaluation of loaded rows, under both rankings: recall at each cut-off k is at most k times the mean reciprocal rank, which is at most the recall at the largest cut-off |
| `ScenarioCleanup.Begin` | tools/acceptance/dynamic_scenario_transaction.py:78-108 | impossible settings are refused, the first fault named |
| `ScenarioCleanup.DynamicScenarioTransaction.Close` | tools/acceptance/dynamic_scenario_transaction.py:132-182 | closing makes exactly the expected attempts and shows exactly the specified warning, note and error, for every choice of raising callbacks |
| `ScenarioCleanup.CleanupInOrder` | tools/acceptance/dynamic_scenario_transaction.py:148-167 | whatever is due comes in the fixed order: cancel, park, settle wait, clears, scene check, stop check |
| `ScenarioCleanup.NothingComesEarly` | tools/acceptance/dynamic_scenario_transaction.py:148-167 | step by step: nothing comes before the cancel, only the cancel before parking, no wait before parking, no check before the last clear |
| `ScenarioCleanup.CleanupIsComplete` | tools/acceptance/dynamic_scenario_transaction.py:148-167 | every step is made exactly as often as it is due: the registered cancel callback and no other, parking unless marked, waits only where configured, every clear, both checks |
| `ScenarioCleanup.ClearsAlternate` | tools/acceptance/dynamic_scenario_transaction.py:157-165 | the configured number of clears, with waits only between them and none without an interval |
| `ScenarioCleanup.FailuresAreExact` | tools/acceptance/dynamic_scenario_transaction.py:140-146 | the failure list holds every raising step once, in the order of the attempts, and nothing else |
| `ScenarioCleanup.FailuresAreTold` | tools/acceptance/dynamic_scenario_transaction.py:140-182 | warning, note and error tell the same list of every raising step in order, a failing warning appended to the note and the error |
| `ScenarioCleanup.ErrorIsRaisedExactly` | tools/acceptance/dynamic_scenario_transaction.py:169-182 | an error is raised exactly when some step failed and there was no primary error, with a raising warning appended last |
| `ScenarioCleanup.CleanupRunsOnce` | tools/acceptance/dynamic_scenario_transaction.py:122-137 | over any calls in any order, cleanup runs once if close is ever called, with the callback and parking known at the first close |
| `ResourceWatchdog.SwapUsed` | tools/acceptance/visual_runtime.py:30-35 | the ratio lies between 0 and 1, is the used share for sensible readings, and 0 without swap |
| `ResourceWatchdog.PressureIs` | tools/acceptance/resource_watchdog.py:60-72 | a reading is pressured if and only if less than the minimum is available, or less than twice that while the used share of swap has reached its limit |
| `ResourceWatchdog.SwapAloneIsNoPressure` | tools/acceptance/resource_watchdog.py:63-71 | full swap alone is no pressure |
| `ResourceWatchdog.PressureTracker.Observe` | tools/acceptance/resource_watchdog.py:59-83 | the counter grows on a pressured reading and falls to zero otherwise, and fails once long enough |
| `ResourceWatchdog.Watchdog.SampleOnce` | tools/acceptance/resource_watchdog.py:175-214 | one turn updates tracker, summary, latch and reports as specified, wherever it raises |
| `ResourceWatchdog.CounterIsTrailingRow` | tools/acceptance/resource_watchdog.py:72-75 | for every history the counter is the length of the longest pressured stretch that ends the readings; a reading that raised neither breaks nor extends it |
| `ResourceWatchdog.FirstFailureIsReportedOnce` | tools/acceptance/resource_watchdog.py:198-214 | the callback fires at most once, for the first logged turn whose row is long enough, and not at all if there is none |
| `ResourceWatchdog.ReportTells` | tools/acceptance/resource_watchdog.py:198-214 | a report tells the available memory, swap use and session memory of its turn and the length of its row |
| `ResourceWatchdog.CompletedExactly` | tools/acceptance/resource_watchdog.py:76-82 | when everything is read and logged, that turn is the one that completes a row of exactly the configured length |
| `ResourceWatchdog.FailureIsLatched` | tools/acceptance/resource_watchdog.py:207-212 | the recorded failure never changes afterwards |
| `ResourceWatchdog.UnloggedRowIsSilent` | tools/acceptance/resource_watchdog.py:194-214 | while no reading can be logged, a row of any length goes unreported |
| `ResourceWatchdog.SummaryIsExact` | tools/acceptance/resource_watchdog.py:199-206 | the summary counts the logged turns and keeps the last reading and the peak memory of them |

## Left out

- ROS nodes, subscriptions, action clients and lifecycle calls under `scripts/`: they depend on `rclpy` and on time.
- Process supervision by `Popen`, `/proc`, signals and `prctl`: only the adapter interface that the session sees is modelled; a signal can strike only where an adapter call or a manifest write may raise.
- Reading and writing of files, YAML and JSON, hashing and Markdown: the model starts from decoded text and records, and the artifact digest is an arbitrary function.
- `difflib` similarity: the scores are an arbitrary matrix of numbers.
- `sin`, `cos` and `atan2`: rotations are unit pairs, so wrapping of angles does not occur; the quaternion of a transform enters as such a pair.
- Floating-point error beyond the roundings and slacks written in the code.
- Decoding of log bytes: the log is a sequence of characters, offsets count characters, and a multi-byte character cut by a read is not modelled.
- `RuntimeLogHealthMonitor.wait_until`: it passes the check on to a waiter.
- Candidate score summaries (`_summary`), loop events and quality checks of the loop evaluation: averages and conjunctions of fields.
- Interpolation of query poses in the loop evaluation: the poses are an argument.
- The goal, producer and separation checks of sampled navigation: conjunctions of fields around the path check.
- Watchdog threads, join timeouts and the session's stop call on it: the session sees only the failure the watchdog reports.
- Changing signal handlers, stopping the watchdog and releasing a lease are taken not to raise inside the session.
- Metadata writes inside a lease acquisition are taken to succeed, acquiring a lease is one step, and all sessions use one lock root.
- Callbacks that call back into the cleanup transaction while it closes.
- Texts of error messages, except where a message is built from its causes; the list of process numbers in the cleanup error is not part of it.
- Report comparers, evidence checklists, the catalog, the command line, dataset builders and benchmarks: they combine fields, pass arguments on or call foreign programs, and state no law of their own.
- ScenarioCleanup.DynamicScenarioTransaction.SetCancelNavigation: callbacks are numbers; what a callback does is only whether it raises.
- RosEnvironment.RequiredPackagesAreOurs: assumes that a package listing which can be read names every package whose marker file exists; the file system does not change during isolation.
- Leases.AcquireDomain: is one process undisturbed by others; interleavings are the subject of the run lemmas.
