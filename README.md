# Attention analyser — a verified model

This project models the attention-analysis engine of `Heatmap/gerador_de_heatmap.py`.
The engine follows two people through a video, a child (Crianca) and a
guardian (Guardiao), and records where each of them looks. For every frame the
pose tracker delivers each tracked person's track id and skeleton keypoints
(COCO joints, integer pixels). The engine then does five things:

- it computes each person's **trunk height** (shoulder midpoint to hip
  midpoint);
- it remembers the last positive height of every track and, through a
  **one-shot role latch**, labels the taller of the first two remembered
  tracks Guardiao and the other Crianca;
- it classifies each labelled person's gaze, either as **mutual gaze** (the
  head direction lies within a cone of cosine 0.94 around the direction to the
  partner's nose and shoulders) or, failing that, as an **environment focus**
  300 pixels from the eyes along the head tilt, never pointing upward;
- it **stamps** a filled disc of radius 40 around the focus point into that
  role's heatmap, when the point lies in the frame;
- it appends one **frame record** per video frame: the frame number, whether
  it was analysed, the reason when it was not, and each person's verdict.

The Dafny modules follow that structure:

- `Common`: options, points, truncation toward zero, exact integer square roots.
- `Pose`: keypoints and the trunk metric.
- `Gaze`: the mutual-gaze test, the environment fallback and the choice of
  focus point.
- `Roles`: the per-frame index, the height memory, the latch and the role holders.
- `Heatmap`: discs and their stamping into an `array2`.
- `Analysis`: the frame record and the point stamped for each role.
- `Engine`: class `Analyzer`, which holds the state the main loop carries from
  frame to frame and processes one frame in place.

Two modelling choices keep the model exact without floating point:

- The memory stores the trunk metric `4·h²` (an integer) instead of the height
  `h`. `Pose.TrunkMetricOrdersHeights` proves that every comparison the latch
  makes (`> 0`, and the taller of two) comes out the same.
- The cosine test is stated without square roots, and the 300-pixel projection
  is computed with an integer floor square root. `Gaze.CosineTestIsExact` and
  `Gaze.EnvironmentFocusIsProjection` prove both equal to the source's real
  formulas for any exact square root.

Python dictionaries keep insertion order, and the latch reads the first two
memory keys in that order, so every dictionary in the model carries its key
order alongside its map.

## Model

| member | source | states |
|---|---|---|
| Common.TruncReal | Heatmap/gerador_de_heatmap.py:52 | `int()` truncates toward zero: the result is within 1 of the argument and never farther from zero |
| Common.TruncPoint | Heatmap/gerador_de_heatmap.py:128 | a real point is cut to integers by `int()` on each coordinate (no contract of its own; `TruncReal` states what each coordinate satisfies) |
| Common.TruncShift | Heatmap/gerador_de_heatmap.py:59 | the integer computation of `int(m + c/√n)` from exact integer roots (no contract of its own; `TruncShiftExact` states that it equals the real-valued expression) |
| Common.TruncShiftExact | Heatmap/gerador_de_heatmap.py:57-59 | the integer shift equals `int(m + c/s)` for every real `s > 0` with `s² = n` |
| Common.TruncShiftNotBelow | Heatmap/gerador_de_heatmap.py:54-59 | a non-negative shift never moves a coordinate below its start |
| Pose.TrunkMetric | Heatmap/gerador_de_heatmap.py:23-25 | the metric is 0 when a shoulder or hip (joints 5, 6, 11, 12) is missing |
| Pose.TrunkMetricScalesHeight | Heatmap/gerador_de_heatmap.py:22-28 | the metric is exactly four times the square of the trunk height the source computes, 0 included |
| Pose.TrunkMetricOrdersHeights | Heatmap/gerador_de_heatmap.py:93-97 | one metric exceeds another iff the height does, and a metric is positive iff the height is |
| Gaze.TargetJoints | Heatmap/gerador_de_heatmap.py:32 | the target joints are empty iff the nose and both shoulders are missing, and each listed point is a present joint among 0, 5, 6 (`TargetJointTotals` gives their count and sums) |
| Gaze.TargetPoint | Heatmap/gerador_de_heatmap.py:32-34 | a reference point exists iff one of joints 0, 5, 6 is present (`TargetPointIsMean` gives its value) |
| Gaze.TargetJointTotals | Heatmap/gerador_de_heatmap.py:32 | the target joints hold one entry per present joint among 0, 5, 6, so their count and coordinate sums are those of the present joints |
| Gaze.TargetPointIsMean | Heatmap/gerador_de_heatmap.py:32-34 | the reference point is none when joints 0, 5, 6 are all missing, and otherwise the mean, coordinate by coordinate, of the present ones |
| Gaze.TargetPointOfCoincidentJoints | Heatmap/gerador_de_heatmap.py:34 | the mean of present joints that all sit at q is q |
| Gaze.MutualGaze | Heatmap/gerador_de_heatmap.py:30-47 | fails closed with (false, none) when no target joint, the nose or an ear is missing, or either vector has zero length; looking implies a point; the point returned is the target reference point |
| Gaze.HeadVector | Heatmap/gerador_de_heatmap.py:36-39 | the head direction is the nose minus the midpoint of the two ears (no contract of its own; used by `MutualGaze`) |
| Gaze.TargetVector | Heatmap/gerador_de_heatmap.py:40 | the direction to the target is the reference point minus the nose (no contract of its own; used by `MutualGaze`) |
| Gaze.WithinCone | Heatmap/gerador_de_heatmap.py:41-47 | the cosine test without square roots: a positive dot product whose square exceeds 0.94² times the product of the squared norms (a predicate; `CosineTestIsExact` states its equivalence with the normalised dot product) |
| Gaze.CosineTestIsExact | Heatmap/gerador_de_heatmap.py:41-47 | the square-root-free test holds iff the dot product of the normalised vectors exceeds 0.94 |
| Gaze.MutualGazeIsCosineTest | Heatmap/gerador_de_heatmap.py:39-47 | with every joint present and non-zero vectors, the verdict is exactly the cosine test and the point is still returned |
| Gaze.ClampedTilt | Heatmap/gerador_de_heatmap.py:53-54 | the tilt keeps the horizontal nose offset; its vertical part is the nose's offset below the eye midpoint when the nose is below it, and 0 otherwise |
| Gaze.EyeMidpoint | Heatmap/gerador_de_heatmap.py:52 | the eye midpoint is `int()` of the mean of the two eyes on each coordinate (no contract of its own; `TruncReal` states what each coordinate satisfies) |
| Gaze.EnvironmentFocus | Heatmap/gerador_de_heatmap.py:49-60 | none iff the nose or an eye is missing or the clamped tilt is zero; otherwise the origin is the truncated eye midpoint and the focus is never above it |
| Gaze.EnvironmentFocusIsProjection | Heatmap/gerador_de_heatmap.py:55-59 | the focus is `int(origin + (v/|v|)·300)` in each coordinate, for the exact length of the tilt |
| Gaze.FocusPoint | Heatmap/gerador_de_heatmap.py:112-128 | under mutual gaze the truncated target point is used, otherwise the environment focus, and nothing when that is absent |
| Gaze.FacingPartnerIsMutualGaze | Heatmap/gerador_de_heatmap.py:30-47 | a head pointing at a partner's nose 50 px above is mutual gaze, with that nose as the focus |
| Gaze.SidewaysPartnerFallsBackToEnvironment | Heatmap/gerador_de_heatmap.py:112-125 | a partner at right angles is not looked at, and the focus falls 300 px below the eyes |
| Gaze.DownwardTiltProjects | Heatmap/gerador_de_heatmap.py:49-60 | a concrete environment focus: eye midpoint (100, 95), tilt (0, 5), focus (100, 395) |
| Roles.IndexFrame | Heatmap/gerador_de_heatmap.py:91 | the per-frame dictionary from track id to keypoints, built in detection order (no contract of its own; the three lemmas below state what it holds) |
| Roles.IndexFrameValid | Heatmap/gerador_de_heatmap.py:91 | the per-frame dictionary lists each detected track id exactly once, and no other id |
| Roles.IndexFrameKeepsLast | Heatmap/gerador_de_heatmap.py:91 | a track detected twice keeps the keypoints of its last detection |
| Roles.IndexFrameOrder | Heatmap/gerador_de_heatmap.py:91 | with distinct ids the key order is the detection order |
| Roles.Remember | Heatmap/gerador_de_heatmap.py:93-94 | a positive metric overwrites the stored one (a new id goes last in key order); a zero metric changes nothing |
| Roles.RememberAll | Heatmap/gerador_de_heatmap.py:92-94 | remembering a frame keeps the memory valid, removes no id, adds only the frame's ids, and extends the key order (`RememberAllAddsOnlyPositive` narrows the added ids to those with a positive metric) |
| Roles.RememberAllStores | Heatmap/gerador_de_heatmap.py:92-94 | every visited track with a positive metric ends with exactly that metric |
| Roles.RememberAllAddsOnlyPositive | Heatmap/gerador_de_heatmap.py:92-94 | an id that is new in the memory was visited and has a positive trunk metric |
| Roles.RememberAllKeeps | Heatmap/gerador_de_heatmap.py:92-94 | every other remembered track keeps its stored metric |
| Roles.Put | Heatmap/gerador_de_heatmap.py:97-98 | dictionary assignment of a role to a track id (no contract of its own; `PutAssigns` states its effect) |
| Roles.PutAssigns | Heatmap/gerador_de_heatmap.py:97-98 | the id gets the role, every other label is kept, the keys grow by that id only, and the key order stays a duplicate-free listing of the keys that starts with the old order |
| Roles.Lock | Heatmap/gerador_de_heatmap.py:95-98 | the latch changes nothing unless fewer than two roles exist and exactly two ids are remembered; then the first id is Guardiao iff strictly taller, and the two roles differ |
| Roles.FirstLockLabels | Heatmap/gerador_de_heatmap.py:96-98 | the first latch yields exactly the two remembered ids, in key order, with their roles |
| Roles.FirstLock | Heatmap/gerador_de_heatmap.py:95-98 | after the first latch there is exactly one Guardiao and one Crianca, the Guardiao is never shorter, and on a tie it is the second id |
| Roles.UnlatchedIsEmpty | Heatmap/gerador_de_heatmap.py:95 | with the roles well formed, "fewer than two roles" means no roles at all |
| Roles.LatchStep | Heatmap/gerador_de_heatmap.py:89-98 | a frame keeps the invariant; a frame without exactly two ids changes nothing; memory keys only grow; latched roles stay |
| Roles.Run | Heatmap/gerador_de_heatmap.py:81-98 | the invariant holds after any sequence of frames |
| Roles.RolesNeverChange | Heatmap/gerador_de_heatmap.py:95-98 | once two roles exist, no later frames change them |
| Roles.MemoryNeverShrinks | Heatmap/gerador_de_heatmap.py:92-94 | no remembered id is ever forgotten |
| Roles.ThirdTrackBlocksLatch | Heatmap/gerador_de_heatmap.py:94-95 | once three ids are remembered before the latch fired, it never fires |
| Roles.HolderOf | Heatmap/gerador_de_heatmap.py:99-102 | the holder found has the wanted role, and none is found only when no labelled id has it |
| Roles.HolderOfFindsRole | Heatmap/gerador_de_heatmap.py:99-102 | with both roles assigned, each has its own holder, and each labelled id is found as the holder of its role |
| Roles.RoleHolders | Heatmap/gerador_de_heatmap.py:99-102 | the scan over the identities returns the Crianca and Guardiao holders |
| Roles.Start | Heatmap/gerador_de_heatmap.py:79 | the empty initial state satisfies the invariant |
| Roles.PairFrame | Heatmap/gerador_de_heatmap.py:91 | two detections with distinct ids index as those two ids in order |
| Roles.PairMemory | Heatmap/gerador_de_heatmap.py:92-94 | two visible trunks fill an empty memory with both metrics, in order |
| Roles.PairLock | Heatmap/gerador_de_heatmap.py:95-98 | the latch on a two-id memory gives Guardiao to the first id iff strictly taller |
| Roles.FirstPairLatches | Heatmap/gerador_de_heatmap.py:89-98 | the first frame with two visible trunks fixes both roles by that rule |
| Roles.TallerFirstTrackBecomesGuardian | Heatmap/gerador_de_heatmap.py:89-98 | a concrete first frame: the person with the longer trunk becomes Guardiao |
| Heatmap.Stamped | Heatmap/gerador_de_heatmap.py:130 | the value of one cell after a stamp: 1 inside the disc around the focus, unchanged outside it or when there is no focus (no contract of its own; `MarkDisc` and `StampExtendsCoverage` state it for the grid) |
| Heatmap.DiscBounds | Heatmap/gerador_de_heatmap.py:130 | the disc lies within 40 cells of its centre on each axis, and contains the centre |
| Heatmap.StampExtendsCoverage | Heatmap/gerador_de_heatmap.py:130 | stamping a disc keeps each cell equal to "covered by some stamped disc" |
| Heatmap.RestampIsIdempotent | Heatmap/gerador_de_heatmap.py:130 | stamping an already stamped focus covers no new cell |
| Heatmap.MarkDisc | Heatmap/gerador_de_heatmap.py:130 | every cell in the disc becomes 1 and every other cell is unchanged |
| Analysis.NumberedAppend | Heatmap/gerador_de_heatmap.py:84-86 | appending the record of frame n+1 to n numbered records keeps them numbered 1, 2, 3, … |
| Analysis.Pair | Heatmap/gerador_de_heatmap.py:99-105 | the pair is found iff both role holders exist and are present in the frame with non-empty keypoints |
| Analysis.RecordOf | Heatmap/gerador_de_heatmap.py:84-136 | a frame without exactly two ids is not analysed and carries "Numero de pessoas invalido"; otherwise it is analysed iff the pair is found, and then lists Crianca then Guardiao with their gaze verdicts |
| Analysis.Clip | Heatmap/gerador_de_heatmap.py:128-129 | a focus is kept iff it lies inside the frame |
| Analysis.StampFor | Heatmap/gerador_de_heatmap.py:103-130 | a role's map is stamped only in an analysed frame, inside the frame, at that role's focus point |
| Analysis.RecordedRolesMatchIdentities | Heatmap/gerador_de_heatmap.py:107-132 | an analysed record names two distinct ids, each with the role the identities give it |
| Analysis.NothingAnalysedBeforeLatch | Heatmap/gerador_de_heatmap.py:99-106 | no frame is analysed before the latch fires |
| Analysis.PairFoundOnceBothPresent | Heatmap/gerador_de_heatmap.py:99-105 | after the latch, the pair is found iff both labelled ids are present with keypoints |
| Analysis.AnalysedOnceBothPresent | Heatmap/gerador_de_heatmap.py:89-106 | after the latch, a two-person frame is analysed iff both labelled ids are present with keypoints |
| Engine.Analyzer.constructor | Heatmap/gerador_de_heatmap.py:76-79 | two zero maps of the frame's size, empty memory, identities and report, count 0 |
| Engine.Analyzer.RememberHeights | Heatmap/gerador_de_heatmap.py:92-94 | the loop over the frame's ids leaves the memory that the specification function gives |
| Engine.Analyzer.Observe | Heatmap/gerador_de_heatmap.py:107-132 | one observer's turn: the record carries the gaze verdict, the map is stamped at the clipped focus, and stays the union of its discs |
| Engine.Analyzer.UpdateRoles | Heatmap/gerador_de_heatmap.py:89-98 | the memory and identities advance by one latch step |
| Engine.Analyzer.ObservePair | Heatmap/gerador_de_heatmap.py:107-132 | the Crianca observes first, then the Guardiao; each stamps only its own map |
| Engine.Analyzer.AnalyseFrame | Heatmap/gerador_de_heatmap.py:99-135 | the record is the frame's specified record, and each map is stamped at exactly its role's point |
| Engine.Analyzer.IdentityStage | Heatmap/gerador_de_heatmap.py:89-98 | the latch step keeps the analyser's invariant |
| Engine.Analyzer.ReportStage | Heatmap/gerador_de_heatmap.py:84-136 | the frame is counted, its record appended, and both maps stamped as specified, keeping the invariant |
| Engine.Analyzer.ProcessFrame | Heatmap/gerador_de_heatmap.py:81-136 | one frame: count + 1, one latch step, exactly one record appended, each map stamped only at its role's point; the invariant is kept (numbered records, well-formed roles, binary maps equal to the union of their discs) |

## Left out

- Pose estimation and tracking (the YOLO model, `model.track`) are foreign models. Their output for a frame is the input of `ProcessFrame`: none when the tracker reports no ids, otherwise a sequence of detections of track id and keypoints.
- Video input and output, drawing on the frame (`putText`, `line`, `circle` on the frame image), progress messages and the JSON file write are I/O. The report is the `records` field.
- The heatmap finalisation (Gaussian blur, normalisation, colour map, blending with the first frame, image write) runs once after the loop, through OpenCV floating-point routines, and is not modelled.
- The filled circle `cv2.circle` draws is taken to be the Euclidean disc (x − cx)² + (y − cy)² ≤ 40², clipped to the map. OpenCV's own rasterisation of a circle's rim may differ by a pixel.
- The heatmaps hold `int` instead of `float32`. Every value written is 0 or 1, so nothing is lost.
- Floating-point rounding is not modelled: means, norms, cosines and projections are exact reals or exact integer roots. A float result within rounding of the 0.94 threshold, or of an integer boundary under truncation, may differ from the model.
- Pose.TrunkMetric: the memory stores 4·h² instead of the float height h. The stored numbers differ, but every decision taken on them is the same (`Pose.TrunkMetricOrdersHeights`).
- Keypoints are modelled as a map that may lack joints. From the main loop every joint is present: the comprehension fills all 17, and an undetected joint sits at (0, 0). The missing-joint branches of the helpers are therefore never taken from the main loop. The model keeps them because the helpers themselves test for missing joints.
