/** The per-frame outcome: whether the frame can be analysed, the record the
    frame contributes to the report, and where each role's heatmap is stamped. */
module Analysis {
  import opened Common
  import opened Pose
  import opened Gaze
  import opened Roles
  import opened Heatmap

  /** The reason written when a frame does not show exactly two tracked people. */
  const InvalidCountReason: string := "Numero de pessoas invalido"

  datatype PersonRecord = PersonRecord(trackId: int, role: Role, lookingAtPartner: bool)

  datatype FrameRecord = FrameRecord(frameId: int, analysed: bool, reason: string, people: seq<PersonRecord>)

  /** The report numbers its frames 1, 2, 3, ... in order. */
  predicate Numbered(records: seq<FrameRecord>)
  {
    forall i :: 0 <= i < |records| ==> records[i].frameId == i + 1
  }

  lemma NumberedAppend(records: seq<FrameRecord>, r: FrameRecord)
    requires Numbered(records) && r.frameId == |records| + 1
    ensures Numbered(records + [r])
  {
  }

  /** The tracker reported ids, and exactly two of them. */
  predicate CountOk(frame: Option<seq<Detection>>)
  {
    frame.Some? && |frame.value| == 2
  }

  /** The Child and Guardian track ids, when both roles have holders that are
      present in this frame with a non-empty set of keypoints. */
  function Pair(f: FrameDict, ids: Identities): (p: Option<(int, int)>)
    ensures p.Some? ==>
      && HolderOf(ids.order, ids.role, Child) == Some(p.value.0)
      && HolderOf(ids.order, ids.role, Guardian) == Some(p.value.1)
      && p.value.0 in f.people && f.people[p.value.0] != map[]
      && p.value.1 in f.people && f.people[p.value.1] != map[]
    ensures p.None? ==>
      HolderOf(ids.order, ids.role, Child).None? || HolderOf(ids.order, ids.role, Guardian).None?
      || HolderOf(ids.order, ids.role, Child).value !in f.people
      || f.people[HolderOf(ids.order, ids.role, Child).value] == map[]
      || HolderOf(ids.order, ids.role, Guardian).value !in f.people
      || f.people[HolderOf(ids.order, ids.role, Guardian).value] == map[]
  {
    var c := HolderOf(ids.order, ids.role, Child);
    var g := HolderOf(ids.order, ids.role, Guardian);
    if c.Some? && g.Some? && c.value in f.people && g.value in f.people
       && f.people[c.value] != map[] && f.people[g.value] != map[]
    then Some((c.value, g.value))
    else None
  }

  /** The record of one frame, given the identities after this frame's latch
      step: an invalid count is reported with its reason; otherwise the frame
      is analysed exactly when both role holders are present, and then lists
      the Child and the Guardian, in that order, with their mutual-gaze verdicts. */
  function RecordOf(frameId: int, frame: Option<seq<Detection>>, ids: Identities): (r: FrameRecord)
    ensures r.frameId == frameId
    ensures !CountOk(frame) ==> r == FrameRecord(frameId, false, InvalidCountReason, [])
    ensures CountOk(frame) ==> r.reason == ""
    ensures r.analysed <==> CountOk(frame) && Pair(IndexFrame(frame.value), ids).Some?
    ensures !r.analysed ==> r.people == []
    ensures r.analysed ==>
      var f := IndexFrame(frame.value);
      var (c, g) := Pair(f, ids).value;
      r.people == [PersonRecord(c, Child, MutualGaze(f.people[c], f.people[g]).looking),
                   PersonRecord(g, Guardian, MutualGaze(f.people[g], f.people[c]).looking)]
  {
    if !CountOk(frame) then FrameRecord(frameId, false, InvalidCountReason, [])
    else
      var f := IndexFrame(frame.value);
      match Pair(f, ids)
      case None => FrameRecord(frameId, false, "", [])
      case Some((c, g)) =>
        FrameRecord(frameId, true, "", [PersonRecord(c, Child, MutualGaze(f.people[c], f.people[g]).looking),
                                        PersonRecord(g, Guardian, MutualGaze(f.people[g], f.people[c]).looking)])
  }

  /** A focus point is kept only when it lies inside the frame. */
  function Clip(p: Option<Point>, width: int, height: int): (c: Option<Point>)
    ensures c.Some? <==> p.Some? && InFrame(p.value, width, height)
    ensures c.Some? ==> c == p
  {
    if p.Some? && InFrame(p.value, width, height) then p else None
  }

  /** The point stamped into the heatmap of the given role this frame: the
      holder's focus point, when the frame is analysed and the point lies in
      the frame; nothing otherwise. */
  function StampFor(frame: Option<seq<Detection>>, ids: Identities, role: Role, width: int, height: int): (c: Option<Point>)
    ensures c.Some? ==> InFrame(c.value, width, height)
    ensures c.Some? ==> RecordOf(0, frame, ids).analysed
    ensures RecordOf(0, frame, ids).analysed ==>
      var f := IndexFrame(frame.value);
      var (ch, g) := Pair(f, ids).value;
      c == Clip(if role == Child then FocusPoint(f.people[ch], f.people[g]) else FocusPoint(f.people[g], f.people[ch]),
                width, height)
  {
    if !CountOk(frame) then None
    else
      var f := IndexFrame(frame.value);
      match Pair(f, ids)
      case None => None
      case Some((ch, g)) =>
        Clip(if role == Child then FocusPoint(f.people[ch], f.people[g]) else FocusPoint(f.people[g], f.people[ch]),
             width, height)
  }

  /** Every analysed record names the two distinct role holders, each with the
      role the identities give it. */
  lemma RecordedRolesMatchIdentities(frameId: int, frame: Option<seq<Detection>>, ids: Identities)
    requires WellFormed(ids)
    requires RecordOf(frameId, frame, ids).analysed
    ensures var ps := RecordOf(frameId, frame, ids).people;
      |ps| == 2 && ps[0].trackId != ps[1].trackId
      && forall i :: 0 <= i < 2 ==> ps[i].trackId in ids.role && ids.role[ps[i].trackId] == ps[i].role
  {
    var f := IndexFrame(frame.value);
    var (c, g) := Pair(f, ids).value;
    assert ids.role[c] == Child && ids.role[g] == Guardian;
  }

  /** Before the latch fires no frame is analysed. */
  lemma NothingAnalysedBeforeLatch(frameId: int, frame: Option<seq<Detection>>, ids: Identities)
    requires ids.role == map[]
    ensures !RecordOf(frameId, frame, ids).analysed
  {
    assert HolderOf(ids.order, ids.role, Child).None?;
  }

  /** With both roles assigned, the pair is found exactly when both labelled
      tracks are present with keypoints. */
  lemma PairFoundOnceBothPresent(f: FrameDict, ids: Identities)
    requires WellFormed(ids) && |ids.role| == 2
    ensures Pair(f, ids).Some? <==> forall id :: id in ids.role ==> id in f.people && f.people[id] != map[]
  {
    HolderOfFindsRole(ids);
    var c := HolderOf(ids.order, ids.role, Child).value;
    var g := HolderOf(ids.order, ids.role, Guardian).value;
    assert forall id :: id in ids.role ==> id == c || id == g by {
      forall id | id in ids.role ensures id == c || id == g {
        assert HolderOf(ids.order, ids.role, ids.role[id]) == Some(id);
      }
    }
  }

  /** Once the latch has fired, a frame with two people is analysed exactly
      when both labelled tracks are present with keypoints. */
  lemma AnalysedOnceBothPresent(frameId: int, frame: Option<seq<Detection>>, ids: Identities)
    requires WellFormed(ids) && |ids.role| == 2 && CountOk(frame)
    ensures var f := IndexFrame(frame.value);
      RecordOf(frameId, frame, ids).analysed <==>
        forall id :: id in ids.role ==> id in f.people && f.people[id] != map[]
  {
    PairFoundOnceBothPresent(IndexFrame(frame.value), ids);
  }
}
