/** The frame-by-frame analyser: the state the main loop carries from one
    video frame to the next (height memory, role identities, the report and
    the two heatmaps) and the processing of one frame. */
module Engine {
  import opened Common
  import opened Pose
  import opened Gaze
  import opened Roles
  import opened Heatmap
  import opened Analysis

  class Analyzer {
    const width: nat
    const height: nat
    /** Attention of the Child and of the Guardian, one cell per pixel. */
    const childMap: array2<int>
    const guardianMap: array2<int>
    var memory: Memory
    var identities: Identities
    var records: seq<FrameRecord>
    var frameCount: nat
    /** The focus points stamped so far into each heatmap. */
    ghost var childFoci: seq<Point>
    ghost var guardianFoci: seq<Point>

    ghost predicate Valid()
      reads this, childMap, guardianMap
    {
      && childMap != guardianMap
      && childMap.Length0 == height && childMap.Length1 == width
      && guardianMap.Length0 == height && guardianMap.Length1 == width
      && Inv(LatchState(memory, identities))
      && |records| == frameCount
      && Numbered(records)
      && UnionOfDiscs(childMap, childFoci)
      && UnionOfDiscs(guardianMap, guardianFoci)
    }

    /** Two blank heatmaps of the frame's size, and nothing remembered yet. */
    constructor (width: nat, height: nat)
      ensures Valid() && fresh(childMap) && fresh(guardianMap)
      ensures this.width == width && this.height == height
      ensures memory == Memory([], map[]) && identities == Identities([], map[])
      ensures records == [] && frameCount == 0
      ensures forall y, x :: 0 <= y < height && 0 <= x < width ==> childMap[y, x] == 0 && guardianMap[y, x] == 0
    {
      this.width := width;
      this.height := height;
      childMap := new int[height, width]((y, x) => 0);
      guardianMap := new int[height, width]((y, x) => 0);
      memory := Memory([], map[]);
      identities := Identities([], map[]);
      records := [];
      frameCount := 0;
      childFoci := [];
      guardianFoci := [];
    }

    /** Stores the trunk metric of every person of the frame, in key order. */
    method RememberHeights(f: FrameDict)
      requires ValidMemory(memory) && ValidFrameDict(f)
      modifies this`memory
      ensures memory == RememberAll(old(memory), f, f.order)
    {
      for i := 0 to |f.order|
        invariant Elems(f.order[..i]) <= f.people.Keys
        invariant memory == RememberAll(old(memory), f, f.order[..i])
      {
        var id := f.order[i];
        assert f.order[..i + 1] == f.order[..i] + [id];
        assert f.order[..i + 1][..i] == f.order[..i];
        ElemsAppend(f.order[..i], id);
        memory := Remember(memory, id, f.people[id]);
      }
      assert f.order[..|f.order|] == f.order;
    }

    /** One observer's turn: classify the gaze, stamp the focus point into the
        observer's heatmap when it lies in the frame, and report the verdict. */
    method Observe(id: int, role: Role, obs: Keypoints, tgt: Keypoints, hm: array2<int>, ghost foci: seq<Point>)
      returns (p: PersonRecord)
      requires UnionOfDiscs(hm, foci)
      modifies hm
      ensures p == PersonRecord(id, role, MutualGaze(obs, tgt).looking)
      ensures forall y, x :: 0 <= y < hm.Length0 && 0 <= x < hm.Length1 ==>
                hm[y, x] == Stamped(old(hm[y, x]), Clip(FocusPoint(obs, tgt), hm.Length1, hm.Length0), x, y)
      ensures UnionOfDiscs(hm, foci + Opt(Clip(FocusPoint(obs, tgt), hm.Length1, hm.Length0)))
    {
      var gaze := MutualGaze(obs, tgt);
      var focus: Option<Point> := None;
      if gaze.looking {
        if Nose in obs && gaze.target.Some? {
          focus := Some(TruncPoint(gaze.target.value));
        }
      } else {
        var env := EnvironmentFocus(obs);
        if env.Some? {
          focus := Some(env.value.focus);
        }
      }
      if focus.Some? && 0 <= focus.value.x < hm.Length1 && 0 <= focus.value.y < hm.Length0 {
        MarkDisc(hm, focus.value);
      }
      ghost var stamp := Clip(FocusPoint(obs, tgt), hm.Length1, hm.Length0);
      forall y, x | 0 <= y < hm.Length0 && 0 <= x < hm.Length1
        ensures hm[y, x] == if Covered(foci + Opt(stamp), x, y) then 1 else 0
      {
        StampExtendsCoverage(foci, stamp, old(hm[y, x]), x, y);
      }
      p := PersonRecord(id, role, gaze.looking);
    }

    /** The identity stage of a frame with two people: remember the trunk
        metrics, then let the latch fire if it can. */
    method UpdateRoles(frame: Option<seq<Detection>>)
      requires Inv(LatchState(memory, identities))
      modifies this`memory, this`identities
      ensures Inv(LatchState(memory, identities))
      ensures LatchState(memory, identities) == LatchStep(old(LatchState(memory, identities)), frame)
    {
      if frame.Some? && |frame.value| == 2 {
        ghost var s := LatchState(memory, identities);
        var f := IndexFrame(frame.value);
        IndexFrameValid(frame.value);
        RememberHeights(f);
        assert memory == RememberAll(s.memory, f, f.order);
        UnlatchedIsEmpty(identities);
        identities := Lock(identities, memory);
        assert LatchState(memory, identities) == LatchStep(s, frame);
      }
    }

    /** Each role holder in turn, the Child first, observes the other. */
    method ObservePair(c: int, g: int, kc: Keypoints, kg: Keypoints) returns (people: seq<PersonRecord>)
      requires childMap != guardianMap
      requires childMap.Length0 == height && childMap.Length1 == width
      requires guardianMap.Length0 == height && guardianMap.Length1 == width
      requires UnionOfDiscs(childMap, childFoci) && UnionOfDiscs(guardianMap, guardianFoci)
      modifies childMap, guardianMap, this`childFoci, this`guardianFoci
      ensures people == [PersonRecord(c, Child, MutualGaze(kc, kg).looking),
                         PersonRecord(g, Guardian, MutualGaze(kg, kc).looking)]
      ensures childFoci == old(childFoci) + Opt(Clip(FocusPoint(kc, kg), width, height))
      ensures guardianFoci == old(guardianFoci) + Opt(Clip(FocusPoint(kg, kc), width, height))
      ensures UnionOfDiscs(childMap, childFoci) && UnionOfDiscs(guardianMap, guardianFoci)
      ensures forall y, x :: 0 <= y < height && 0 <= x < width ==>
                childMap[y, x] == Stamped(old(childMap[y, x]), Clip(FocusPoint(kc, kg), width, height), x, y)
      ensures forall y, x :: 0 <= y < height && 0 <= x < width ==>
                guardianMap[y, x] == Stamped(old(guardianMap[y, x]), Clip(FocusPoint(kg, kc), width, height), x, y)
    {
      var pc := Observe(c, Child, kc, kg, childMap, childFoci);
      childFoci := childFoci + Opt(Clip(FocusPoint(kc, kg), width, height));
      var pg := Observe(g, Guardian, kg, kc, guardianMap, guardianFoci);
      guardianFoci := guardianFoci + Opt(Clip(FocusPoint(kg, kc), width, height));
      people := [pc, pg];
    }

    /** The analysis stage: find the role holders, and when both are present
        let each observe the other, the Child first. */
    method AnalyseFrame(frame: Option<seq<Detection>>) returns (record: FrameRecord)
      requires childMap != guardianMap
      requires childMap.Length0 == height && childMap.Length1 == width
      requires guardianMap.Length0 == height && guardianMap.Length1 == width
      requires UnionOfDiscs(childMap, childFoci) && UnionOfDiscs(guardianMap, guardianFoci)
      modifies childMap, guardianMap, this`childFoci, this`guardianFoci
      ensures record == RecordOf(frameCount, frame, identities) && record.frameId == frameCount
      ensures childFoci == old(childFoci) + Opt(StampFor(frame, identities, Child, width, height))
      ensures guardianFoci == old(guardianFoci) + Opt(StampFor(frame, identities, Guardian, width, height))
      ensures UnionOfDiscs(childMap, childFoci) && UnionOfDiscs(guardianMap, guardianFoci)
      ensures forall y, x :: 0 <= y < height && 0 <= x < width ==>
                childMap[y, x] == Stamped(old(childMap[y, x]), StampFor(frame, identities, Child, width, height), x, y)
      ensures forall y, x :: 0 <= y < height && 0 <= x < width ==>
                guardianMap[y, x] == Stamped(old(guardianMap[y, x]), StampFor(frame, identities, Guardian, width, height), x, y)
    {
      if frame.Some? && |frame.value| == 2 {
        var f := IndexFrame(frame.value);
        var child, guardian := RoleHolders(identities);
        if child.Some? && guardian.Some? && child.value in f.people && guardian.value in f.people
           && f.people[child.value] != map[] && f.people[guardian.value] != map[] {
          assert Pair(f, identities) == Some((child.value, guardian.value));
          var people := ObservePair(child.value, guardian.value, f.people[child.value], f.people[guardian.value]);
          record := FrameRecord(frameCount, true, "", people);
        } else {
          record := FrameRecord(frameCount, false, "", []);
          assert childFoci + [] == childFoci && guardianFoci + [] == guardianFoci;
        }
      } else {
        record := FrameRecord(frameCount, false, InvalidCountReason, []);
        assert childFoci + [] == childFoci && guardianFoci + [] == guardianFoci;
      }
    }

    /** The identity stage as a step of the whole analyser: the latch state
        advances and the rest of the state is untouched. */
    method IdentityStage(frame: Option<seq<Detection>>)
      requires Valid()
      modifies this`memory, this`identities
      ensures Valid()
      ensures LatchState(memory, identities) == LatchStep(old(LatchState(memory, identities)), frame)
    {
      UpdateRoles(frame);
    }

    /** The report stage: number the frame, analyse it and append its record. */
    method ReportStage(frame: Option<seq<Detection>>)
      requires Valid()
      modifies childMap, guardianMap, this`childFoci, this`guardianFoci, this`records, this`frameCount
      ensures Valid()
      ensures frameCount == old(frameCount) + 1
      ensures records == old(records) + [RecordOf(frameCount, frame, identities)]
      ensures forall y, x :: 0 <= y < height && 0 <= x < width ==>
                childMap[y, x] == Stamped(old(childMap[y, x]), StampFor(frame, identities, Child, width, height), x, y)
      ensures forall y, x :: 0 <= y < height && 0 <= x < width ==>
                guardianMap[y, x] == Stamped(old(guardianMap[y, x]), StampFor(frame, identities, Guardian, width, height), x, y)
    {
      frameCount := frameCount + 1;
      var record := AnalyseFrame(frame);
      NumberedAppend(records, record);
      records := records + [record];
    }

    /** Processes one video frame: `frame` is the tracker's output, nothing
        when it reported no ids. The frame number is not read by the identity
        stage, so counting the frame just before the report is the same as
        counting it first. */
    method ProcessFrame(frame: Option<seq<Detection>>)
      requires Valid()
      modifies this, childMap, guardianMap
      ensures Valid()
      ensures frameCount == old(frameCount) + 1
      ensures LatchState(memory, identities) == LatchStep(old(LatchState(memory, identities)), frame)
      ensures records == old(records) + [RecordOf(frameCount, frame, identities)]
      ensures forall y, x :: 0 <= y < height && 0 <= x < width ==>
                childMap[y, x] == Stamped(old(childMap[y, x]), StampFor(frame, identities, Child, width, height), x, y)
      ensures forall y, x :: 0 <= y < height && 0 <= x < width ==>
                guardianMap[y, x] == Stamped(old(guardianMap[y, x]), StampFor(frame, identities, Guardian, width, height), x, y)
    {
      IdentityStage(frame);
      ReportStage(frame);
    }
  }
}
