/** Identity handling: the per-frame index of detected people by track id, the
    memory of each track's trunk metric, and the one-shot latch that labels
    the taller of the first two remembered tracks Guardian and the other Child.
    Python dictionaries keep insertion order, and the latch reads the memory
    keys in that order, so every dictionary here carries its key order. */
module Roles {
  import opened Common
  import opened Pose

  datatype Role = Guardian | Child

  /** One tracked person in a frame, as delivered by the pose tracker. */
  datatype Detection = Detection(trackId: int, keypoints: Keypoints)

  function Elems(s: seq<int>): set<int>
  {
    set x | x in s
  }

  predicate Distinct(s: seq<int>)
  {
    forall i, j :: 0 <= i < j < |s| ==> s[i] != s[j]
  }

  lemma {:induction false} DistinctCard(s: seq<int>)
    requires Distinct(s)
    ensures |Elems(s)| == |s|
  {
    if s != [] {
      var p := s[..|s| - 1];
      DistinctCard(p);
      assert Elems(s) == Elems(p) + {s[|s| - 1]};
      assert s[|s| - 1] !in Elems(p);
    }
  }

  // ------------------------------------------------------------ frame index

  /** The track-id-to-keypoints dictionary of one frame, in key order. */
  datatype FrameDict = FrameDict(order: seq<int>, people: map<int, Keypoints>)

  predicate ValidFrameDict(f: FrameDict)
  {
    Distinct(f.order) && Elems(f.order) == f.people.Keys
  }

  function TrackIds(ds: seq<Detection>): (ids: seq<int>)
    ensures |ids| == |ds| && forall i :: 0 <= i < |ds| ==> ids[i] == ds[i].trackId
  {
    if ds == [] then [] else TrackIds(ds[..|ds| - 1]) + [ds[|ds| - 1].trackId]
  }

  lemma ElemsAppend(s: seq<int>, x: int)
    ensures Elems(s + [x]) == Elems(s) + {x}
  {
    assert forall y :: y in s + [x] <==> y in s || y == x;
  }

  /** The dictionary built from the detections: a key appears at the position
      of its first detection (IndexFrameOrder) and maps to the keypoints of its
      last one (IndexFrameKeepsLast). */
  function IndexFrame(ds: seq<Detection>): FrameDict
  {
    if ds == [] then FrameDict([], map[])
    else
      var f := IndexFrame(ds[..|ds| - 1]);
      var d := ds[|ds| - 1];
      FrameDict(if d.trackId in f.people then f.order else f.order + [d.trackId],
                f.people[d.trackId := d.keypoints])
  }

  /** The index lists every detected track exactly once, and nothing else. */
  lemma {:induction false} IndexFrameValid(ds: seq<Detection>)
    ensures ValidFrameDict(IndexFrame(ds))
    ensures IndexFrame(ds).people.Keys == Elems(TrackIds(ds))
  {
    if ds != [] {
      var p := ds[..|ds| - 1];
      var d := ds[|ds| - 1];
      IndexFrameValid(p);
      var f := IndexFrame(p);
      assert TrackIds(ds) == TrackIds(p) + [d.trackId];
      ElemsAppend(TrackIds(p), d.trackId);
      ElemsAppend(f.order, d.trackId);
    }
  }

  /** A track detected more than once keeps the keypoints of its last detection. */
  lemma {:induction false} IndexFrameKeepsLast(ds: seq<Detection>, i: int)
    requires 0 <= i < |ds|
    requires forall j :: i < j < |ds| ==> ds[j].trackId != ds[i].trackId
    ensures ds[i].trackId in IndexFrame(ds).people && IndexFrame(ds).people[ds[i].trackId] == ds[i].keypoints
  {
    if i < |ds| - 1 {
      IndexFrameKeepsLast(ds[..|ds| - 1], i);
    }
  }

  /** With distinct track ids the key order is the detection order. */
  lemma {:induction false} IndexFrameOrder(ds: seq<Detection>)
    requires Distinct(TrackIds(ds))
    ensures IndexFrame(ds).order == TrackIds(ds)
  {
    if ds != [] {
      var p := ds[..|ds| - 1];
      assert TrackIds(ds) == TrackIds(p) + [ds[|ds| - 1].trackId];
      assert TrackIds(p) == TrackIds(ds)[..|ds| - 1];
      IndexFrameOrder(p);
      IndexFrameValid(p);
      assert ds[|ds| - 1].trackId !in Elems(TrackIds(p));
    }
  }

  // ----------------------------------------------------------------- memory

  /** The remembered trunk metric of every track seen with a visible trunk. */
  datatype Memory = Memory(order: seq<int>, height: map<int, nat>)

  predicate ValidMemory(m: Memory)
  {
    Distinct(m.order) && Elems(m.order) == m.height.Keys
    && forall id :: id in m.height ==> m.height[id] > 0
  }

  /** A track's metric is stored only when it is positive; a known track keeps
      its place in the key order. */
  function Remember(m: Memory, id: int, k: Keypoints): (r: Memory)
    requires ValidMemory(m)
    ensures ValidMemory(r)
    ensures TrunkMetric(k) == 0 ==> r == m
    ensures TrunkMetric(k) > 0 ==> r.height == m.height[id := TrunkMetric(k)]
    ensures id in m.height ==> r.order == m.order
    ensures id !in m.height && TrunkMetric(k) > 0 ==> r.order == m.order + [id]
  {
    var h := TrunkMetric(k);
    if h > 0 then
      Memory(if id in m.height then m.order else m.order + [id], m.height[id := h])
    else m
  }

  /** The memory after visiting the frame's tracks in the order given. */
  function RememberAll(m: Memory, f: FrameDict, ids: seq<int>): (r: Memory)
    requires ValidMemory(m) && Elems(ids) <= f.people.Keys
    ensures ValidMemory(r)
    ensures m.height.Keys <= r.height.Keys
    ensures r.height.Keys <= m.height.Keys + Elems(ids)
    ensures |m.order| <= |r.order| && r.order[..|m.order|] == m.order
  {
    if ids == [] then m
    else
      var p := ids[..|ids| - 1];
      assert Elems(p) <= Elems(ids);
      var id := ids[|ids| - 1];
      var q := RememberAll(m, f, p);
      Remember(q, id, f.people[id])
  }

  /** Each visited track ends with its own metric if positive. */
  lemma {:induction false} RememberAllStores(m: Memory, f: FrameDict, ids: seq<int>)
    requires ValidMemory(m) && Elems(ids) <= f.people.Keys
    ensures forall id :: id in ids && TrunkMetric(f.people[id]) > 0
              ==> id in RememberAll(m, f, ids).height
                  && RememberAll(m, f, ids).height[id] == TrunkMetric(f.people[id])
  {
    if ids != [] {
      var p := ids[..|ids| - 1];
      assert Elems(p) <= Elems(ids);
      RememberAllStores(m, f, p);
      assert forall id :: id in ids && id != ids[|ids| - 1] ==> id in p;
    }
  }

  /** A track is added to the memory only when it is visited with a positive
      metric. */
  lemma {:induction false} RememberAllAddsOnlyPositive(m: Memory, f: FrameDict, ids: seq<int>)
    requires ValidMemory(m) && Elems(ids) <= f.people.Keys
    ensures forall id :: id in RememberAll(m, f, ids).height && id !in m.height
              ==> id in ids && TrunkMetric(f.people[id]) > 0
  {
    if ids != [] {
      var p := ids[..|ids| - 1];
      assert Elems(p) <= Elems(ids);
      RememberAllAddsOnlyPositive(m, f, p);
      assert forall id :: id in p ==> id in ids;
    }
  }

  /** Every other remembered track keeps what it had. */
  lemma {:induction false} RememberAllKeeps(m: Memory, f: FrameDict, ids: seq<int>)
    requires ValidMemory(m) && Elems(ids) <= f.people.Keys
    ensures forall id :: id in m.height && (id !in ids || TrunkMetric(f.people[id]) == 0)
              ==> RememberAll(m, f, ids).height[id] == m.height[id]
  {
    if ids != [] {
      var p := ids[..|ids| - 1];
      assert Elems(p) <= Elems(ids);
      RememberAllKeeps(m, f, p);
      assert forall id :: id in p ==> id in ids;
    }
  }

  // ------------------------------------------------------------- identities

  /** The role of each labelled track, in key order. */
  datatype Identities = Identities(order: seq<int>, role: map<int, Role>)

  /** Either no one is labelled yet, or exactly two tracks hold the two roles. */
  predicate WellFormed(ids: Identities)
  {
    Distinct(ids.order) && Elems(ids.order) == ids.role.Keys
    && (|ids.order| == 0 || (|ids.order| == 2 && ids.role[ids.order[0]] != ids.role[ids.order[1]]))
  }

  /** Dictionary assignment: an existing key keeps its place. */
  function Put(ids: Identities, id: int, role: Role): Identities
  {
    Identities(if id in ids.role then ids.order else ids.order + [id], ids.role[id := role])
  }

  /** Put gives `id` the role, keeps every other label, and keeps the key
      order a duplicate-free listing of the keys with the old keys first. */
  lemma PutAssigns(ids: Identities, id: int, role: Role)
    ensures var r := Put(ids, id, role);
            && id in r.role && r.role[id] == role
            && r.role.Keys == ids.role.Keys + {id}
            && (forall k :: k in ids.role && k != id ==> r.role[k] == ids.role[k])
    ensures var r := Put(ids, id, role);
            Distinct(ids.order) && Elems(ids.order) == ids.role.Keys
            ==> Distinct(r.order) && Elems(r.order) == r.role.Keys
                && |ids.order| <= |r.order| && r.order[..|ids.order|] == ids.order
  {
    if id !in ids.role {
      ElemsAppend(ids.order, id);
      assert (ids.order + [id])[..|ids.order|] == ids.order;
    }
  }

  /** True when the latch fires on this memory. */
  predicate LatchFires(ids: Identities, mem: Memory)
  {
    |ids.role| < 2 && |mem.height| == 2
  }

  /** The latch: while fewer than two tracks are labelled and exactly two are
      remembered, the first-remembered track becomes Guardian when strictly
      taller and Child otherwise, and the second takes the other role. */
  function Lock(ids: Identities, mem: Memory): (r: Identities)
    requires ValidMemory(mem)
    ensures !LatchFires(ids, mem) ==> r == ids
    ensures LatchFires(ids, mem) ==>
      |mem.order| == 2 && mem.order[0] in r.role && mem.order[1] in r.role
      && (r.role[mem.order[0]] == Guardian <==> mem.height[mem.order[0]] > mem.height[mem.order[1]])
      && r.role[mem.order[1]] != r.role[mem.order[0]]
  {
    if LatchFires(ids, mem) then
      LatchedPair(mem);
      var taller := mem.height[mem.order[0]] > mem.height[mem.order[1]];
      Put(Put(ids, mem.order[0], if taller then Guardian else Child), mem.order[1], if taller then Child else Guardian)
    else ids
  }

  /** A valid memory of two tracks lists exactly those two, in key order. */
  lemma LatchedPair(mem: Memory)
    requires ValidMemory(mem) && |mem.height| == 2
    ensures |mem.order| == 2 && mem.order[0] != mem.order[1]
    ensures mem.height.Keys == {mem.order[0], mem.order[1]}
  {
    DistinctCard(mem.order);
    assert mem.order == [mem.order[0], mem.order[1]];
  }

  /** The first latch labels the two remembered tracks, in key order. */
  lemma FirstLockLabels(mem: Memory)
    requires ValidMemory(mem) && |mem.height| == 2
    ensures |mem.order| == 2
    ensures var taller := mem.height[mem.order[0]] > mem.height[mem.order[1]];
      Lock(Identities([], map[]), mem)
      == Identities(mem.order, map[mem.order[0] := if taller then Guardian else Child,
                                   mem.order[1] := if taller then Child else Guardian])
  {
    LatchedPair(mem);
    assert mem.order == [mem.order[0]] + [mem.order[1]];
  }

  /** The first latch labels exactly the two remembered tracks: the Guardian is
      never the shorter one, and on a tie it is the second in key order. */
  lemma FirstLock(mem: Memory)
    requires ValidMemory(mem) && |mem.height| == 2
    ensures var r := Lock(Identities([], map[]), mem);
      WellFormed(r) && r.role.Keys == mem.height.Keys
      && forall a, b :: a in r.role && b in r.role && r.role[a] == Guardian && r.role[b] == Child
           ==> mem.height[a] >= mem.height[b] && (mem.height[a] == mem.height[b] ==> a == mem.order[1])
  {
    LatchedPair(mem);
    FirstLockLabels(mem);
  }

  /** Well-formed identities hold fewer than two labels only when empty. */
  lemma UnlatchedIsEmpty(ids: Identities)
    requires WellFormed(ids)
    ensures |ids.role| < 2 ==> ids == Identities([], map[])
  {
    DistinctCard(ids.order);
    if |ids.order| == 0 {
      assert ids.role.Keys == {};
    }
  }

  // ------------------------------------------------------------ frame steps

  datatype LatchState = LatchState(memory: Memory, ids: Identities)

  predicate Inv(s: LatchState)
  {
    ValidMemory(s.memory) && WellFormed(s.ids) && s.ids.role.Keys <= s.memory.height.Keys
  }

  /** A frame with exactly two detections refreshes the memory and may fire the
      latch; any other frame leaves both untouched. */
  function LatchStep(s: LatchState, frame: Option<seq<Detection>>): (r: LatchState)
    requires Inv(s)
    ensures Inv(r)
    ensures (frame.None? || |frame.value| != 2) ==> r == s
    ensures s.memory.height.Keys <= r.memory.height.Keys
    ensures |s.memory.order| <= |r.memory.order|
    ensures |s.ids.role| == 2 ==> r.ids == s.ids
  {
    if frame.None? || |frame.value| != 2 then s
    else
      var f := IndexFrame(frame.value);
      IndexFrameValid(frame.value);
      var mem := RememberAll(s.memory, f, f.order);
      UnlatchedIsEmpty(s.ids);
      if LatchFires(s.ids, mem) then FirstLock(mem); LatchState(mem, Lock(s.ids, mem))
      else LatchState(mem, s.ids)
  }

  function Run(s: LatchState, frames: seq<Option<seq<Detection>>>): (r: LatchState)
    requires Inv(s)
    ensures Inv(r)
    decreases |frames|
  {
    if frames == [] then s else Run(LatchStep(s, frames[0]), frames[1..])
  }

  /** Once the two roles are assigned they never change. */
  lemma {:induction false} RolesNeverChange(s: LatchState, frames: seq<Option<seq<Detection>>>)
    requires Inv(s) && |s.ids.role| == 2
    ensures Run(s, frames).ids == s.ids
    decreases |frames|
  {
    if frames != [] {
      RolesNeverChange(LatchStep(s, frames[0]), frames[1..]);
    }
  }

  /** A remembered track is never forgotten. */
  lemma {:induction false} MemoryNeverShrinks(s: LatchState, frames: seq<Option<seq<Detection>>>)
    requires Inv(s)
    ensures s.memory.height.Keys <= Run(s, frames).memory.height.Keys
    decreases |frames|
  {
    if frames != [] {
      MemoryNeverShrinks(LatchStep(s, frames[0]), frames[1..]);
    }
  }

  /** When three or more tracks have been remembered before the latch fired,
      it can never fire again: the video is never analysed. */
  lemma {:induction false} ThirdTrackBlocksLatch(s: LatchState, frames: seq<Option<seq<Detection>>>)
    requires Inv(s) && s.ids.role == map[] && |s.memory.height| >= 3
    ensures Run(s, frames).ids.role == map[]
    decreases |frames|
  {
    if frames != [] {
      var t := LatchStep(s, frames[0]);
      assert |t.memory.height| >= 3 by {
        DistinctCard(s.memory.order);
        DistinctCard(t.memory.order);
      }
      ThirdTrackBlocksLatch(t, frames[1..]);
    }
  }

  // --------------------------------------------------------- role holders

  /** The last labelled track, in key order, holding the role: the loop over
      the identities overwrites its candidate at every match. */
  function HolderOf(order: seq<int>, role: map<int, Role>, want: Role): (h: Option<int>)
    ensures h.Some? ==> h.value in order && h.value in role && role[h.value] == want
    ensures h.None? ==> forall id :: id in order && id in role ==> role[id] != want
  {
    if order == [] then None
    else
      var id := order[|order| - 1];
      if id in role && role[id] == want then Some(id)
      else
        var h := HolderOf(order[..|order| - 1], role, want);
        assert forall x :: x in order ==> x in order[..|order| - 1] || x == id;
        h
  }

  /** With both roles assigned, each has exactly one holder and they differ. */
  lemma HolderOfFindsRole(ids: Identities)
    requires WellFormed(ids) && |ids.role| == 2
    ensures HolderOf(ids.order, ids.role, Child).Some?
    ensures HolderOf(ids.order, ids.role, Guardian).Some?
    ensures HolderOf(ids.order, ids.role, Child) != HolderOf(ids.order, ids.role, Guardian)
    ensures forall id :: id in ids.role ==>
              HolderOf(ids.order, ids.role, ids.role[id]) == Some(id)
  {
    DistinctCard(ids.order);
    assert |ids.order| == 2;
    var a := ids.order[0];
    var b := ids.order[1];
    assert ids.order[..1] == [a];
    assert forall id :: id in ids.role ==> id == a || id == b;
    if ids.role[a] == Child {
      assert ids.role[b] == Guardian;
    } else {
      assert ids.role[b] == Child && ids.role[a] == Guardian;
    }
  }

  /** The scan over the identities for the Child and Guardian holders. */
  method RoleHolders(ids: Identities) returns (child: Option<int>, guardian: Option<int>)
    ensures child == HolderOf(ids.order, ids.role, Child)
    ensures guardian == HolderOf(ids.order, ids.role, Guardian)
  {
    child, guardian := None, None;
    for i := 0 to |ids.order|
      invariant child == HolderOf(ids.order[..i], ids.role, Child)
      invariant guardian == HolderOf(ids.order[..i], ids.role, Guardian)
    {
      var id := ids.order[i];
      assert ids.order[..i + 1][..i] == ids.order[..i];
      if id in ids.role {
        if ids.role[id] == Child {
          child := Some(id);
        } else {
          guardian := Some(id);
        }
      }
    }
    assert ids.order[..|ids.order|] == ids.order;
  }

  // ------------------------------------------------------------- first latch

  /** The empty state before the first frame. */
  function Start(): (s: LatchState)
    ensures Inv(s)
  {
    LatchState(Memory([], map[]), Identities([], map[]))
  }

  /** The index of a frame with two distinct tracks. */
  lemma PairFrame(a: int, ka: Keypoints, b: int, kb: Keypoints)
    requires a != b
    ensures IndexFrame([Detection(a, ka), Detection(b, kb)]) == FrameDict([a, b], map[a := ka, b := kb])
  {
    var ds := [Detection(a, ka), Detection(b, kb)];
    assert ds[..1] == [Detection(a, ka)];
    assert [Detection(a, ka)][..0] == [];
    assert IndexFrame([Detection(a, ka)]) == FrameDict([a], map[a := ka]);
  }

  /** Remembering two tracks with visible trunks from an empty memory. */
  lemma PairMemory(a: int, ka: Keypoints, b: int, kb: Keypoints)
    requires a != b && TrunkMetric(ka) > 0 && TrunkMetric(kb) > 0
    ensures RememberAll(Memory([], map[]), FrameDict([a, b], map[a := ka, b := kb]), [a, b])
         == Memory([a, b], map[a := TrunkMetric(ka), b := TrunkMetric(kb)])
  {
    var f := FrameDict([a, b], map[a := ka, b := kb]);
    assert [a, b][..1] == [a];
    assert [a][..0] == [];
    assert RememberAll(Memory([], map[]), f, [a]) == Memory([a], map[a := TrunkMetric(ka)]);
  }

  /** The first frame showing two tracks with visible trunks fixes the roles:
      the strictly taller one is Guardian, and on a tie the second detected. */
  lemma FirstPairLatches(a: int, ka: Keypoints, b: int, kb: Keypoints)
    requires a != b && TrunkMetric(ka) > 0 && TrunkMetric(kb) > 0
    ensures LatchStep(Start(), Some([Detection(a, ka), Detection(b, kb)])).ids
         == Identities([a, b], map[a := if TrunkMetric(ka) > TrunkMetric(kb) then Guardian else Child,
                                   b := if TrunkMetric(ka) > TrunkMetric(kb) then Child else Guardian])
  {
    PairFrame(a, ka, b, kb);
    PairMemory(a, ka, b, kb);
    PairLock(a, TrunkMetric(ka), b, TrunkMetric(kb));
  }

  lemma PairLock(a: int, ha: nat, b: int, hb: nat)
    requires a != b && ha > 0 && hb > 0
    ensures ValidMemory(Memory([a, b], map[a := ha, b := hb]))
    ensures Lock(Identities([], map[]), Memory([a, b], map[a := ha, b := hb]))
         == Identities([a, b], map[a := if ha > hb then Guardian else Child,
                                   b := if ha > hb then Child else Guardian])
  {
    var mem := Memory([a, b], map[a := ha, b := hb]);
    assert Elems([a, b]) == {a, b};
    assert mem.height.Keys == {a, b};
    assert ValidMemory(mem);
    assert LatchFires(Identities([], map[]), mem);
  }

  // -------------------------------------------------------- worked example

  function Upright(top: int, bottom: int): Keypoints
  {
    map[LeftShoulder := Point(100, top), RightShoulder := Point(120, top),
        LeftHip := Point(100, bottom), RightHip := Point(120, bottom)]
  }

  /** Two people, the first with twice the trunk of the second: one frame
      labels the first Guardian and the second Child. */
  lemma TallerFirstTrackBecomesGuardian()
    ensures LatchStep(Start(), Some([Detection(1, Upright(100, 200)), Detection(2, Upright(100, 150))])).ids
         == Identities([1, 2], map[1 := Guardian, 2 := Child])
  {
    assert TrunkMetric(Upright(100, 200)) == 40000 by {
      assert Square(-200) == 40000;
    }
    assert TrunkMetric(Upright(100, 150)) == 10000 by {
      assert Square(-100) == 10000;
    }
    FirstPairLatches(1, Upright(100, 200), 2, Upright(100, 150));
  }
}
