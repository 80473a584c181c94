/** The attention heatmaps: one grid per role, row-major (row = y, column = x),
    in which every recorded focus point sets a filled disc of radius 40 to 1. */
module Heatmap {
  import opened Common

  /** Radius, in pixels, of the disc stamped around a focus point. */
  const DiscRadius: int := 40

  /** The cell (x, y) lies in the filled disc around c. */
  predicate InDisc(c: Point, x: int, y: int)
  {
    (x - c.x) * (x - c.x) + (y - c.y) * (y - c.y) <= DiscRadius * DiscRadius
  }

  /** A focus point is stamped only when it lies inside the frame. */
  predicate InFrame(p: Point, width: int, height: int)
  {
    0 <= p.x < width && 0 <= p.y < height
  }

  /** The value of a cell after stamping a disc around c (if any). */
  function Stamped(v: int, c: Option<Point>, x: int, y: int): int
  {
    if c.Some? && InDisc(c.value, x, y) then 1 else v
  }

  /** The cell lies within the disc's bounding square, and the centre is in it. */
  lemma DiscBounds(c: Point, x: int, y: int)
    ensures InDisc(c, x, y) ==> c.x - DiscRadius <= x <= c.x + DiscRadius && c.y - DiscRadius <= y <= c.y + DiscRadius
    ensures InDisc(c, c.x, c.y)
  {
    SquareMonoInt(x - c.x);
    SquareMonoInt(y - c.y);
  }

  lemma SquareMonoInt(d: int)
    ensures d * d <= DiscRadius * DiscRadius ==> -DiscRadius <= d <= DiscRadius
  {
    if d > DiscRadius {
      assert d * d > DiscRadius * d;
    } else if d < -DiscRadius {
      assert d * d > DiscRadius * -d;
    }
  }

  /** The cell is covered by the disc around one of the foci. */
  predicate Covered(foci: seq<Point>, x: int, y: int)
  {
    exists i :: 0 <= i < |foci| && InDisc(foci[i], x, y)
  }

  /** Every cell of the grid is 1 exactly where some focus's disc covers it. */
  ghost predicate UnionOfDiscs(hm: array2<int>, foci: seq<Point>)
    reads hm
  {
    forall y, x :: 0 <= y < hm.Length0 && 0 <= x < hm.Length1 ==>
      hm[y, x] == if Covered(foci, x, y) then 1 else 0
  }

  /** Stamping one more focus keeps a cell equal to the coverage indicator of
      the foci stamped so far: the heatmap is the union of the discs. */
  lemma StampExtendsCoverage(foci: seq<Point>, s: Option<Point>, v: int, x: int, y: int)
    requires v == if Covered(foci, x, y) then 1 else 0
    ensures Stamped(v, s, x, y) == if Covered(foci + Opt(s), x, y) then 1 else 0
  {
    if s.None? {
      assert foci + Opt(s) == foci;
      return;
    }
    var c := s.value;
    if InDisc(c, x, y) {
      assert (foci + [c])[|foci|] == c;
    } else if Covered(foci, x, y) {
      var i :| 0 <= i < |foci| && InDisc(foci[i], x, y);
      assert (foci + [c])[i] == foci[i];
    } else {
      forall i | 0 <= i < |foci| + 1
        ensures !InDisc((foci + [c])[i], x, y)
      {
        if i < |foci| {
          assert (foci + [c])[i] == foci[i];
        }
      }
    }
  }

  /** Marking a focus a second time changes nothing: a disc already in the
      union adds no cell to it. */
  lemma RestampIsIdempotent(foci: seq<Point>, c: Point, x: int, y: int)
    requires c in foci
    ensures Covered(foci + [c], x, y) == Covered(foci, x, y)
  {
    if Covered(foci + [c], x, y) {
      var i :| 0 <= i < |foci| + 1 && InDisc((foci + [c])[i], x, y);
      if i == |foci| {
        var j :| 0 <= j < |foci| && foci[j] == c;
        assert InDisc(foci[j], x, y);
      } else {
        assert (foci + [c])[i] == foci[i];
      }
    }
    if Covered(foci, x, y) {
      var i :| 0 <= i < |foci| && InDisc(foci[i], x, y);
      assert (foci + [c])[i] == foci[i];
    }
  }

  /** The focus stamped, as a list of zero or one points. */
  function Opt(c: Option<Point>): seq<Point>
  {
    if c.Some? then [c.value] else []
  }

  /** Sets every cell of the disc around c that lies in the grid to 1 and
      leaves every other cell unchanged. */
  method MarkDisc(hm: array2<int>, c: Point)
    modifies hm
    ensures forall y, x :: 0 <= y < hm.Length0 && 0 <= x < hm.Length1 ==>
              hm[y, x] == Stamped(old(hm[y, x]), Some(c), x, y)
  {
    for y := 0 to hm.Length0
      invariant forall i, j :: 0 <= i < hm.Length0 && 0 <= j < hm.Length1 ==>
                  hm[i, j] == if i < y then Stamped(old(hm[i, j]), Some(c), j, i) else old(hm[i, j])
    {
      for x := 0 to hm.Length1
        invariant forall i, j :: 0 <= i < hm.Length0 && 0 <= j < hm.Length1 ==>
                    hm[i, j] == if i < y || (i == y && j < x) then Stamped(old(hm[i, j]), Some(c), j, i)
                                else old(hm[i, j])
      {
        if InDisc(c, x, y) {
          hm[y, x] := 1;
        }
      }
    }
  }
}
