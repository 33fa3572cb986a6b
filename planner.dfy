/** Segmentation planner of `Encode` (main.go:436-476): how many data frames
    a file needs, how many frames one segment video may hold, how many
    segment videos there are and which bytes of the file each one carries. */
module Planner {
  import opened Base

  /** The derived sizes `Encode` computes before its segment loop. */
  datatype Plan = Plan(
    allFrameNum: nat,     // data frames for the whole file
    segmentLength: nat,   // most data frames one segment video holds
    allSeconds: nat,      // duration in seconds (reported only)
    isSegments: bool,     // whether the file is split over several videos
    segmentsNum: nat)     // number of segment videos

  /** The encoder's settings that the planner needs are usable. The program
      itself does not validate them (see README). */
  predicate ValidSettings(dataSliceLen: int, outputFPS: int, segmentSeconds: int)
  {
    dataSliceLen > 0 && outputFPS > 0 && segmentSeconds > 0
  }

  /** The sizes `Encode` derives from the file length and its settings
      (main.go:436-444). */
  function MakePlan(fileLength: nat, dataSliceLen: nat, outputFPS: nat, segmentSeconds: nat): Plan
    requires ValidSettings(dataSliceLen, outputFPS, segmentSeconds)
  {
    var allFrameNum := CeilDiv(fileLength, dataSliceLen);
    var segmentLength := segmentSeconds * outputFPS;
    Plan(allFrameNum, segmentLength, CeilDiv(allFrameNum, outputFPS),
         allFrameNum > segmentLength, CeilDiv(allFrameNum, segmentLength))
  }

  /** The plan's counts: one data frame per `dataSliceLen` bytes rounded up,
      `segmentSeconds * outputFPS` data frames per segment video, one
      segment per that many frames rounded up; the file is split exactly
      when there is more than one segment, and an empty file has none. */
  lemma PlanCounts(fileLength: nat, dataSliceLen: nat, outputFPS: nat, segmentSeconds: nat)
    requires ValidSettings(dataSliceLen, outputFPS, segmentSeconds)
    ensures var p := MakePlan(fileLength, dataSliceLen, outputFPS, segmentSeconds);
            IsCeiling(p.allFrameNum, fileLength, dataSliceLen) &&
            p.segmentLength == segmentSeconds * outputFPS && p.segmentLength > 0 &&
            IsCeiling(p.allSeconds, p.allFrameNum, outputFPS) &&
            IsCeiling(p.segmentsNum, p.allFrameNum, p.segmentLength) &&
            (p.isSegments <==> p.segmentsNum > 1) &&
            (p.segmentsNum == 0 <==> fileLength == 0)
  {
    var p := MakePlan(fileLength, dataSliceLen, outputFPS, segmentSeconds);
    MulStrict(0, segmentSeconds, outputFPS);
    SplitIffSeveral(p.allFrameNum, p.segmentLength, p.segmentsNum);
  }

  /** `allFrameNum > segmentLength` (the program's test for splitting) holds
      exactly when more than one segment is planned. */
  lemma SplitIffSeveral(frames: nat, perSegment: nat, n: nat)
    requires perSegment > 0 && IsCeiling(n, frames, perSegment)
    ensures frames > perSegment <==> n > 1
  {
    if n > 1 {
      MulMonotone(1, n - 1, perSegment);
    } else {
      MulMonotone(n, 1, perSegment);
    }
  }

  /** First byte of segment `segmentsIndex` (main.go:473, 475). */
  function SegmentStart(segmentsIndex: nat, dataSliceLen: nat, segmentLength: nat): nat
  {
    segmentsIndex * dataSliceLen * segmentLength
  }

  /** One past the last byte of segment `segmentsIndex` (main.go:472-475). */
  function SegmentEnd(segmentsIndex: nat, dataSliceLen: nat, segmentLength: nat, fileLength: nat): nat
  {
    if (segmentsIndex + 1) * dataSliceLen * segmentLength <= fileLength
    then (segmentsIndex + 1) * dataSliceLen * segmentLength
    else fileLength
  }

  lemma NextStart(s: nat, d: nat, perSegment: nat)
    ensures SegmentStart(s + 1, d, perSegment) == SegmentStart(s, d, perSegment) + d * perSegment
    ensures (s + 1) * d * perSegment == SegmentStart(s + 1, d, perSegment)
  {
    assert (s + 1) * d == s * d + d;
    assert (s * d + d) * perSegment == s * d * perSegment + d * perSegment;
  }

  /** A planned segment starts inside the file (so the program's slicing
      never panics), is not empty and ends at most at the end of the file;
      every segment but the last holds `dataSliceLen * segmentLength` bytes
      and ends where the next one starts; the last one ends with the file. */
  lemma SegmentBounds(fileLength: nat, d: nat, outputFPS: nat, segmentSeconds: nat, s: nat)
    requires ValidSettings(d, outputFPS, segmentSeconds)
    requires s < MakePlan(fileLength, d, outputFPS, segmentSeconds).segmentsNum
    ensures var p := MakePlan(fileLength, d, outputFPS, segmentSeconds);
            SegmentStart(s, d, p.segmentLength) < SegmentEnd(s, d, p.segmentLength, fileLength) <= fileLength
    ensures var p := MakePlan(fileLength, d, outputFPS, segmentSeconds);
            s + 1 < p.segmentsNum ==>
              SegmentEnd(s, d, p.segmentLength, fileLength) == SegmentStart(s + 1, d, p.segmentLength) &&
              SegmentEnd(s, d, p.segmentLength, fileLength) - SegmentStart(s, d, p.segmentLength) == d * p.segmentLength
    ensures var p := MakePlan(fileLength, d, outputFPS, segmentSeconds);
            s + 1 == p.segmentsNum ==> SegmentEnd(s, d, p.segmentLength, fileLength) == fileLength
  {
    var p := MakePlan(fileLength, d, outputFPS, segmentSeconds);
    PlanCounts(fileLength, d, outputFPS, segmentSeconds);
    NextStart(s, d, p.segmentLength);
    StartInside(fileLength, d, p.segmentLength, p.allFrameNum, p.segmentsNum, s);
    if s + 1 < p.segmentsNum {
      StartInside(fileLength, d, p.segmentLength, p.allFrameNum, p.segmentsNum, s + 1);
    } else {
      LastReachesEnd(fileLength, d, p.segmentLength, p.allFrameNum, p.segmentsNum);
    }
  }

  /** Segment s < n starts strictly before the end of the file. */
  lemma StartInside(fileLength: nat, d: nat, perSegment: nat, frames: nat, n: nat, s: nat)
    requires d > 0 && perSegment > 0
    requires IsCeiling(frames, fileLength, d) && IsCeiling(n, frames, perSegment)
    requires s < n
    ensures s * d * perSegment < fileLength
  {
    MulMonotone(s, n - 1, perSegment);
    assert s * perSegment <= frames - 1;
    MulMonotone(s * perSegment, frames - 1, d);
    assert s * d * perSegment == s * perSegment * d;
  }

  /** n segments of d * perSegment bytes reach the end of the file. */
  lemma LastReachesEnd(fileLength: nat, d: nat, perSegment: nat, frames: nat, n: nat)
    requires d > 0 && perSegment > 0
    requires IsCeiling(frames, fileLength, d) && IsCeiling(n, frames, perSegment)
    ensures n * d * perSegment >= fileLength
  {
    MulMonotone(frames, n * perSegment, d);
    assert n * d * perSegment == n * perSegment * d;
  }

  /** The bytes of one segment, as the program slices them (main.go:472-476). */
  function Segment(fileData: seq<byte>, s: nat, d: nat, perSegment: nat): seq<byte>
    requires SegmentStart(s, d, perSegment) <= |fileData|
  {
    NextStart(s, d, perSegment);
    fileData[SegmentStart(s, d, perSegment)..SegmentEnd(s, d, perSegment, |fileData|)]
  }

  /** The first k segments of a file, in order. */
  function Segments(fileData: seq<byte>, d: nat, outputFPS: nat, segmentSeconds: nat, k: nat): seq<seq<byte>>
    requires ValidSettings(d, outputFPS, segmentSeconds)
    requires k <= MakePlan(|fileData|, d, outputFPS, segmentSeconds).segmentsNum
  {
    if k == 0 then []
    else
      SegmentBounds(|fileData|, d, outputFPS, segmentSeconds, k - 1);
      Segments(fileData, d, outputFPS, segmentSeconds, k - 1)
        + [Segment(fileData, k - 1, d, segmentSeconds * outputFPS)]
  }

  lemma {:induction false} SegmentsAt(fileData: seq<byte>, d: nat, outputFPS: nat, segmentSeconds: nat, k: nat, s: nat)
    requires ValidSettings(d, outputFPS, segmentSeconds)
    requires s < k <= MakePlan(|fileData|, d, outputFPS, segmentSeconds).segmentsNum
    ensures SegmentStart(s, d, segmentSeconds * outputFPS) <= |fileData|
    ensures |Segments(fileData, d, outputFPS, segmentSeconds, k)| == k
    ensures Segments(fileData, d, outputFPS, segmentSeconds, k)[s]
            == Segment(fileData, s, d, segmentSeconds * outputFPS)
  {
    SegmentsLength(fileData, d, outputFPS, segmentSeconds, k);
    SegmentBounds(|fileData|, d, outputFPS, segmentSeconds, s);
    if s < k - 1 {
      SegmentsAt(fileData, d, outputFPS, segmentSeconds, k - 1, s);
    }
  }

  lemma {:induction false} SegmentsLength(fileData: seq<byte>, d: nat, outputFPS: nat, segmentSeconds: nat, k: nat)
    requires ValidSettings(d, outputFPS, segmentSeconds)
    requires k <= MakePlan(|fileData|, d, outputFPS, segmentSeconds).segmentsNum
    ensures |Segments(fileData, d, outputFPS, segmentSeconds, k)| == k
  {
    if k > 0 {
      SegmentsLength(fileData, d, outputFPS, segmentSeconds, k - 1);
    }
  }

  /** The first k segments together are the file's bytes up to the end of
      segment k - 1: no gap, no overlap, in order. */
  lemma {:induction false} SegmentsPrefix(fileData: seq<byte>, d: nat, outputFPS: nat, segmentSeconds: nat, k: nat)
    requires ValidSettings(d, outputFPS, segmentSeconds)
    requires 0 < k <= MakePlan(|fileData|, d, outputFPS, segmentSeconds).segmentsNum
    ensures SegmentEnd(k - 1, d, segmentSeconds * outputFPS, |fileData|) <= |fileData|
    ensures Flatten(Segments(fileData, d, outputFPS, segmentSeconds, k))
            == fileData[..SegmentEnd(k - 1, d, segmentSeconds * outputFPS, |fileData|)]
  {
    var S := segmentSeconds * outputFPS;
    var L := |fileData|;
    SegmentBounds(L, d, outputFPS, segmentSeconds, k - 1);
    var prev := Segments(fileData, d, outputFPS, segmentSeconds, k - 1);
    var last := Segment(fileData, k - 1, d, S);
    FlattenSnoc(prev, last);
    if k == 1 {
      assert prev == [];
      assert SegmentStart(0, d, S) == 0;
    } else {
      SegmentsPrefix(fileData, d, outputFPS, segmentSeconds, k - 1);
      SegmentBounds(L, d, outputFPS, segmentSeconds, k - 2);
      assert fileData[..SegmentEnd(k - 2, d, S, L)] + last
          == fileData[..SegmentEnd(k - 1, d, S, L)];
    }
  }

  /** Tiling: the planned segments, concatenated in index order, are exactly
      the file. */
  lemma SegmentsTile(fileData: seq<byte>, d: nat, outputFPS: nat, segmentSeconds: nat)
    requires ValidSettings(d, outputFPS, segmentSeconds)
    ensures var n := MakePlan(|fileData|, d, outputFPS, segmentSeconds).segmentsNum;
            Flatten(Segments(fileData, d, outputFPS, segmentSeconds, n)) == fileData
  {
    var n := MakePlan(|fileData|, d, outputFPS, segmentSeconds).segmentsNum;
    PlanCounts(|fileData|, d, outputFPS, segmentSeconds);
    if n > 0 {
      SegmentsPrefix(fileData, d, outputFPS, segmentSeconds, n);
      SegmentBounds(|fileData|, d, outputFPS, segmentSeconds, n - 1);
    }
  }
}
