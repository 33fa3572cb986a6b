/** Segment framing of `Encode` (main.go:469-592): every segment becomes one
    video whose first frame is a header and whose other frames carry the
    segment's bytes in `dataSliceLen`-byte chunks. The barcode rendering,
    base64 and the ffmpeg subprocess are not modelled: a frame is what its
    barcode carries. */
module Framing {
  import opened Base
  import opened Planner
  import opened Naming

  /** The header object, marshalled to JSON in the program (main.go:331-337). */
  datatype IndexData = IndexData(hash: string, name: string, index: int, len: int, resize: int)

  /** One frame of a segment video. */
  datatype Frame = Header(info: IndexData) | Data(bytes: seq<byte>)

  /** One segment video as written: its path and its frames, in order. */
  datatype EncodedVideo = EncodedVideo(path: FilePath, frames: seq<Frame>)

  /** The pieces the chunk loop (main.go:545-583) cuts a segment into. */
  function Chunks(segment: seq<byte>, dataSliceLen: nat): seq<seq<byte>>
    requires dataSliceLen > 0
    decreases |segment|
  {
    if |segment| == 0 then []
    else if |segment| >= dataSliceLen then [segment[..dataSliceLen]] + Chunks(segment[dataSliceLen..], dataSliceLen)
    else [segment]
  }

  /** The chunks, concatenated, are the segment. */
  lemma {:induction false} ChunksConcat(segment: seq<byte>, dataSliceLen: nat)
    requires dataSliceLen > 0
    ensures Flatten(Chunks(segment, dataSliceLen)) == segment
    decreases |segment|
  {
    if |segment| >= dataSliceLen {
      ChunksConcat(segment[dataSliceLen..], dataSliceLen);
      assert segment == segment[..dataSliceLen] + segment[dataSliceLen..];
    } else if |segment| > 0 {
      assert Flatten([segment]) == segment + Flatten<byte>([]);
    }
  }

  /** Every chunk but the last holds exactly `dataSliceLen` bytes; the last
      is not empty and holds at most `dataSliceLen`; an empty segment has
      no chunk at all. */
  lemma {:induction false} ChunkSizes(segment: seq<byte>, dataSliceLen: nat)
    requires dataSliceLen > 0
    ensures var c := Chunks(segment, dataSliceLen);
            (|c| == 0 <==> |segment| == 0) &&
            (forall k :: 0 <= k < |c| - 1 ==> |c[k]| == dataSliceLen) &&
            (|c| > 0 ==> 0 < |c[|c| - 1]| <= dataSliceLen)
    decreases |segment|
  {
    if |segment| >= dataSliceLen {
      ChunkSizes(segment[dataSliceLen..], dataSliceLen);
      var c := Chunks(segment, dataSliceLen);
      var rest := Chunks(segment[dataSliceLen..], dataSliceLen);
      assert c == [segment[..dataSliceLen]] + rest;
      forall k | 0 <= k < |c| - 1 ensures |c[k]| == dataSliceLen {
        if k > 0 { assert c[k] == rest[k - 1]; }
      }
    }
  }

  /** The number of chunks is the ceiling of the segment length over
      `dataSliceLen`. */
  lemma {:induction false} ChunkCount(segment: seq<byte>, dataSliceLen: nat)
    requires dataSliceLen > 0
    ensures |Chunks(segment, dataSliceLen)| == CeilDiv(|segment|, dataSliceLen)
    decreases |segment|
  {
    var n := |segment|;
    if n >= dataSliceLen {
      ChunkCount(segment[dataSliceLen..], dataSliceLen);
      var c' := CeilDiv(n - dataSliceLen, dataSliceLen);
      assert (1 + c') * dataSliceLen == dataSliceLen + c' * dataSliceLen;
      if c' > 0 {
        assert (c' - 1) * dataSliceLen == c' * dataSliceLen - dataSliceLen;
      }
      CeilingUnique(1 + c', n, dataSliceLen);
    } else if n > 0 {
      CeilingUnique(1, n, dataSliceLen);
    }
  }

  /** The data frames carrying the given chunks, in order. */
  function DataFrames(chunks: seq<seq<byte>>): (fs: seq<Frame>)
    ensures |fs| == |chunks|
    ensures forall k :: 0 <= k < |chunks| ==> fs[k] == Data(chunks[k])
  {
    seq(|chunks|, k requires 0 <= k < |chunks| => Data(chunks[k]))
  }

  /** The bytes a frame contributes to the reassembled file. */
  function Payload(f: Frame): seq<byte>
  {
    match f
    case Header(_) => []
    case Data(b) => b
  }

  /** The payloads of a run of frames, in order. */
  function Payloads(frames: seq<Frame>): (ps: seq<seq<byte>>)
    ensures |ps| == |frames|
    ensures forall k :: 0 <= k < |frames| ==> ps[k] == Payload(frames[k])
  {
    seq(|frames|, k requires 0 <= k < |frames| => Payload(frames[k]))
  }

  /** The frame sequence of one segment: its header first, then its chunks. */
  function SegmentFrames(segment: seq<byte>, indexData: IndexData, dataSliceLen: nat): seq<Frame>
    requires dataSliceLen > 0
  {
    [Header(indexData)] + DataFrames(Chunks(segment, dataSliceLen))
  }

  /** A segment video starts with its header, which is its only header; the
      payloads of its later frames are the segment's chunks, which
      concatenate to the segment; and it has one frame per chunk besides. */
  lemma SegmentFramesShape(segment: seq<byte>, indexData: IndexData, dataSliceLen: nat)
    requires dataSliceLen > 0
    ensures var fs := SegmentFrames(segment, indexData, dataSliceLen);
            |fs| == 1 + CeilDiv(|segment|, dataSliceLen) &&
            fs[0] == Header(indexData) &&
            (forall k :: 1 <= k < |fs| ==> fs[k].Data?) &&
            Payloads(fs[1..]) == Chunks(segment, dataSliceLen) &&
            Flatten(Payloads(fs[1..])) == segment
  {
    var fs := SegmentFrames(segment, indexData, dataSliceLen);
    var c := Chunks(segment, dataSliceLen);
    ChunkCount(segment, dataSliceLen);
    ChunksConcat(segment, dataSliceLen);
    assert fs[1..] == DataFrames(c);
    assert Payloads(fs[1..]) == c;
  }

  /** The chunk loop of one segment (main.go:507, 510-516, 544-583): the
      header goes first, then one data frame per chunk; `i` counts the
      frames written and `fileNowLength` the bytes consumed. */
  method EncodeSegment(fileSegmentData: seq<byte>, indexData: IndexData, dataSliceLen: nat)
    returns (frames: seq<Frame>, i: nat, fileNowLength: nat)
    requires dataSliceLen > 0
    ensures frames == SegmentFrames(fileSegmentData, indexData, dataSliceLen)
    ensures i == |frames| == 1 + |Chunks(fileSegmentData, dataSliceLen)|
    ensures fileNowLength == |fileSegmentData|
  {
    var rest := fileSegmentData;
    i := 1;
    frames := [Header(indexData)];
    fileNowLength := 0;
    while true
      invariant frames + DataFrames(Chunks(rest, dataSliceLen)) == SegmentFrames(fileSegmentData, indexData, dataSliceLen)
      invariant i == |frames|
      invariant fileNowLength + |rest| == |fileSegmentData|
      decreases |rest|
    {
      if |rest| == 0 {
        break;
      }
      var data;
      if |rest| >= dataSliceLen {
        data := rest[..dataSliceLen];
        rest := rest[dataSliceLen..];
      } else {
        data := rest;
        rest := [];
      }
      assert DataFrames([data] + Chunks(rest, dataSliceLen)) == [Data(data)] + DataFrames(Chunks(rest, dataSliceLen));
      i := i + 1;
      fileNowLength := fileNowLength + |data|;
      frames := frames + [Data(data)];
    }
    assert DataFrames(Chunks(rest, dataSliceLen)) == [];
  }

  /** The header of segment s of n (main.go:510-516). */
  function SegmentHeader(inputFileHash: string, filePath: FilePath, s: nat, n: nat, qrcodeSize: int): IndexData
  {
    IndexData(inputFileHash, filePath.base, s, n, qrcodeSize)
  }

  /** Segment video s of a file, as the segment loop writes it. */
  function SegmentVideo(fileData: seq<byte>, inputFileHash: string, filePath: FilePath,
                        dataSliceLen: nat, qrcodeSize: int, outputFPS: nat, segmentSeconds: nat, s: nat): EncodedVideo
    requires ValidSettings(dataSliceLen, outputFPS, segmentSeconds)
    requires s < MakePlan(|fileData|, dataSliceLen, outputFPS, segmentSeconds).segmentsNum
  {
    var n := MakePlan(|fileData|, dataSliceLen, outputFPS, segmentSeconds).segmentsNum;
    SegmentBounds(|fileData|, dataSliceLen, outputFPS, segmentSeconds, s);
    EncodedVideo(
      SegmentOutputPath(AddOutputToFileName(filePath), s, n),
      SegmentFrames(Segment(fileData, s, dataSliceLen, segmentSeconds * outputFPS),
                    SegmentHeader(inputFileHash, filePath, s, n, qrcodeSize), dataSliceLen))
  }

  /** All segment videos of a file, in index order. */
  function Encoding(fileData: seq<byte>, inputFileHash: string, filePath: FilePath,
                    dataSliceLen: nat, qrcodeSize: int, outputFPS: nat, segmentSeconds: nat): (vs: seq<EncodedVideo>)
    requires ValidSettings(dataSliceLen, outputFPS, segmentSeconds)
    ensures |vs| == MakePlan(|fileData|, dataSliceLen, outputFPS, segmentSeconds).segmentsNum
  {
    var n := MakePlan(|fileData|, dataSliceLen, outputFPS, segmentSeconds).segmentsNum;
    seq(n, s requires 0 <= s < n =>
      SegmentVideo(fileData, inputFileHash, filePath, dataSliceLen, qrcodeSize, outputFPS, segmentSeconds, s))
  }

  /** One pass of the segment loop (main.go:470-591): slice the segment,
      choose its output path, build its header and run the chunk loop. */
  method EncodeSegmentAt(fileData: seq<byte>, inputFileHash: string, filePath: FilePath, outputFilePath: FilePath,
                         dataSliceLen: nat, qrcodeSize: int, outputFPS: nat, segmentSeconds: nat,
                         segmentsIndex: nat, segmentsNum: nat)
    returns (video: EncodedVideo)
    requires ValidSettings(dataSliceLen, outputFPS, segmentSeconds)
    requires segmentsNum == MakePlan(|fileData|, dataSliceLen, outputFPS, segmentSeconds).segmentsNum
    requires outputFilePath == AddOutputToFileName(filePath)
    requires segmentsIndex < segmentsNum
    ensures video == SegmentVideo(fileData, inputFileHash, filePath, dataSliceLen, qrcodeSize,
                                  outputFPS, segmentSeconds, segmentsIndex)
  {
    var fileLength := |fileData|;
    var segmentLength := segmentSeconds * outputFPS;
    SegmentBounds(fileLength, dataSliceLen, outputFPS, segmentSeconds, segmentsIndex);
    NextStart(segmentsIndex, dataSliceLen, segmentLength);
    var start := SegmentStart(segmentsIndex, dataSliceLen, segmentLength);
    var end := SegmentStart(segmentsIndex + 1, dataSliceLen, segmentLength);
    var fileSegmentData;
    if end <= fileLength {
      fileSegmentData := fileData[start..end];
    } else {
      fileSegmentData := fileData[start..fileLength];
    }
    var outputFileIndexPath;
    if segmentsIndex == 0 && segmentsNum == 1 {
      outputFileIndexPath := outputFilePath;
    } else {
      outputFileIndexPath := AddIndexToFileName(outputFilePath, segmentsIndex);
    }
    var indexData := IndexData(inputFileHash, filePath.base, segmentsIndex, segmentsNum, qrcodeSize);
    var frames, i, fileNowLength := EncodeSegment(fileSegmentData, indexData, dataSliceLen);
    video := EncodedVideo(outputFileIndexPath, frames);
  }

  /** The segment loop of `Encode` for one input file (main.go:436-444,
      469-592), with the ffmpeg pipe replaced by the returned frames. */
  method EncodeFile(fileData: seq<byte>, inputFileHash: string, filePath: FilePath,
                    dataSliceLen: nat, qrcodeSize: int, outputFPS: nat, segmentSeconds: nat)
    returns (videos: seq<EncodedVideo>)
    requires ValidSettings(dataSliceLen, outputFPS, segmentSeconds)
    ensures videos == Encoding(fileData, inputFileHash, filePath, dataSliceLen, qrcodeSize, outputFPS, segmentSeconds)
  {
    var plan := MakePlan(|fileData|, dataSliceLen, outputFPS, segmentSeconds);
    var segmentsNum := plan.segmentsNum;
    var outputFilePath := AddOutputToFileName(filePath);
    videos := [];
    for segmentsIndex := 0 to segmentsNum
      invariant videos == EncodedUpTo(fileData, inputFileHash, filePath, dataSliceLen, qrcodeSize,
                                      outputFPS, segmentSeconds, segmentsIndex)
    {
      var video := EncodeSegmentAt(fileData, inputFileHash, filePath, outputFilePath, dataSliceLen, qrcodeSize,
                                   outputFPS, segmentSeconds, segmentsIndex, segmentsNum);
      videos := videos + [video];
    }
    EncodedUpToAll(fileData, inputFileHash, filePath, dataSliceLen, qrcodeSize, outputFPS, segmentSeconds, segmentsNum);
  }

  /** The first k segment videos, as the segment loop has written them after k passes. */
  function EncodedUpTo(fileData: seq<byte>, inputFileHash: string, filePath: FilePath,
                       dataSliceLen: nat, qrcodeSize: int, outputFPS: nat, segmentSeconds: nat, k: nat): seq<EncodedVideo>
    requires ValidSettings(dataSliceLen, outputFPS, segmentSeconds)
    requires k <= MakePlan(|fileData|, dataSliceLen, outputFPS, segmentSeconds).segmentsNum
  {
    if k == 0 then []
    else EncodedUpTo(fileData, inputFileHash, filePath, dataSliceLen, qrcodeSize, outputFPS, segmentSeconds, k - 1)
         + [SegmentVideo(fileData, inputFileHash, filePath, dataSliceLen, qrcodeSize, outputFPS, segmentSeconds, k - 1)]
  }

  /** After k passes the segment loop has written the first k videos of
      the encoding; after all of them, the whole encoding. */
  lemma {:induction false} EncodedUpToAll(fileData: seq<byte>, inputFileHash: string, filePath: FilePath,
                                          dataSliceLen: nat, qrcodeSize: int, outputFPS: nat, segmentSeconds: nat, k: nat)
    requires ValidSettings(dataSliceLen, outputFPS, segmentSeconds)
    requires k <= MakePlan(|fileData|, dataSliceLen, outputFPS, segmentSeconds).segmentsNum
    ensures EncodedUpTo(fileData, inputFileHash, filePath, dataSliceLen, qrcodeSize, outputFPS, segmentSeconds, k)
            == Encoding(fileData, inputFileHash, filePath, dataSliceLen, qrcodeSize, outputFPS, segmentSeconds)[..k]
  {
    if k > 0 {
      EncodedUpToAll(fileData, inputFileHash, filePath, dataSliceLen, qrcodeSize, outputFPS, segmentSeconds, k - 1);
      var all := Encoding(fileData, inputFileHash, filePath, dataSliceLen, qrcodeSize, outputFPS, segmentSeconds);
      var v := SegmentVideo(fileData, inputFileHash, filePath, dataSliceLen, qrcodeSize, outputFPS, segmentSeconds, k - 1);
      assert all[k - 1] == v;
      PrefixSnoc(all, k - 1);
    }
  }

  /** Segment video s sits at segment path s, starts with the header that
      names the file's hash, its base name, index s, the segment count and
      the barcode size, and has at least one data frame after it and only
      data frames. */
  lemma SegmentVideoHeader(fileData: seq<byte>, inputFileHash: string, filePath: FilePath,
                           dataSliceLen: nat, qrcodeSize: int, outputFPS: nat, segmentSeconds: nat, s: nat)
    requires ValidSettings(dataSliceLen, outputFPS, segmentSeconds)
    requires s < MakePlan(|fileData|, dataSliceLen, outputFPS, segmentSeconds).segmentsNum
    ensures var n := MakePlan(|fileData|, dataSliceLen, outputFPS, segmentSeconds).segmentsNum;
            var v := SegmentVideo(fileData, inputFileHash, filePath, dataSliceLen, qrcodeSize, outputFPS, segmentSeconds, s);
            v.path == SegmentOutputPath(AddOutputToFileName(filePath), s, n) &&
            |v.frames| >= 2 &&
            v.frames[0] == Header(IndexData(inputFileHash, filePath.base, s, n, qrcodeSize)) &&
            (forall k :: 1 <= k < |v.frames| ==> v.frames[k].Data?)
  {
    var n := MakePlan(|fileData|, dataSliceLen, outputFPS, segmentSeconds).segmentsNum;
    var S := segmentSeconds * outputFPS;
    SegmentBounds(|fileData|, dataSliceLen, outputFPS, segmentSeconds, s);
    var seg := Segment(fileData, s, dataSliceLen, S);
    assert |seg| > 0;
    SegmentFramesShape(seg, SegmentHeader(inputFileHash, filePath, s, n, qrcodeSize), dataSliceLen);
  }

  /** Segment video s holds at most `segmentLength` data frames, and
      exactly that many unless it is the last. */
  lemma SegmentVideoLength(fileData: seq<byte>, inputFileHash: string, filePath: FilePath,
                           dataSliceLen: nat, qrcodeSize: int, outputFPS: nat, segmentSeconds: nat, s: nat)
    requires ValidSettings(dataSliceLen, outputFPS, segmentSeconds)
    requires s < MakePlan(|fileData|, dataSliceLen, outputFPS, segmentSeconds).segmentsNum
    ensures var p := MakePlan(|fileData|, dataSliceLen, outputFPS, segmentSeconds);
            var v := SegmentVideo(fileData, inputFileHash, filePath, dataSliceLen, qrcodeSize, outputFPS, segmentSeconds, s);
            |v.frames| - 1 <= p.segmentLength &&
            (s + 1 < p.segmentsNum ==> |v.frames| - 1 == p.segmentLength)
  {
    var n := MakePlan(|fileData|, dataSliceLen, outputFPS, segmentSeconds).segmentsNum;
    var S := segmentSeconds * outputFPS;
    SegmentBounds(|fileData|, dataSliceLen, outputFPS, segmentSeconds, s);
    NextStart(s, dataSliceLen, S);
    var seg := Segment(fileData, s, dataSliceLen, S);
    assert |seg| <= dataSliceLen * S;
    assert s + 1 < n ==> |seg| == dataSliceLen * S;
    SegmentDataFrames(|seg|, dataSliceLen, S, s + 1 < n);
    SegmentFramesShape(seg, SegmentHeader(inputFileHash, filePath, s, n, qrcodeSize), dataSliceLen);
  }

  /** A segment of at most `dataSliceLen * S` bytes, exactly that many when
      it is not the last, needs at most S chunks, exactly S when not last. */
  lemma SegmentDataFrames(len: nat, dataSliceLen: nat, S: nat, full: bool)
    requires dataSliceLen > 0 && S > 0
    requires len <= dataSliceLen * S && (full ==> len == dataSliceLen * S)
    ensures CeilDiv(len, dataSliceLen) <= S && (full ==> CeilDiv(len, dataSliceLen) == S)
  {
    assert dataSliceLen * S == S * dataSliceLen;
    CeilingLeast(S, len, dataSliceLen);
    if full {
      CeilingUnique(S, len, dataSliceLen);
    }
  }

  /** What the segment videos of a file carry: video s sits at segment path
      s, its first frame is the header naming the file's hash, its own index
      s, the segment count and the barcode size, every later frame is a data
      frame, and it holds at most `segmentLength` data frames (exactly that
      many except in the last video). */
  lemma EncodingShape(fileData: seq<byte>, inputFileHash: string, filePath: FilePath,
                      dataSliceLen: nat, qrcodeSize: int, outputFPS: nat, segmentSeconds: nat, s: nat)
    requires ValidSettings(dataSliceLen, outputFPS, segmentSeconds)
    requires s < MakePlan(|fileData|, dataSliceLen, outputFPS, segmentSeconds).segmentsNum
    ensures var p := MakePlan(|fileData|, dataSliceLen, outputFPS, segmentSeconds);
            var v := Encoding(fileData, inputFileHash, filePath, dataSliceLen, qrcodeSize, outputFPS, segmentSeconds)[s];
            v.path == SegmentOutputPath(AddOutputToFileName(filePath), s, p.segmentsNum) &&
            |v.frames| >= 2 &&
            v.frames[0] == Header(IndexData(inputFileHash, filePath.base, s, p.segmentsNum, qrcodeSize)) &&
            (forall k :: 1 <= k < |v.frames| ==> v.frames[k].Data?) &&
            |v.frames| - 1 <= p.segmentLength &&
            (s + 1 < p.segmentsNum ==> |v.frames| - 1 == p.segmentLength)
  {
    var v := SegmentVideo(fileData, inputFileHash, filePath, dataSliceLen, qrcodeSize, outputFPS, segmentSeconds, s);
    assert Encoding(fileData, inputFileHash, filePath, dataSliceLen, qrcodeSize, outputFPS, segmentSeconds)[s] == v;
    SegmentVideoHeader(fileData, inputFileHash, filePath, dataSliceLen, qrcodeSize, outputFPS, segmentSeconds, s);
    SegmentVideoLength(fileData, inputFileHash, filePath, dataSliceLen, qrcodeSize, outputFPS, segmentSeconds, s);
  }

  /** The bytes a video's data frames carry: the payloads of every frame
      after the first, in order. */
  function VideoPayload(v: EncodedVideo): seq<byte>
  {
    if |v.frames| == 0 then [] else Flatten(Payloads(v.frames[1..]))
  }

  /** The bytes each video of a sequence carries, video by video. */
  function Carried(vs: seq<EncodedVideo>): (cs: seq<seq<byte>>)
    ensures |cs| == |vs|
    ensures forall s :: 0 <= s < |vs| ==> cs[s] == VideoPayload(vs[s])
  {
    seq(|vs|, s requires 0 <= s < |vs| => VideoPayload(vs[s]))
  }

  /** The data frames of all segment videos, in segment order and then in
      frame order, carry exactly the file's bytes. */
  lemma EncodingCarriesFile(fileData: seq<byte>, inputFileHash: string, filePath: FilePath,
                            dataSliceLen: nat, qrcodeSize: int, outputFPS: nat, segmentSeconds: nat)
    requires ValidSettings(dataSliceLen, outputFPS, segmentSeconds)
    ensures Flatten(Carried(Encoding(fileData, inputFileHash, filePath, dataSliceLen, qrcodeSize, outputFPS, segmentSeconds)))
            == fileData
  {
    var vs := Encoding(fileData, inputFileHash, filePath, dataSliceLen, qrcodeSize, outputFPS, segmentSeconds);
    var n := |vs|;
    var S := segmentSeconds * outputFPS;
    SegmentsLength(fileData, dataSliceLen, outputFPS, segmentSeconds, n);
    var segs := Segments(fileData, dataSliceLen, outputFPS, segmentSeconds, n);
    forall s | 0 <= s < n
      ensures VideoPayload(vs[s]) == segs[s]
    {
      SegmentsAt(fileData, dataSliceLen, outputFPS, segmentSeconds, n, s);
      SegmentFramesShape(Segment(fileData, s, dataSliceLen, S),
                         SegmentHeader(inputFileHash, filePath, s, n, qrcodeSize), dataSliceLen);
    }
    assert Carried(vs) == segs;
    SegmentsTile(fileData, dataSliceLen, outputFPS, segmentSeconds);
  }
}
