/** The decoder (`Decode`, main.go:618-963): a scan over the candidate
    videos that reads each one's first frame and records its header in an
    index keyed by file hash, a completeness gate, and the assembly of a
    file's bytes from the data frames of its segment videos in index order.
    ffprobe, ffmpeg and the file system are replaced by what they deliver
    for each path (`VideoFile`); the barcode recognizers, base64, JSON and
    SHA-256 are oracles carried by `Env`. */
module Reconstruction {
  import opened Base
  import opened Framing
  import opened Recognition
  import opened Pixels

  /** A video dimension as ffprobe reports it for a readable video. */
  type Dimension = x: int | x > 0 witness 1

  /** What the two ffprobe calls report for a video (main.go:648-679). */
  datatype Probe = Probe(width: Dimension, height: Dimension, frameCount: int)

  /** What the external tools make of one path: the probe result (None when
      ffprobe fails or its output does not parse), whether ffmpeg can be
      started, the rgb24 bytes it writes and whether it exits cleanly. */
  datatype VideoFile = VideoFile(probe: Option<Probe>, starts: bool, stream: seq<byte>, exitsOk: bool)

  /** The environment of one decoder run. `headerSight` and `dataSight` are
      what the recognizers make of a frame image after `ResizeImage` with
      factor 1 (header pass) and with the run's factor (assembly);
      `writeOk(path, i)` says whether writing the payload of frame i of the
      video at `path` to the output file succeeds. */
  datatype Env = Env(
    files: map<string, VideoFile>,
    headerSight: Image -> Sighting,
    dataSight: Image -> Sighting,
    b64: Base64Decoder,
    unmarshal: seq<byte> -> Option<IndexData>,
    sha256: seq<byte> -> string,
    writeOk: (string, nat) -> bool)

  /** A path nothing is known about: ffprobe fails on it, and ffmpeg starts
      but delivers nothing and exits with an error. */
  function FileAt(env: Env, path: string): VideoFile
  {
    if path in env.files then env.files[path] else VideoFile(None, true, [], false)
  }

  /** One entry of the index (main.go:339-347). */
  datatype IndexReadData = IndexReadData(
    width: Dimension, height: Dimension, frameCount: int,
    name: string, len: int, resize: int, path: seq<string>)

  /** Bytes in one rgb24 frame of a video of this entry's size. */
  function FrameSize(width: Dimension, height: Dimension): nat
  {
    width * height * 3
  }

  // ---------------------------------------------------------------------
  // Upsert (main.go:734-749)
  // ---------------------------------------------------------------------

  /** The upsert does not panic: `make([]string, Len)` needs Len >= 0 and
      the slot assignment needs Index inside the slice it writes, which is
      the existing Path on a later sight and the fresh one on the first. */
  predicate Fits(entries: map<string, IndexReadData>, h: IndexData)
  {
    h.len >= 0 && 0 <= h.index &&
    (if h.hash in entries then h.index < |entries[h.hash].path| else h.index < h.len)
  }

  /** The index after recording header `h` read from `videoFilePath`. */
  function Upserted(entries: map<string, IndexReadData>, h: IndexData, videoFilePath: string, p: Probe)
    : map<string, IndexReadData>
    requires Fits(entries, h)
  {
    var t := if h.hash in entries then entries[h.hash].path else seq(h.len, _ => "");
    entries[h.hash := IndexReadData(p.width, p.height, p.frameCount, h.name, h.len, h.resize,
                                    t[h.index := videoFilePath])]
  }

  /** First sight of a hash creates a Path of length Len with only slot
      Index set; a later sight keeps Path's length and every other slot and
      overwrites slot Index; either way every metadata field is the latest
      header's and probe's, and no other hash changes. */
  lemma UpsertEffect(entries: map<string, IndexReadData>, h: IndexData, videoFilePath: string, p: Probe)
    requires Fits(entries, h)
    ensures var e := Upserted(entries, h, videoFilePath, p);
            e.Keys == entries.Keys + {h.hash} &&
            (forall k :: k in entries && k != h.hash ==> e[k] == entries[k]) &&
            var r := e[h.hash];
            r.width == p.width && r.height == p.height && r.frameCount == p.frameCount &&
            r.name == h.name && r.len == h.len && r.resize == h.resize &&
            r.path[h.index] == videoFilePath &&
            (h.hash !in entries ==>
               |r.path| == h.len && forall j :: 0 <= j < h.len && j != h.index ==> r.path[j] == "") &&
            (h.hash in entries ==>
               |r.path| == |entries[h.hash].path| &&
               forall j :: 0 <= j < |r.path| && j != h.index ==> r.path[j] == entries[h.hash].path[j])
  {
  }

  /** The index of one decoder run: the hash-keyed map the scan fills. */
  class ReconstructionIndex {
    var entries: map<string, IndexReadData>

    constructor ()
      ensures entries == map[]
    {
      entries := map[];
    }

    /** The upsert of main.go:734-749; Go panics when `Fits` fails, which
        the scan checks first. */
    method Upsert(indexData: IndexData, videoFilePath: string, probe: Probe)
      requires Fits(entries, indexData)
      modifies this
      ensures entries == Upserted(old(entries), indexData, videoFilePath, probe)
    {
      var t := seq(indexData.len, _ => "");
      if indexData.hash in entries {
        t := entries[indexData.hash].path;
      }
      t := t[indexData.index := videoFilePath];
      entries := entries[indexData.hash := IndexReadData(probe.width, probe.height, probe.frameCount,
                                                         indexData.name, indexData.len, indexData.resize, t)];
    }

    /** The header pass of `Decode` over the candidate videos in the order
        the directory map yields them (main.go:643-750). */
    method Discover(fileDict: seq<string>, env: Env) returns (end: ScanEnd)
      modifies this
      ensures (entries, end) == Scan(old(entries), fileDict, env)
    {
      var k := 0;
      while k < |fileDict|
        invariant 0 <= k <= |fileDict|
        invariant Scan(old(entries), fileDict, env) == Scan(entries, fileDict[k..], env)
      {
        var videoFilePath := fileDict[k];
        assert fileDict[k..][1..] == fileDict[k + 1..];
        k := k + 1;
        var v := FileAt(env, videoFilePath);
        if v.probe.None? {
          continue;
        }
        var p := v.probe.value;
        if !v.starts {
          continue;
        }
        var rawData, next, exitFlag := ReadFrame(v.stream, 0, FrameSize(p.width, p.height));
        if exitFlag {
          end := ShortRead;
          return;
        }
        var img := RawDataToImage(rawData, p.width, p.height);
        var jsonByteData := QrDecode(env.headerSight(img), false, env.b64).data;
        if jsonByteData.None? {
          continue;
        }
        if !v.exitsOk {
          continue;
        }
        var indexData := env.unmarshal(jsonByteData.value);
        if indexData.None? {
          continue;
        }
        if !Fits(entries, indexData.value) {
          end := Panicked;
          return;
        }
        Upsert(indexData.value, videoFilePath, p);
      }
      end := Exhausted;
    }
  }

  // ---------------------------------------------------------------------
  // Header pass (main.go:643-750)
  // ---------------------------------------------------------------------

  /** How the scan ends: every candidate visited, a short read of a first
      frame (which `break`s the whole scan), or a panicking upsert. */
  datatype ScanEnd = Exhausted | ShortRead | Panicked

  /** What the header pass makes of one candidate. */
  datatype HeaderOutcome = Skip | StopScan | Found(header: IndexData, probe: Probe)

  /** One candidate of the header pass: probe, start ffmpeg, read the first
      frame, recognize it without manual entry, wait for ffmpeg, parse the
      JSON. Every failure skips the candidate except the short read. */
  function HeaderStep(videoFilePath: string, env: Env): HeaderOutcome
  {
    var v := FileAt(env, videoFilePath);
    if v.probe.None? || !v.starts then Skip
    else
      var p := v.probe.value;
      var size := FrameSize(p.width, p.height);
      if |v.stream| < size then StopScan
      else
        var img := ToImage(v.stream[..size], p.width, p.height);
        var json := QrDecode(env.headerSight(img), false, env.b64).data;
        if json.None? || !v.exitsOk then Skip
        else
          var h := env.unmarshal(json.value);
          if h.None? then Skip else Found(h.value, p)
  }

  /** The index after the header pass over `fileDict`, and how it ended. */
  function Scan(entries: map<string, IndexReadData>, fileDict: seq<string>, env: Env)
    : (map<string, IndexReadData>, ScanEnd)
    decreases |fileDict|
  {
    if fileDict == [] then (entries, Exhausted)
    else match HeaderStep(fileDict[0], env)
      case Skip => Scan(entries, fileDict[1..], env)
      case StopScan => (entries, ShortRead)
      case Found(h, p) =>
        if !Fits(entries, h) then (entries, Panicked)
        else Scan(Upserted(entries, h, fileDict[0], p), fileDict[1..], env)
  }

  /** The scan only adds hashes, keeps every Path's length once it exists,
      and every Path it creates has the length the first header gave. */
  ghost predicate PathsSized(entries: map<string, IndexReadData>, sizes: map<string, int>)
  {
    entries.Keys == sizes.Keys && forall k :: k in entries ==> |entries[k].path| == sizes[k]
  }

  /** A Path's length is fixed by the first header seen for its hash: later
      headers, whatever Len they claim, never change it. */
  lemma {:induction false} ScanKeepsPathLengths(entries: map<string, IndexReadData>, sizes: map<string, int>,
                                                fileDict: seq<string>, env: Env)
    requires PathsSized(entries, sizes)
    ensures var e := Scan(entries, fileDict, env).0;
            entries.Keys <= e.Keys &&
            forall k :: k in entries ==> |e[k].path| == sizes[k]
    decreases |fileDict|
  {
    if fileDict != [] {
      match HeaderStep(fileDict[0], env)
      case Skip => ScanKeepsPathLengths(entries, sizes, fileDict[1..], env);
      case StopScan =>
      case Found(h, p) =>
        if Fits(entries, h) {
          var e' := Upserted(entries, h, fileDict[0], p);
          UpsertEffect(entries, h, fileDict[0], p);
          var sizes' := if h.hash in sizes then sizes else sizes[h.hash := h.len];
          ScanKeepsPathLengths(e', sizes', fileDict[1..], env);
        }
    }
  }

  // ---------------------------------------------------------------------
  // Completeness gate (main.go:762, 792, 803)
  // ---------------------------------------------------------------------

  /** The gate as the program writes it: Path has Len slots. */
  predicate GateAsWritten(e: IndexReadData)
  {
    |e.path| == e.len
  }

  /** The gate as intended: Path has Len slots and every one of them was
      filled by a discovered video. */
  predicate AllSegmentsFound(e: IndexReadData)
  {
    |e.path| == e.len && forall j :: 0 <= j < |e.path| ==> e.path[j] != ""
  }

  /** A lone segment 0 of a two-segment file passes the gate as written:
      its first sight makes Path two slots long, so "decode everything"
      selects its hash, which the intended gate would not. */
  lemma GateAcceptsMissingSegment(env: Env, hash: string, name: string, path0: string, p: Probe)
    requires path0 != ""
    ensures var m := Upserted(map[], IndexData(hash, name, 0, 2, 0), path0, p);
            var e := m[hash];
            GateAsWritten(e) && e.path == [path0, ""] && !AllSegmentsFound(e) &&
            SelectAsWritten(m, [hash]) == [hash] && SelectAll(m, [hash]) == []
  {
    var m := Upserted(map[], IndexData(hash, name, 0, 2, 0), path0, p);
    var e := m[hash];
    assert e.path[1] == "";
    assert [hash][1..] == [];
  }

  /** The intended gate is the written one plus "no empty slot". */
  lemma AllSegmentsFoundIsStronger(e: IndexReadData)
    ensures AllSegmentsFound(e) <==> GateAsWritten(e) && "" !in e.path
  {
  }

  /** Under the intended gate, an entry missing only slot Index is
      incomplete, and the upsert that fills that slot completes it. */
  lemma UpsertCompletes(entries: map<string, IndexReadData>, h: IndexData, videoFilePath: string, p: Probe)
    requires Fits(entries, h) && h.hash in entries && videoFilePath != ""
    requires |entries[h.hash].path| == h.len
    requires forall j :: 0 <= j < h.len && j != h.index ==> entries[h.hash].path[j] != ""
    ensures entries[h.hash].path[h.index] == "" ==> !AllSegmentsFound(entries[h.hash])
    ensures AllSegmentsFound(Upserted(entries, h, videoFilePath, p)[h.hash])
  {
    UpsertEffect(entries, h, videoFilePath, p);
  }

  /** The hashes a "decode everything" request picks (main.go:789-797), in
      the order the index map yields them, with the gate as the program
      writes it (main.go:792): each hash at most once. */
  function SelectAsWritten(entries: map<string, IndexReadData>, hashOrder: seq<string>): (targets: seq<string>)
    ensures forall t :: t in targets <==> t in hashOrder && t in entries && GateAsWritten(entries[t])
    ensures Distinct(hashOrder) ==> Distinct(targets)
  {
    if hashOrder == [] then []
    else
      var rest := SelectAsWritten(entries, hashOrder[1..]);
      var h := hashOrder[0];
      assert Distinct(hashOrder) ==> Distinct(hashOrder[1..]) && h !in hashOrder[1..];
      if h in entries && GateAsWritten(entries[h]) then [h] + rest else rest
  }

  /** The same selection with the intended gate. */
  function SelectAll(entries: map<string, IndexReadData>, hashOrder: seq<string>): (targets: seq<string>)
    ensures forall t :: t in targets <==> t in hashOrder && t in entries && AllSegmentsFound(entries[t])
    ensures Distinct(hashOrder) ==> Distinct(targets)
  {
    if hashOrder == [] then []
    else
      var rest := SelectAll(entries, hashOrder[1..]);
      var h := hashOrder[0];
      assert Distinct(hashOrder) ==> Distinct(hashOrder[1..]) && h !in hashOrder[1..];
      if h in entries && AllSegmentsFound(entries[h]) then [h] + rest else rest
  }

  // ---------------------------------------------------------------------
  // Assembly (main.go:858-929)
  // ---------------------------------------------------------------------

  /** Bytes written, and whether the run was aborted by a `return`. */
  datatype Written = Written(output: seq<byte>, aborted: bool)

  /** Bytes written before a later stretch of the run. */
  function Prefixed(out: seq<byte>, w: Written): Written
  {
    Written(out + w.output, w.aborted)
  }

  /** What the assembly pass reads from one raw frame: the cascade with
      manual entry allowed, on the frame's image (main.go:902-906). */
  function DecodeFrame(rawData: seq<byte>, s: IndexReadData, env: Env): Option<seq<byte>>
    requires |rawData| == FrameSize(s.width, s.height)
  {
    QrDecode(env.dataSight(ToImage(rawData, s.width, s.height)), true, env.b64).data
  }

  /** The frame loop of one video over its undelivered bytes `rest`
      (main.go:883-920): a short read ends the loop, frame 0 is skipped,
      a frame the cascade cannot read aborts the run, a failed write ends
      the loop, every other frame's payload is appended. */
  function FrameLoop(rest: seq<byte>, i: nat, videoFilePath: string, s: IndexReadData, env: Env): Written
    decreases |rest|
  {
    var size := FrameSize(s.width, s.height);
    if |rest| < size then Written([], false)
    else if i == 0 then FrameLoop(rest[size..], 1, videoFilePath, s, env)
    else
      var data := DecodeFrame(rest[..size], s, env);
      if data.None? then Written([], true)
      else if !env.writeOk(videoFilePath, i) then Written([], false)
      else Prefixed(data.value, FrameLoop(rest[size..], i + 1, videoFilePath, s, env))
  }

  /** A frame loop over an exhausted stream writes nothing. */
  lemma FrameLoopDrained(rest: seq<byte>, i: nat, videoFilePath: string, s: IndexReadData, env: Env)
    requires |rest| < FrameSize(s.width, s.height)
    ensures FrameLoop(rest, i, videoFilePath, s, env) == Written([], false)
  {
  }

  /** A data frame that reads and writes successfully contributes its
      payload ahead of the rest of the loop. */
  lemma FrameLoopStep(rest: seq<byte>, i: nat, videoFilePath: string, s: IndexReadData, env: Env, d: seq<byte>)
    requires |rest| >= FrameSize(s.width, s.height) && i >= 1
    requires DecodeFrame(rest[..FrameSize(s.width, s.height)], s, env) == Some(d)
    requires env.writeOk(videoFilePath, i)
    ensures FrameLoop(rest, i, videoFilePath, s, env)
            == Prefixed(d, FrameLoop(rest[FrameSize(s.width, s.height)..], i + 1, videoFilePath, s, env))
  {
  }

  /** Writing `a` and then `b` before a stretch is writing `a + b` before it. */
  lemma PrefixedTwice(a: seq<byte>, b: seq<byte>, w: Written)
    ensures Prefixed(a, Prefixed(b, w)) == Prefixed(a + b, w)
  {
    assert a + (b + w.output) == (a + b) + w.output;
  }

  /** One video of a target's Path: a video ffmpeg cannot start, a frame
      that cannot be recognized, or an ffmpeg that exits with an error
      aborts the run. */
  function AssembleVideo(videoFilePath: string, s: IndexReadData, env: Env): Written
  {
    var v := FileAt(env, videoFilePath);
    if !v.starts then Written([], true)
    else
      var f := FrameLoop(v.stream, 0, videoFilePath, s, env);
      if !f.aborted && !v.exitsOk then Written(f.output, true) else f
  }

  /** The assembly of one target from its Path, in index order, up to the
      first video that aborts. */
  function AssembleFiles(paths: seq<string>, s: IndexReadData, env: Env): Written
  {
    if paths == [] then Written([], false)
    else
      var w := AssembleVideo(paths[0], s, env);
      if w.aborted then w else Prefixed(w.output, AssembleFiles(paths[1..], s, env))
  }

  /** The bytes each video of a Path writes, video by video. */
  function VideoOutputs(paths: seq<string>, s: IndexReadData, env: Env): (outs: seq<seq<byte>>)
    ensures |outs| == |paths|
    ensures forall j :: 0 <= j < |paths| ==> outs[j] == AssembleVideo(paths[j], s, env).output
  {
    seq(|paths|, j requires 0 <= j < |paths| => AssembleVideo(paths[j], s, env).output)
  }

  /** Assembly of a Path aborts exactly when one of its videos aborts, and
      otherwise writes the videos' bytes one after the other, in index order. */
  lemma {:induction false} AssembleFilesSpec(paths: seq<string>, s: IndexReadData, env: Env)
    ensures AssembleFiles(paths, s, env).aborted
            <==> exists j :: 0 <= j < |paths| && AssembleVideo(paths[j], s, env).aborted
    ensures !AssembleFiles(paths, s, env).aborted
            ==> AssembleFiles(paths, s, env).output == Flatten(VideoOutputs(paths, s, env))
  {
    if paths != [] {
      var tail := paths[1..];
      AssembleFilesSpec(tail, s, env);
      assert forall j :: 0 < j < |paths| ==> paths[j] == tail[j - 1];
      if !AssembleVideo(paths[0], s, env).aborted {
        if AssembleFiles(tail, s, env).aborted {
          var j :| 0 <= j < |tail| && AssembleVideo(tail[j], s, env).aborted;
          assert AssembleVideo(paths[j + 1], s, env).aborted;
        } else {
          assert VideoOutputs(paths, s, env)[1..] == VideoOutputs(tail, s, env);
        }
      }
    }
  }

  /** The header pass never asks the user to type a frame's text
      (main.go:716); the assembly pass asks before it gives up on a frame
      (main.go:906). */
  lemma ManualEntryOnlyWhenAssembling(img: Image, env: Env)
    ensures ManualEntry !in QrDecode(env.headerSight(img), false, env.b64).tried
    ensures var r := QrDecode(env.dataSight(img), true, env.b64);
            r.data.None? ==> ManualEntry in r.tried
  {
    QrDecodeConsults(env.headerSight(img), false, env.b64);
    QrDecodeConsults(env.dataSight(img), true, env.b64);
    assert Stages(true)[3] == ManualEntry;
  }

  /** One frame of the assembly pass as the program handles it: the
      buffer turned into an image, then the cascade (main.go:902-906). */
  method RecognizeFrame(rawData: seq<byte>, s: IndexReadData, env: Env) returns (data: Option<seq<byte>>)
    requires |rawData| == FrameSize(s.width, s.height)
    ensures data == DecodeFrame(rawData, s, env)
  {
    var img := RawDataToImage(rawData, s.width, s.height);
    data := QrDecode(env.dataSight(img), true, env.b64).data;
  }

  /** A frame loop whose stream has less than a frame left writes nothing. */
  lemma FrameLoopShort(stream: seq<byte>, pos: nat, i: nat, videoFilePath: string, s: IndexReadData, env: Env)
    requires pos <= |stream| && pos + FrameSize(s.width, s.height) > |stream|
    ensures FrameLoop(stream[pos..], i, videoFilePath, s, env) == Written([], false)
  {
  }

  /** The frame loop at a stream position where a whole frame `rawData`
      was read: frame 0 is skipped; any other frame ends the loop when it
      cannot be recognized or written, and otherwise leads with its payload. */
  lemma FrameLoopAt(stream: seq<byte>, pos: nat, next: nat, rawData: seq<byte>, i: nat,
                    videoFilePath: string, s: IndexReadData, env: Env)
    requires pos <= next <= |stream| && rawData == stream[pos..next]
    requires |rawData| == FrameSize(s.width, s.height)
    ensures i == 0 ==> FrameLoop(stream[pos..], i, videoFilePath, s, env) == FrameLoop(stream[next..], 1, videoFilePath, s, env)
    ensures i > 0 ==>
              FrameLoop(stream[pos..], i, videoFilePath, s, env)
              == var data := DecodeFrame(rawData, s, env);
                 if data.None? then Written([], true)
                 else if !env.writeOk(videoFilePath, i) then Written([], false)
                 else Prefixed(data.value, FrameLoop(stream[next..], i + 1, videoFilePath, s, env))
  {
    var rest := stream[pos..];
    assert rest[..|rawData|] == rawData;
    assert rest[|rawData|..] == stream[next..];
  }

  /** `FrameLoopAt` after the bytes `written` so far: the frame loop from
      the frame at `pos` on, with those bytes in front. */
  lemma CopyStep(stream: seq<byte>, pos: nat, next: nat, rawData: seq<byte>, i: nat,
                 videoFilePath: string, s: IndexReadData, env: Env, written: seq<byte>)
    requires pos <= next <= |stream| && rawData == stream[pos..next]
    requires |rawData| == FrameSize(s.width, s.height)
    ensures var now := Prefixed(written, FrameLoop(stream[pos..], i, videoFilePath, s, env));
            var data := DecodeFrame(rawData, s, env);
            if i == 0 then now == Prefixed(written, FrameLoop(stream[next..], 1, videoFilePath, s, env))
            else if data.None? then now == Written(written, true)
            else if !env.writeOk(videoFilePath, i) then now == Written(written, false)
            else now == Prefixed(written + data.value, FrameLoop(stream[next..], i + 1, videoFilePath, s, env))
  {
    FrameLoopAt(stream, pos, next, rawData, i, videoFilePath, s, env);
    assert written + [] == written;
    var data := DecodeFrame(rawData, s, env);
    if i > 0 && data.Some? {
      PrefixedTwice(written, data.value, FrameLoop(stream[next..], i + 1, videoFilePath, s, env));
    }
  }

  /** One frame read from the ffmpeg pipe into a fresh buffer of `size`
      bytes (main.go:884-894): the next `size` bytes, or the end of the
      stream when fewer are left. */
  method ReadFrame(stream: seq<byte>, pos: nat, size: nat) returns (rawData: seq<byte>, next: nat, exitFlag: bool)
    requires pos <= |stream|
    ensures exitFlag <==> pos + size > |stream|
    ensures !exitFlag ==> next == pos + size && rawData == stream[pos..next]
  {
    var buffer := new byte[size];
    next, exitFlag := FillBuffer(buffer, stream, pos);
    rawData := buffer[..];
  }

  /** The frame loop of one video as the program runs it (main.go:883-920):
      each frame is read into a fresh buffer, frame 0 is skipped and every
      other frame is recognized with manual entry allowed and its payload
      written to the output file. */
  method CopyFrames(v: VideoFile, videoFilePath: string, s: IndexReadData, env: Env)
    returns (written: seq<byte>, aborted: bool)
    ensures Written(written, aborted) == FrameLoop(v.stream, 0, videoFilePath, s, env)
  {
    written := [];
    aborted := false;
    var i := 0;
    var pos := 0;
    assert v.stream[0..] == v.stream;
    while true
      invariant pos <= |v.stream|
      invariant FrameLoop(v.stream, 0, videoFilePath, s, env)
                == Prefixed(written, FrameLoop(v.stream[pos..], i, videoFilePath, s, env))
      decreases |v.stream| - pos
    {
      var rawData, next, exitFlag := ReadFrame(v.stream, pos, FrameSize(s.width, s.height));
      if exitFlag {
        FrameLoopShort(v.stream, pos, i, videoFilePath, s, env);
        assert written + [] == written;
        break;
      }
      CopyStep(v.stream, pos, next, rawData, i, videoFilePath, s, env, written);
      pos := next;
      if i == 0 {
        i := i + 1;
        continue;
      }
      var data := RecognizeFrame(rawData, s, env);
      if data.None? {
        aborted := true;
        return;
      }
      if !env.writeOk(videoFilePath, i) {
        break;
      }
      written := written + data.value;
      i := i + 1;
    }
  }

  /** One video of the Path as the program handles it (main.go:860-928):
      start ffmpeg, copy the frames, wait for ffmpeg to exit. */
  method AssembleOne(videoFilePath: string, s: IndexReadData, env: Env) returns (written: seq<byte>, aborted: bool)
    ensures Written(written, aborted) == AssembleVideo(videoFilePath, s, env)
  {
    var v := FileAt(env, videoFilePath);
    if !v.starts {
      return [], true;
    }
    written, aborted := CopyFrames(v, videoFilePath, s, env);
    if !aborted && !v.exitsOk {
      aborted := true;
    }
  }

  /** Assembly of one target as the program runs it (main.go:858-929): the
      videos of its Path in index order. */
  method AssembleTarget(s: IndexReadData, env: Env) returns (output: seq<byte>, aborted: bool)
    ensures Written(output, aborted) == AssembleFiles(s.path, s, env)
  {
    output := [];
    aborted := false;
    for index := 0 to |s.path|
      invariant AssembleFiles(s.path, s, env) == Prefixed(output, AssembleFiles(s.path[index..], s, env))
    {
      assert s.path[index..][1..] == s.path[index + 1..];
      var written, failed := AssembleOne(s.path[index], s, env);
      if failed {
        output := output + written;
        aborted := true;
        return;
      }
      PrefixedTwice(output, written, AssembleFiles(s.path[index + 1..], s, env));
      output := output + written;
    }
  }

  // ---------------------------------------------------------------------
  // Restoring the targets (main.go:818-962)
  // ---------------------------------------------------------------------

  /** A restored file: its hash, the name of the output file, its bytes and
      whether their SHA-256 matches the hash (reported only). */
  datatype Restored = Restored(hash: string, outputName: string, data: seq<byte>, hashMatches: bool)

  /** The outcome of restoring a list of targets: all of them, or the ones
      before an abort together with the bytes the aborted one had written. */
  datatype Run = Finished(done: seq<Restored>) | Stopped(done: seq<Restored>, hash: string, partial: seq<byte>)

  /** Output file name of a target (main.go:821). */
  function OutputName(e: IndexReadData): string
  {
    "output_" + e.name
  }

  /** The loop over the target hashes: an abort in one target ends the
      whole run (the program `return`s from `Decode`). */
  function RestoreAll(entries: map<string, IndexReadData>, targets: seq<string>, env: Env): Run
    requires forall t :: t in targets ==> t in entries
  {
    if targets == [] then Finished([])
    else
      var e := entries[targets[0]];
      var w := AssembleFiles(e.path, e, env);
      if w.aborted then Stopped([], targets[0], w.output)
      else
        var r := Restored(targets[0], OutputName(e), w.output, env.sha256(w.output) == targets[0]);
        After([r], RestoreAll(entries, targets[1..], env))
  }

  /** Whether the assembly of target `t` is aborted. */
  predicate Aborts(entries: map<string, IndexReadData>, t: string, env: Env)
    requires t in entries
  {
    AssembleFiles(entries[t].path, entries[t], env).aborted
  }

  /** What the restore loop records for target `t` once it is assembled. */
  function RestoredTarget(entries: map<string, IndexReadData>, t: string, env: Env): Restored
    requires t in entries
  {
    var w := AssembleFiles(entries[t].path, entries[t], env);
    Restored(t, OutputName(entries[t]), w.output, env.sha256(w.output) == t)
  }

  /** One step of the restore loop, in terms of the first target. */
  lemma RestoreAllCons(entries: map<string, IndexReadData>, targets: seq<string>, env: Env)
    requires forall t :: t in targets ==> t in entries
    requires targets != []
    ensures var t := targets[0];
            RestoreAll(entries, targets, env)
            == if Aborts(entries, t, env)
               then Stopped([], t, AssembleFiles(entries[t].path, entries[t], env).output)
               else After([RestoredTarget(entries, t, env)], RestoreAll(entries, targets[1..], env))
  {
  }

  /** The restore loop over any list of targets finishes exactly when no
      target's assembly aborts, and then records every target in order. */
  lemma {:induction false} RestoreAllFinishes(entries: map<string, IndexReadData>, targets: seq<string>, env: Env)
    requires forall t :: t in targets ==> t in entries
    ensures RestoreAll(entries, targets, env).Finished?
            <==> forall k :: 0 <= k < |targets| ==> !Aborts(entries, targets[k], env)
    ensures var r := RestoreAll(entries, targets, env);
            r.Finished? ==>
              |r.done| == |targets| &&
              forall k :: 0 <= k < |targets| ==> r.done[k] == RestoredTarget(entries, targets[k], env)
  {
    if targets != [] {
      var tail := targets[1..];
      RestoreAllCons(entries, targets, env);
      if !Aborts(entries, targets[0], env) {
        RestoreAllFinishes(entries, tail, env);
        assert forall k :: 0 < k < |targets| ==> targets[k] == tail[k - 1];
        var rest := RestoreAll(entries, tail, env);
        if !rest.Finished? {
          var k :| 0 <= k < |tail| && Aborts(entries, tail[k], env);
          assert Aborts(entries, targets[k + 1], env);
        }
      }
    }
  }

  /** A restore run that stops does so at the first target whose assembly
      aborts, after recording the targets before it, and keeps the bytes
      that target had written. */
  lemma {:induction false} RestoreAllStops(entries: map<string, IndexReadData>, targets: seq<string>, env: Env)
    requires forall t :: t in targets ==> t in entries
    ensures var r := RestoreAll(entries, targets, env);
            r.Stopped? ==>
              var k := |r.done|;
              k < |targets| && r.hash == targets[k] && Aborts(entries, targets[k], env) &&
              r.partial == AssembleFiles(entries[targets[k]].path, entries[targets[k]], env).output &&
              forall j :: 0 <= j < k ==>
                !Aborts(entries, targets[j], env) && r.done[j] == RestoredTarget(entries, targets[j], env)
  {
    if targets != [] {
      var tail := targets[1..];
      RestoreAllCons(entries, targets, env);
      if !Aborts(entries, targets[0], env) {
        RestoreAllStops(entries, tail, env);
        assert forall k :: 0 < k < |targets| ==> targets[k] == tail[k - 1];
      }
    }
  }

  /** The target loop as the program runs it. */
  method Restore(entries: map<string, IndexReadData>, targets: seq<string>, env: Env) returns (run: Run)
    requires forall t :: t in targets ==> t in entries
    ensures run == RestoreAll(entries, targets, env)
  {
    var done: seq<Restored> := [];
    for targetHashIndex := 0 to |targets|
      invariant RestoreAll(entries, targets, env) == After(done, RestoreAll(entries, targets[targetHashIndex..], env))
    {
      var targetHash := targets[targetHashIndex];
      assert targets[targetHashIndex..][1..] == targets[targetHashIndex + 1..];
      var s := entries[targetHash];
      var output, aborted := AssembleTarget(s, env);
      if aborted {
        run := Stopped(done, targetHash, output);
        return;
      }
      var outputFileHash := env.sha256(output);
      var restored := Restored(targetHash, OutputName(s), output, outputFileHash == targetHash);
      AfterTwice(done, [restored], RestoreAll(entries, targets[targetHashIndex + 1..], env));
      done := done + [restored];
    }
    run := Finished(done);
  }

  /** Targets restored earlier in front of a later stretch of the run. */
  function After(done: seq<Restored>, r: Run): Run
  {
    match r
    case Finished(d) => Finished(done + d)
    case Stopped(d, h, partial) => Stopped(done + d, h, partial)
  }

  lemma AfterTwice(a: seq<Restored>, b: seq<Restored>, r: Run)
    ensures After(a, After(b, r)) == After(a + b, r)
  {
    assert forall d: seq<Restored> :: a + (b + d) == (a + b) + d;
  }

  /** An assembly that reaches an unset slot of Path runs ffmpeg on the
      path "": nothing is known about it, so the run stops after the
      earlier videos' bytes were written, without a hash check. */
  lemma MissingSegmentLeavesTruncatedOutput(entries: map<string, IndexReadData>, hash: string, env: Env)
    requires hash in entries && |entries[hash].path| == 2 && entries[hash].path[1] == ""
    requires "" !in env.files
    requires !AssembleVideo(entries[hash].path[0], entries[hash], env).aborted
    ensures RestoreAll(entries, [hash], env)
            == Stopped([], hash, AssembleVideo(entries[hash].path[0], entries[hash], env).output)
  {
    var e := entries[hash];
    var out0 := AssembleVideo(e.path[0], e, env).output;
    assert e.path[1..] == [""] && [""][1..] == [];
    assert FrameLoop([], 0, "", e, env) == Written([], false);
    assert AssembleFiles(e.path[1..], e, env) == Written([], true);
    assert out0 + [] == out0;
  }

  /** The outcome of a whole decoder session. */
  datatype Session = Crashed | NothingFound | Ran(run: Run)

  /** `xs` lists every key exactly once, as a range over a Go map does. */
  ghost predicate Enumerates(xs: seq<string>, keys: set<string>)
  {
    (forall x :: x in xs <==> x in keys) && Distinct(xs)
  }

  /** A decoder session run non-interactively ("decode everything"): the
      header pass over `fileDict`, the stop when nothing was found
      (main.go:752-755), then every target that passes the gate as written,
      in the order `hashOrder` in which the index map yields its hashes
      (main.go:789-797). */
  function DecodeSession(fileDict: seq<string>, hashOrder: seq<string>, env: Env): Session
    requires Enumerates(hashOrder, Scan(map[], fileDict, env).0.Keys)
  {
    var (entries, end) := Scan(map[], fileDict, env);
    if end == Panicked then Crashed
    else if |entries| == 0 then NothingFound
    else Ran(RestoreAll(entries, SelectAsWritten(entries, hashOrder), env))
  }

  /** A session whose header pass found the videos of one file only, and
      that file passes the gate as written, restores exactly that file:
      under its output name, with the bytes its assembly writes and the
      hash check on them, provided the assembly is not aborted. */
  lemma SessionOfOneFile(fileDict: seq<string>, hash: string, env: Env)
    requires Scan(map[], fileDict, env).1 == Exhausted && Scan(map[], fileDict, env).0.Keys == {hash}
    requires var e := Scan(map[], fileDict, env).0[hash];
             GateAsWritten(e) && !AssembleFiles(e.path, e, env).aborted
    ensures var e := Scan(map[], fileDict, env).0[hash];
            var w := AssembleFiles(e.path, e, env);
            DecodeSession(fileDict, [hash], env)
            == Ran(Finished([Restored(hash, OutputName(e), w.output, env.sha256(w.output) == hash)]))
  {
    var entries := Scan(map[], fileDict, env).0;
    var e := entries[hash];
    var w := AssembleFiles(e.path, e, env);
    assert |entries| == |entries.Keys| == 1;
    assert [hash][1..] == [];
    assert SelectAsWritten(entries, [hash]) == [hash];
    assert RestoreAll(entries, [hash], env)
           == After([Restored(hash, OutputName(e), w.output, env.sha256(w.output) == hash)], Finished([]));
  }
}
