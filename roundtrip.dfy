/** The round trip: when the segment videos of a file are on disk, the
    recognizers read every frame faithfully and the videos are discovered
    in any order, the decoder restores exactly the file's bytes. */
module RoundTrip {
  import opened Base
  import opened Planner
  import opened Naming
  import opened Framing
  import opened Recognition
  import opened Pixels
  import opened Reconstruction

  /** The encoder's output as the decoder finds it: video s is stored at
      `names[s]`, ffprobe reports the common frame size for it, ffmpeg
      starts on it, delivers one `W * H * 3`-byte frame per encoded frame
      (`raws[s]`) and exits cleanly. */
  ghost predicate Stored(env: Env, vs: seq<EncodedVideo>, names: seq<string>, raws: seq<seq<seq<byte>>>,
                         W: Dimension, H: Dimension)
  {
    |names| == |vs| && |raws| == |vs| &&
    (forall s :: 0 <= s < |vs| ==> |raws[s]| == |vs[s].frames|) &&
    (forall s, k :: 0 <= s < |vs| && 0 <= k < |raws[s]| ==> |raws[s][k]| == FrameSize(W, H)) &&
    (forall s :: 0 <= s < |vs| ==>
       names[s] in env.files &&
       var v := env.files[names[s]];
       v.probe.Some? && v.probe.value.width == W && v.probe.value.height == H &&
       v.starts && v.exitsOk && v.stream == Flatten(raws[s]))
  }

  /** The header pass reads a header frame's image as that header. */
  ghost predicate ReadsHeader(env: Env, img: Image, f: Frame)
  {
    var json := QrDecode(env.headerSight(img), false, env.b64).data;
    f.Header? && json.Some? && env.unmarshal(json.value) == Some(f.info)
  }

  /** Recognition is faithful: every header image reads as its header,
      every data image yields its payload, and every write succeeds. */
  ghost predicate Faithful(env: Env, vs: seq<EncodedVideo>, raws: seq<seq<seq<byte>>>, W: Dimension, H: Dimension)
  {
    (forall s :: 0 <= s < |vs| && s < |raws| && 0 < |raws[s]| && 0 < |vs[s].frames| &&
                 |raws[s][0]| == FrameSize(W, H) ==>
       ReadsHeader(env, ToImage(raws[s][0], W, H), vs[s].frames[0])) &&
    (forall s, k :: 0 <= s < |vs| && s < |raws| && 1 <= k < |raws[s]| && k < |vs[s].frames| &&
                    |raws[s][k]| == FrameSize(W, H) ==>
       QrDecode(env.dataSight(ToImage(raws[s][k], W, H)), true, env.b64).data == Some(Payload(vs[s].frames[k]))) &&
    (forall p: string, i: nat :: env.writeOk(p, i))
  }

  /** The entries of a sequence, as a set. */
  function Elements<T>(xs: seq<T>): set<T>
  {
    set x | x in xs
  }

  /** The Path the upserts build once the videos in `seen` were discovered. */
  function Slots(names: seq<string>, seen: set<string>): (p: seq<string>)
    ensures |p| == |names|
    ensures forall s :: 0 <= s < |names| ==> p[s] == if names[s] in seen then names[s] else ""
  {
    seq(|names|, s requires 0 <= s < |names| => if names[s] in seen then names[s] else "")
  }

  /** The index after discovering the videos in `seen`, all of one file. */
  ghost predicate Partial(entries: map<string, IndexReadData>, seen: set<string>, hash: string, name: string,
                          n: nat, resize: int, names: seq<string>, W: Dimension, H: Dimension)
  {
    if seen == {} then entries == map[]
    else
      entries.Keys == {hash} &&
      var e := entries[hash];
      e.width == W && e.height == H && e.name == name && e.len == n && e.resize == resize &&
      e.path == Slots(names, seen)
  }

  lemma FlattenFrom<T>(ss: seq<seq<T>>, k: nat)
    requires k < |ss|
    ensures Flatten(ss[k..]) == ss[k] + Flatten(ss[k + 1..])
  {
    assert ss[k..][1..] == ss[k + 1..];
  }

  /** The header pass finds the header a stored video carries in its first frame. */
  lemma StoredHeader(env: Env, vs: seq<EncodedVideo>, names: seq<string>, raws: seq<seq<seq<byte>>>,
                     W: Dimension, H: Dimension, s: nat)
    requires Stored(env, vs, names, raws, W, H) && Faithful(env, vs, raws, W, H)
    requires s < |vs| && 0 < |vs[s].frames|
    ensures vs[s].frames[0].Header?
    ensures HeaderStep(names[s], env) == Found(vs[s].frames[0].info, env.files[names[s]].probe.value)
  {
    var v := env.files[names[s]];
    var size := FrameSize(W, H);
    FlattenFrom(raws[s], 0);
    assert raws[s][0..] == raws[s];
    assert |raws[s][0]| == size;
    assert v.stream[..size] == raws[s][0];
    assert ReadsHeader(env, ToImage(raws[s][0], W, H), vs[s].frames[0]);
    assert FileAt(env, names[s]) == v;
  }

  /** The header pass finds video s's header, which names its own index. */
  lemma HeaderFound(fileData: seq<byte>, hash: string, filePath: FilePath, dataSliceLen: nat, qrcodeSize: int,
                    outputFPS: nat, segmentSeconds: nat, env: Env, names: seq<string>,
                    raws: seq<seq<seq<byte>>>, W: Dimension, H: Dimension, s: nat)
    requires ValidSettings(dataSliceLen, outputFPS, segmentSeconds)
    requires var vs := Encoding(fileData, hash, filePath, dataSliceLen, qrcodeSize, outputFPS, segmentSeconds);
             Stored(env, vs, names, raws, W, H) && Faithful(env, vs, raws, W, H) && s < |vs|
    ensures var n := MakePlan(|fileData|, dataSliceLen, outputFPS, segmentSeconds).segmentsNum;
            HeaderStep(names[s], env) == Found(IndexData(hash, filePath.base, s, n, qrcodeSize), env.files[names[s]].probe.value)
  {
    var vs := Encoding(fileData, hash, filePath, dataSliceLen, qrcodeSize, outputFPS, segmentSeconds);
    EncodingShape(fileData, hash, filePath, dataSliceLen, qrcodeSize, outputFPS, segmentSeconds, s);
    StoredHeader(env, vs, names, raws, W, H, s);
  }

  /** Every video of `names` is on disk with the common frame size, and the
      header pass reads its header as the one the encoder wrote for it. */
  ghost predicate Announced(env: Env, names: seq<string>, hash: string, name: string, n: nat, resize: int,
                            W: Dimension, H: Dimension)
  {
    |names| == n &&
    forall s :: 0 <= s < n ==>
      names[s] in env.files && env.files[names[s]].probe.Some? &&
      env.files[names[s]].probe.value.width == W && env.files[names[s]].probe.value.height == H &&
      HeaderStep(names[s], env) == Found(IndexData(hash, name, s, n, resize), env.files[names[s]].probe.value)
  }

  /** The encoder's videos, stored and read faithfully, announce themselves. */
  lemma AllAnnounced(fileData: seq<byte>, hash: string, filePath: FilePath, dataSliceLen: nat, qrcodeSize: int,
                     outputFPS: nat, segmentSeconds: nat, env: Env, names: seq<string>,
                     raws: seq<seq<seq<byte>>>, W: Dimension, H: Dimension)
    requires ValidSettings(dataSliceLen, outputFPS, segmentSeconds)
    requires var vs := Encoding(fileData, hash, filePath, dataSliceLen, qrcodeSize, outputFPS, segmentSeconds);
             Stored(env, vs, names, raws, W, H) && Faithful(env, vs, raws, W, H)
    ensures Announced(env, names, hash, filePath.base,
                      MakePlan(|fileData|, dataSliceLen, outputFPS, segmentSeconds).segmentsNum, qrcodeSize, W, H)
  {
    forall s | 0 <= s < |names|
      ensures HeaderStep(names[s], env)
              == Found(IndexData(hash, filePath.base, s, MakePlan(|fileData|, dataSliceLen, outputFPS, segmentSeconds).segmentsNum, qrcodeSize),
                       env.files[names[s]].probe.value)
    {
      HeaderFound(fileData, hash, filePath, dataSliceLen, qrcodeSize, outputFPS, segmentSeconds, env, names, raws, W, H, s);
    }
  }

  /** One discovery step keeps `Partial`, whichever video comes next. */
  lemma DiscoverOne(env: Env, names: seq<string>, hash: string, name: string, n: nat, resize: int,
                    W: Dimension, H: Dimension, entries: map<string, IndexReadData>, seen: set<string>, s: nat)
    requires Announced(env, names, hash, name, n, resize, W, H) && Distinct(names) && s < n
    requires Partial(entries, seen, hash, name, n, resize, names, W, H)
    ensures var h := IndexData(hash, name, s, n, resize);
            HeaderStep(names[s], env) == Found(h, env.files[names[s]].probe.value) &&
            Fits(entries, h) &&
            Partial(Upserted(entries, h, names[s], env.files[names[s]].probe.value), seen + {names[s]},
                    hash, name, n, resize, names, W, H)
  {
    var h := IndexData(hash, name, s, n, resize);
    var p := env.files[names[s]].probe.value;
    var e := Upserted(entries, h, names[s], p)[hash];
    var seen' := seen + {names[s]};
    if seen == {} {
      assert e.path == seq(n, _ => "")[s := names[s]];
      forall j | 0 <= j < n ensures e.path[j] == Slots(names, seen')[j] {
        if j != s { assert names[j] != names[s]; }
      }
    } else {
      assert e.path == Slots(names, seen)[s := names[s]];
      forall j | 0 <= j < n ensures e.path[j] == Slots(names, seen')[j] {
        if j != s { assert names[j] != names[s]; }
      }
    }
    assert e.path == Slots(names, seen');
  }

  /** The whole header pass over any arrangement `order` of the videos:
      it visits them all and leaves one entry whose Path lists every video
      at its own index. */
  lemma {:induction false} DiscoverAll(env: Env, names: seq<string>, hash: string, name: string, n: nat,
                                       resize: int, W: Dimension, H: Dimension,
                                       order: seq<string>, k: nat, entries: map<string, IndexReadData>)
    requires Announced(env, names, hash, name, n, resize, W, H) && Distinct(names)
    requires forall p :: p in order ==> p in names
    requires k <= |order|
    requires Partial(entries, Elements(order[..k]), hash, name, n, resize, names, W, H)
    ensures var r := Scan(entries, order[k..], env);
            r.1 == Exhausted && Partial(r.0, Elements(order), hash, name, n, resize, names, W, H)
    decreases |order| - k
  {
    if k == |order| {
      assert order[..k] == order;
    } else {
      assert order[k] in order;
      assert order[k] in names;
      var s :| 0 <= s < |names| && names[s] == order[k];
      var h := IndexData(hash, name, s, n, resize);
      var p := env.files[names[s]].probe.value;
      DiscoverOne(env, names, hash, name, n, resize, W, H, entries, Elements(order[..k]), s);
      assert order[..k + 1] == order[..k] + [order[k]];
      assert Elements(order[..k + 1]) == Elements(order[..k]) + {names[s]};
      assert order[k..][1..] == order[k + 1..];
      DiscoverAll(env, names, hash, name, n, resize, W, H, order, k + 1, Upserted(entries, h, names[s], p));
    }
  }

  /** The raw frames `rs` of one video read back as the frames `fs`: they
      have the entry's frame size, every data frame decodes to its payload
      and every write to the output succeeds. */
  ghost predicate Readable(fs: seq<Frame>, rs: seq<seq<byte>>, path: string, e: IndexReadData, env: Env)
  {
    |rs| == |fs| &&
    (forall k :: 0 <= k < |rs| ==> |rs[k]| == FrameSize(e.width, e.height)) &&
    (forall k :: 1 <= k < |rs| && |rs[k]| == FrameSize(e.width, e.height) ==>
       DecodeFrame(rs[k], e, env) == Some(Payload(fs[k]))) &&
    (forall i: nat :: env.writeOk(path, i))
  }

  /** The frame loop over frames k.. yields the payloads of those frames. */
  lemma {:induction false} CopyAll(fs: seq<Frame>, rs: seq<seq<byte>>, path: string, e: IndexReadData, env: Env, k: nat)
    requires Readable(fs, rs, path, e, env)
    requires 1 <= k <= |rs|
    ensures FrameLoop(Flatten(rs[k..]), k, path, e, env) == Written(Flatten(Payloads(fs[k..])), false)
    decreases |rs| - k
  {
    var size := FrameSize(e.width, e.height);
    var rest := Flatten(rs[k..]);
    if k == |rs| {
      assert rs[k..] == [];
      assert Payloads(fs[k..]) == [];
      FrameLoopDrained(rest, k, path, e, env);
    } else {
      FlattenFrom(rs, k);
      assert rest[..size] == rs[k];
      assert rest[size..] == Flatten(rs[k + 1..]);
      var d := Payload(fs[k]);
      FrameLoopStep(rest, k, path, e, env, d);
      CopyAll(fs, rs, path, e, env, k + 1);
      var ps := Payloads(fs[k..]);
      assert ps[0] == d && ps[1..] == Payloads(fs[k + 1..]);
      assert Flatten(ps) == d + Flatten(Payloads(fs[k + 1..]));
    }
  }

  /** A stored, faithfully read video is readable for an entry of its frame size. */
  lemma StoredReadable(vs: seq<EncodedVideo>, env: Env, names: seq<string>, raws: seq<seq<seq<byte>>>,
                       W: Dimension, H: Dimension, e: IndexReadData, s: nat)
    requires Stored(env, vs, names, raws, W, H) && Faithful(env, vs, raws, W, H)
    requires s < |vs| && e.width == W && e.height == H
    ensures Readable(vs[s].frames, raws[s], names[s], e, env)
  {
  }

  /** Each video contributes exactly the bytes its data frames carry. */
  lemma CopyVideo(vs: seq<EncodedVideo>, env: Env, names: seq<string>, raws: seq<seq<seq<byte>>>,
                  W: Dimension, H: Dimension, e: IndexReadData, s: nat)
    requires Stored(env, vs, names, raws, W, H) && Faithful(env, vs, raws, W, H)
    requires s < |vs| && |raws[s]| >= 1
    requires e.width == W && e.height == H
    ensures FrameLoop(env.files[names[s]].stream, 0, names[s], e, env) == Written(VideoPayload(vs[s]), false)
  {
    var size := FrameSize(W, H);
    StoredReadable(vs, env, names, raws, W, H, e, s);
    FlattenFrom(raws[s], 0);
    assert raws[s][0..] == raws[s];
    var stream := Flatten(raws[s]);
    assert stream[size..] == Flatten(raws[s][1..]);
    CopyAll(vs[s].frames, raws[s], names[s], e, env, 1);
  }

  /** Assembling videos j.. of Path yields the bytes they carry. */
  lemma {:induction false} AssembleAll(vs: seq<EncodedVideo>, env: Env, names: seq<string>,
                                       raws: seq<seq<seq<byte>>>, W: Dimension, H: Dimension,
                                       e: IndexReadData, j: nat)
    requires Stored(env, vs, names, raws, W, H) && Faithful(env, vs, raws, W, H)
    requires forall s :: 0 <= s < |vs| ==> |raws[s]| >= 1
    requires e.width == W && e.height == H
    requires j <= |vs|
    ensures AssembleFiles(names[j..], e, env) == Written(Flatten(Carried(vs)[j..]), false)
    decreases |vs| - j
  {
    if j == |vs| {
      assert names[j..] == [];
      assert Carried(vs)[j..] == [];
    } else {
      CopyVideo(vs, env, names, raws, W, H, e, j);
      AssembleAll(vs, env, names, raws, W, H, e, j + 1);
      assert names[j..][1..] == names[j + 1..];
      FlattenFrom(Carried(vs), j);
    }
  }

  /** The header pass over any arrangement `order` of announced videos ends
      with one entry whose Path lists every video at its own index. */
  lemma ScanAnnounced(env: Env, names: seq<string>, hash: string, name: string, n: nat, resize: int,
                      W: Dimension, H: Dimension, order: seq<string>)
    requires Announced(env, names, hash, name, n, resize, W, H) && Distinct(names) && n > 0
    requires forall p :: p in order <==> p in names
    ensures var r := Scan(map[], order, env);
            r.1 == Exhausted && r.0.Keys == {hash} &&
            var e := r.0[hash];
            e.path == names && e.width == W && e.height == H && e.name == name && e.len == n
  {
    assert order[..0] == [];
    assert Elements(order[..0]) == {};
    DiscoverAll(env, names, hash, name, n, resize, W, H, order, 0, map[]);
    assert order[0..] == order;
    var r := Scan(map[], order, env);
    var seen := Elements(order);
    assert names[0] in seen;
    var e := r.0[hash];
    forall s | 0 <= s < n ensures e.path[s] == names[s] {
      assert names[s] in seen;
    }
  }

  /** The header pass over any arrangement of the encoder's videos ends with
      one entry, for the file's hash, whose Path lists every video at its own
      index and whose metadata are the encoder's. */
  lemma Discovered(fileData: seq<byte>, hash: string, filePath: FilePath, dataSliceLen: nat, qrcodeSize: int,
                   outputFPS: nat, segmentSeconds: nat, env: Env, names: seq<string>,
                   raws: seq<seq<seq<byte>>>, W: Dimension, H: Dimension, order: seq<string>)
    requires ValidSettings(dataSliceLen, outputFPS, segmentSeconds)
    requires |fileData| > 0
    requires var vs := Encoding(fileData, hash, filePath, dataSliceLen, qrcodeSize, outputFPS, segmentSeconds);
             Stored(env, vs, names, raws, W, H) && Faithful(env, vs, raws, W, H)
    requires Distinct(names)
    requires forall p :: p in order <==> p in names
    ensures var r := Scan(map[], order, env);
            r.1 == Exhausted && r.0.Keys == {hash} &&
            var e := r.0[hash];
            e.path == names && e.width == W && e.height == H && e.name == filePath.base &&
            e.len == MakePlan(|fileData|, dataSliceLen, outputFPS, segmentSeconds).segmentsNum
  {
    var n := MakePlan(|fileData|, dataSliceLen, outputFPS, segmentSeconds).segmentsNum;
    assert n > 0;
    AllAnnounced(fileData, hash, filePath, dataSliceLen, qrcodeSize, outputFPS, segmentSeconds, env, names, raws, W, H);
    ScanAnnounced(env, names, hash, filePath.base, n, qrcodeSize, W, H, order);
  }

  /** The videos of Path, assembled in index order, restore the file. */
  lemma Assembled(fileData: seq<byte>, hash: string, filePath: FilePath, dataSliceLen: nat, qrcodeSize: int,
                  outputFPS: nat, segmentSeconds: nat, env: Env, names: seq<string>,
                  raws: seq<seq<seq<byte>>>, W: Dimension, H: Dimension, e: IndexReadData)
    requires ValidSettings(dataSliceLen, outputFPS, segmentSeconds)
    requires var vs := Encoding(fileData, hash, filePath, dataSliceLen, qrcodeSize, outputFPS, segmentSeconds);
             Stored(env, vs, names, raws, W, H) && Faithful(env, vs, raws, W, H)
    requires e.width == W && e.height == H
    ensures AssembleFiles(names, e, env) == Written(fileData, false)
  {
    var vs := Encoding(fileData, hash, filePath, dataSliceLen, qrcodeSize, outputFPS, segmentSeconds);
    forall s | 0 <= s < |vs| ensures |raws[s]| >= 1 {
      EncodingShape(fileData, hash, filePath, dataSliceLen, qrcodeSize, outputFPS, segmentSeconds, s);
    }
    AssembleAll(vs, env, names, raws, W, H, e, 0);
    assert names[0..] == names;
    assert Carried(vs)[0..] == Carried(vs);
    EncodingCarriesFile(fileData, hash, filePath, dataSliceLen, qrcodeSize, outputFPS, segmentSeconds);
  }

  /** The round trip. Take a non-empty file, encode it, store video s at
      `names[s]` (distinct, non-empty names) and let the recognizers read
      every frame faithfully. Then a decoder session that discovers the
      videos in any order ends normally: the scan visits every video and
      builds one entry whose Path lists every video at its own index, the
      completeness gate (as written and as intended) passes, and the one
      restored file is named after the input, holds exactly the input's
      bytes and matches its hash. */
  lemma RoundTrip(fileData: seq<byte>, filePath: FilePath, dataSliceLen: nat, qrcodeSize: int,
                  outputFPS: nat, segmentSeconds: nat, env: Env, names: seq<string>,
                  raws: seq<seq<seq<byte>>>, W: Dimension, H: Dimension, order: seq<string>)
    requires ValidSettings(dataSliceLen, outputFPS, segmentSeconds)
    requires |fileData| > 0
    requires var vs := Encoding(fileData, env.sha256(fileData), filePath, dataSliceLen, qrcodeSize, outputFPS, segmentSeconds);
             Stored(env, vs, names, raws, W, H) && Faithful(env, vs, raws, W, H)
    requires Distinct(names) && "" !in names
    requires forall p :: p in order <==> p in names
    ensures var hash := env.sha256(fileData);
            var r := Scan(map[], order, env);
            r.1 == Exhausted && r.0.Keys == {hash} &&
            r.0[hash].path == names && GateAsWritten(r.0[hash]) && AllSegmentsFound(r.0[hash]) &&
            AssembleFiles(r.0[hash].path, r.0[hash], env) == Written(fileData, false)
    ensures DecodeSession(order, [env.sha256(fileData)], env)
            == Ran(Finished([Restored(env.sha256(fileData), "output_" + filePath.base, fileData, true)]))
  {
    var hash := env.sha256(fileData);
    Discovered(fileData, hash, filePath, dataSliceLen, qrcodeSize, outputFPS, segmentSeconds, env, names, raws, W, H, order);
    var r := Scan(map[], order, env);
    var e := r.0[hash];
    Assembled(fileData, hash, filePath, dataSliceLen, qrcodeSize, outputFPS, segmentSeconds, env, names, raws, W, H, e);
    assert AllSegmentsFound(e);
    SessionOfOneFile(order, hash, env);
  }
}
