# Lumina file ↔ barcode-video codec, modelled in Dafny

Lumina stores an arbitrary file as one or more videos of QR-code frames. On
the encode side, `Encode` works in four steps:

- it computes how many data frames the file needs and how many segment
  videos of at most `segmentSeconds * outputFPS` data frames hold them;
- it slices the file into one byte range per segment;
- it names each segment video;
- it writes each video as a header frame (`IndexData`: hash, name, index,
  segment count, barcode size) followed by the segment's bytes cut into
  `dataSliceLen`-byte chunks.

On the decode side, `Decode` works in three steps:

- it reads the first frame of every candidate video and records each
  header in an index keyed by the file hash;
- it selects the hashes whose entry passes the completeness gate;
- for each target it reads the data frames of the segment videos in index
  order, recognizes every frame with a cascade of barcode readers, and
  appends the payloads to the output file.

The project models these parts of `main.go`:

- the segmentation planner and the segment framing;
- the output-name helpers;
- the reconstruction index: the upsert, the completeness gate and the
  assembly;
- the recognition cascade `QrDecode` → `QrDecode2` → `QrDecodePy` →
  `QrDecodeInput`;
- the conversion of a raw rgb24 frame to pixels (`RawDataToImage`);
- the buffer-filling read loop.

It proves the round trip. Encode a non-empty file, store its segment
videos under distinct names, and let the recognizers read every frame
faithfully. Then a decoder session that discovers the videos in any order
ends normally and restores exactly the file's bytes. The restored file is
named `output_<name>` and matches the file's hash.

The project has one module per component:

- `Base`: bytes, `Option`, flattening and ceiling division;
- `Planner`: the plan's counts and the segment ranges;
- `Naming`: the path helpers;
- `Framing`: the encoder's segment and chunk loops;
- `Recognition`: the cascade;
- `Pixels`: raw frame buffers and pixels;
- `Reconstruction`: the index class, the header pass, the gate, the
  assembly and the restore loop;
- `RoundTrip`: the headline lemma.

The external world enters in two ways:

- **VideoFile:** each path is a `VideoFile`, i.e. what ffprobe and ffmpeg
  deliver for it. This covers the probe result, whether ffmpeg starts,
  the rgb24 byte stream and whether ffmpeg exits cleanly.
- **Env oracles:** the barcode readers (after `ResizeImage`), base64
  decoding, JSON unmarshalling, SHA-256 and the success of each write to
  the output file are function-valued fields of `Env`.

In these places the model follows the code as written, even where the
program's messages suggest another intent:

- **A frame that cannot be read.** It ends the whole `Decode` run with a
  `return` (main.go:907-910). It does not end only the reconstruction of
  that one file.
- **A short first-frame read in the header pass.** It `break`s the whole
  scan (main.go:711-713). The candidate is not skipped.
- **The completeness gate.** It compares `len(Path)` with `Len`; it does
  not check for unset slots (see Findings).
- **The upsert.** It overwrites the entry's metadata with the latest
  header's and probe's values without validating them.
- **An empty file.** It gives zero segments, so no video is written.

## Model

| member | source | states |
|---|---|---|
| Base.CeilDiv | main.go:437 | the integer ceiling of a / b: least q with q*b >= a; zero exactly when a is zero |
| Planner.MakePlan | main.go:436-444 | the plan of a run (frame count, segment length, duration, split flag, segment count); what it computes is stated by Planner.PlanCounts and Planner.SplitIffSeveral |
| Planner.PlanCounts | main.go:436-444 | allFrameNum = ceil(fileLength/dataSliceLen), segmentLength = segmentSeconds*outputFPS > 0, allSeconds = ceil(allFrameNum/outputFPS), segmentsNum = ceil(allFrameNum/segmentLength); isSegments iff more than one segment; no segment iff the file is empty |
| Planner.SplitIffSeveral | main.go:440-444 | the program's split test `allFrameNum > segmentLength` holds exactly when segmentsNum > 1 |
| Planner.SegmentStart | main.go:472-476 | where segment s begins, `s*dataSliceLen*segmentLength`; stated by Planner.SegmentBounds and Planner.StartInside |
| Planner.SegmentEnd | main.go:472-476 | where segment s ends, the next start or the end of the file, whichever comes first; stated by Planner.SegmentBounds and Planner.LastReachesEnd |
| Planner.Segment | main.go:472-476 | the bytes of segment s; stated by Planner.SegmentsPrefix and Planner.SegmentsTile |
| Planner.SegmentBounds | main.go:469-476 | every planned segment starts strictly inside the file and ends no later than its end; each non-last segment holds dataSliceLen*segmentLength bytes and ends where the next starts; the last ends at the end of the file |
| Planner.SegmentsPrefix | main.go:469-476 | the first k segments, concatenated, are the file's bytes up to the end of segment k-1 |
| Planner.SegmentsTile | main.go:469-476 | all planned segments, concatenated in index order, are exactly the file (no gap, no overlap) |
| Naming.Ext | main.go:115 | `filepath.Ext` of a base name; stated by Naming.ExtShape, Naming.ExtOfAppend and Naming.ExtIdempotent |
| Naming.ExtShape | main.go:114-115 | the extension is a suffix of the base name, empty iff the name has no '.', and otherwise starts at the name's last '.' |
| Naming.TrimSuffix | main.go:116 | removing a present suffix leaves the part that the suffix completes to the original; an absent suffix leaves the string unchanged |
| Naming.Stem | main.go:114-116 | the stem followed by the extension is the base name |
| Naming.ReplaceDots | main.go:136 | same length, every '.' becomes '_', every other character kept |
| Naming.Itoa | main.go:117 | `%d` output is non-empty and made of digits and '-' only |
| Naming.ItoaInjective | main.go:117 | distinct integers are formatted differently |
| Naming.ExtOfAppend | main.go:114-115 | the extension of a + b: b's if b has a '.', else a's extension followed by b if a has one, else empty |
| Naming.ExtIdempotent | main.go:115 | an extension is its own extension |
| Naming.AppendExt | main.go:117 | appending an extension to a prefix gives a name with that extension and that stem |
| Naming.AddIndexToFileName | main.go:113-120 | the indexed segment path `<stem>_<index><ext>`; stated by Naming.AddIndexKeepsDirAndExt and Naming.AddIndexInjective |
| Naming.AddTagToFileName | main.go:122-129 | the path pattern shown to the user; stated by Naming.AddTagKeepsDirAndExt |
| Naming.AddOutputToFileName | main.go:131-138 | the output path of a file's videos; stated by Naming.AddOutputShape, Naming.OutputDirsCollide and Naming.OutputDirsCanCollide |
| Naming.AddIndexKeepsDirAndExt | main.go:113-120 | `AddIndexToFileName(p, k)` keeps p's directory and extension and its stem is p's stem followed by `_<k>` |
| Naming.AddIndexInjective | main.go:113-120 | distinct indices give distinct indexed paths |
| Naming.AddTagKeepsDirAndExt | main.go:122-129 | `AddTagToFileName(p)` keeps p's directory and extension and inserts `_{index}` after the stem |
| Naming.AddOutputShape | main.go:131-138 | `AddOutputToFileName(p)` is `dir/output_<stem><ext with '.' as '_'>/<stem>.mp4` |
| Naming.OutputDirsCollide | main.go:131-138 | any two files of one directory whose stem followed by the rewritten extension read the same share an output directory, and their output paths are equal exactly when their stems are |
| Naming.OutputDirsCanCollide | main.go:131-138 | two different files, "a.b" and "a_b", get different output paths inside the same output directory |
| Naming.SegmentOutputPath | main.go:477-481 | the path of segment s of n; stated by Naming.SegmentPathUnindexedIffSingle and Naming.SegmentPathsDistinct |
| Naming.SegmentPathUnindexedIffSingle | main.go:477-481 | a segment is written to the unindexed output path exactly when it is segment 0 of a single-segment run |
| Naming.SegmentPathsDistinct | main.go:477-481 | the segments of one run are written to pairwise distinct paths |
| Framing.Chunks | main.go:545-557 | the chunks the loop cuts a segment into; stated by Framing.ChunksConcat, Framing.ChunkSizes and Framing.ChunkCount |
| Framing.SegmentFrames | main.go:507-583 | the frames of one segment video: its header, then one data frame per chunk; stated by Framing.SegmentFramesShape and run by Framing.EncodeSegment |
| Framing.SegmentHeader | main.go:510-516 | the header of segment s: the file's hash, its base name, s, the segment count and the barcode size; stated by Framing.SegmentVideoHeader |
| Framing.SegmentVideo | main.go:470-583 | segment video s: its path and its frames; stated by Framing.SegmentVideoHeader and Framing.SegmentVideoLength, and built by Framing.EncodeSegmentAt |
| Framing.ChunksConcat | main.go:545-557 | the chunks the loop cuts a segment into concatenate to the segment |
| Framing.ChunkSizes | main.go:545-557 | an empty segment has no chunk; every chunk but the last has exactly dataSliceLen bytes; the last is non-empty and at most dataSliceLen |
| Framing.ChunkCount | main.go:545-557 | the number of chunks is ceil(segment length / dataSliceLen) |
| Framing.SegmentFramesShape | main.go:507-583 | a segment video has 1 + ceil(len/dataSliceLen) frames, the header first and data frames only after it, whose payloads are the chunks and concatenate to the segment |
| Framing.EncodeSegment | main.go:507-583 | the chunk loop emits the header and then one data frame per chunk; on exit i = 1 + chunk count and fileNowLength = segment length |
| Framing.EncodeSegmentAt | main.go:470-591 | one pass of the segment loop produces segment video s of the encoding: its byte range, its path and its header |
| Framing.EncodeFile | main.go:469-592 | the segment loop produces every segment video of the encoding, in index order |
| Framing.EncodedUpToAll | main.go:469-592 | after k passes the loop has written exactly the first k segment videos |
| Framing.Encoding | main.go:469-471 | one segment video per planned segment |
| Framing.EncodingShape | main.go:477-537 | video s sits at segment path s; its first frame is the header with the file's hash, its base name, index s, the segment count and the barcode size; every later frame is data; it has at most segmentLength data frames, exactly that many unless it is the last |
| Framing.SegmentVideoHeader | main.go:477-537 | segment video s sits at segment path s, and its first frame is the header naming the file's hash, base name, index s, segment count and barcode size, with only data frames after it |
| Framing.SegmentVideoLength | main.go:469-557 | segment video s has at most segmentLength data frames, and exactly that many unless it is the last |
| Framing.EncodingCarriesFile | main.go:469-583 | the data payloads of all segment videos, in segment order and then frame order, are exactly the file |
| Recognition.Stages | main.go:196-329 | the stages the cascade can reach include manual entry exactly when isInput holds |
| Recognition.QrDecodeInput | main.go:196-212 | manual entry; stated by Recognition.QrDecodeInputConsults |
| Recognition.QrDecodePy | main.go:214-287 | the script stage; stated by Recognition.QrDecodePyConsults |
| Recognition.QrDecode2 | main.go:289-306 | the goqr stage; stated by Recognition.QrDecode2Consults |
| Recognition.QrDecode | main.go:308-329 | the whole cascade; stated by Recognition.QrDecodeConsults and Recognition.QrDecodeIsFirstDecodable |
| Recognition.QrDecodeInputConsults | main.go:196-212 | manual entry consults the typed line only: an empty or undecodable line yields nil |
| Recognition.QrDecodePyConsults | main.go:214-287 | the script stage returns the script's decoded output, or falls back to manual entry only when isInput holds, else nil |
| Recognition.QrDecode2Consults | main.go:289-306 | goqr returns its first code's decoded text, or falls back to the script stage on an error, no code or undecodable text |
| Recognition.QrDecodeConsults | main.go:308-329 | the cascade consults gozxing, goqr, the script (and manual entry if allowed) in order, stops at the first success and returns its decoded text, returns nil only after every stage failed, and reaches manual entry only when isInput holds |
| Recognition.FirstDecodableSpec | main.go:196-329 | the reference definition finds a value iff some candidate decodes, and then it is the decoding of one before which none decodes |
| Recognition.Candidates | main.go:196-329 | one candidate text per reachable stage, in cascade order |
| Recognition.QrDecodeIsFirstDecodable | main.go:196-329 | the cascade's result is exactly the decoding of the first candidate text that base64-decodes |
| Recognition.ManualEntryOnlyAddsChance | main.go:214-287 | with manual entry allowed the cascade returns the same payload whenever it succeeds without it, and fails only if it fails without it |
| Pixels.Offset | main.go:84 | the first byte of pixel (x, y), `(y*width + x)*3`; stated by Pixels.OffsetInRange and Pixels.PixelOfPosition |
| Pixels.PixelAt | main.go:84-88 | the opaque colour of pixel (x, y) read from the buffer; stated by Pixels.ToImageLossless and built by Pixels.RawDataToImage |
| Pixels.OffsetInRange | main.go:84-87 | the three bytes of every pixel lie inside the width*height*3 buffer |
| Pixels.ToImage | main.go:80-92 | the image of a buffer has height rows of width pixels |
| Pixels.RawDataToImage | main.go:80-92 | the nested loops set every pixel (x, y) to the opaque colour of bytes 3(yw+x) .. 3(yw+x)+2 |
| Pixels.PixelOfPosition | main.go:84 | buffer position k belongs to pixel ((k/3) mod w, (k/3) div w), channel k mod 3 |
| Pixels.ToImageLossless | main.go:80-92 | every byte of the buffer is a channel of the image it becomes |
| Pixels.ToImageInjective | main.go:80-92 | different buffers of one size give different images |
| Pixels.FillBuffer | main.go:700-710 | the read loop fills the whole buffer with the next bytes of the stream, or sets exitFlag exactly when fewer bytes are left |
| Reconstruction.Upserted | main.go:734-749 | the index after one upsert; stated by Reconstruction.UpsertEffect |
| Reconstruction.HeaderStep | main.go:648-733 | the header pass on one candidate: skipped, scan ended by a short read, or a header with the probe's size; stated by RoundTrip.StoredHeader and Reconstruction.ManualEntryOnlyWhenAssembling, and run step by step by Reconstruction.ReconstructionIndex.Discover |
| Reconstruction.Scan | main.go:645-750 | the header pass over the candidate list; stated by Reconstruction.ScanKeepsPathLengths and RoundTrip.ScanAnnounced, and run step by step by Reconstruction.ReconstructionIndex.Discover |
| Reconstruction.Fits | main.go:734-739 | the upsert does not panic: Len is not negative and Index lies inside the Path it writes; Reconstruction.UpsertEffect assumes it and Reconstruction.Scan ends with a panic where it fails |
| Reconstruction.FileAt | main.go:648-652 | a path nothing is known about: ffprobe fails on it, and ffmpeg starts on it, delivers nothing and exits with an error; used by Reconstruction.MissingSegmentLeavesTruncatedOutput |
| Reconstruction.UpsertEffect | main.go:734-749 | first sight of a hash creates a Path of length Len with only slot Index set; a later sight keeps Path's length and other slots and overwrites slot Index; the metadata are the latest header's and probe's; no other hash changes |
| Reconstruction.ReconstructionIndex.constructor | main.go:643 | the index starts empty |
| Reconstruction.ReconstructionIndex.Upsert | main.go:734-749 | the index after the update is the upsert of the header read from the path |
| Reconstruction.ReconstructionIndex.Discover | main.go:645-750 | the header pass leaves the index and the way the scan ended that the scan function describes |
| Reconstruction.ScanKeepsPathLengths | main.go:734-749 | the header pass never removes a hash and never changes a Path's length once the hash was seen |
| Reconstruction.GateAsWritten | main.go:792 | the gate as written: Path has Len slots; stated by Reconstruction.GateAcceptsMissingSegment, Reconstruction.AllSegmentsFoundIsStronger and Reconstruction.SelectAsWritten |
| Reconstruction.AllSegmentsFound | main.go:792-794 | the intended gate: Path has Len slots, all of them filled; stated by Reconstruction.AllSegmentsFoundIsStronger, Reconstruction.UpsertCompletes and Reconstruction.SelectAll |
| Reconstruction.GateAcceptsMissingSegment | main.go:762 | as written, the gate passes an entry of a two-segment file where only segment 0 was found; "decode everything" as written selects its hash and the intended selection does not |
| Reconstruction.AllSegmentsFoundIsStronger | main.go:762 | the intended gate is the written gate plus "no unset slot" |
| Reconstruction.UpsertCompletes | main.go:734-749 | under the intended gate, an entry missing only slot Index is incomplete, and upserting that slot completes it |
| Reconstruction.SelectAsWritten | main.go:789-797 | "decode everything" picks exactly the hashes of the index whose Path has Len slots (the gate of main.go:792), each once when the hash order has no repeats |
| Reconstruction.SelectAll | main.go:789-797 | the same selection with the intended gate: exactly the hashes whose entry has every slot filled, each once when the hash order has no repeats |
| Reconstruction.FrameLoop | main.go:883-920 | the frame loop of one video; stated by Reconstruction.FrameLoopDrained, Reconstruction.FrameLoopStep, Reconstruction.FrameLoopAt and RoundTrip.CopyAll |
| Reconstruction.FrameLoopDrained | main.go:884-896 | a frame loop over a stream with less than a frame left writes nothing |
| Reconstruction.FrameLoopStep | main.go:897-919 | a data frame that is recognized and written contributes its payload ahead of the rest of the loop |
| Reconstruction.FrameLoopShort | main.go:884-896 | a short read ends the frame loop without writing |
| Reconstruction.FrameLoopAt | main.go:896-919 | frame 0 is skipped; a later frame aborts the run when it cannot be recognized, ends the loop when the write fails, and otherwise leads with its payload |
| Reconstruction.CopyStep | main.go:896-919 | one pass of the frame loop after the bytes written so far: frame 0 is skipped, an unreadable frame aborts with those bytes, a failed write keeps them, a written frame appends its payload |
| Reconstruction.PrefixedTwice | main.go:915 | writing a and then b is writing a + b |
| Reconstruction.AssembleVideo | main.go:860-928 | one video of the Path; stated by Reconstruction.AssembleFilesSpec and RoundTrip.CopyVideo |
| Reconstruction.AssembleFiles | main.go:858-929 | the videos of a Path in index order; stated by Reconstruction.AssembleFilesSpec and RoundTrip.AssembleAll |
| Reconstruction.AssembleFilesSpec | main.go:859-928 | assembly of a Path aborts exactly when one of its videos aborts, and otherwise writes their bytes one after the other in index order |
| Reconstruction.VideoOutputs | main.go:859-928 | one written byte string per video of the Path, in index order |
| Reconstruction.ManualEntryOnlyWhenAssembling | main.go:716 | the header pass never asks the user; the assembly pass (main.go:906) asks before it gives up on a frame |
| Reconstruction.DecodeFrame | main.go:902-906 | the payload of a data frame: the cascade, with manual entry allowed, on the frame's image; computed step by step by Reconstruction.RecognizeFrame |
| Reconstruction.RecognizeFrame | main.go:902-906 | a data frame's buffer is turned into an image and read by the cascade with manual entry allowed |
| Reconstruction.ReadFrame | main.go:884-894 | a fresh buffer holds the next frame-size bytes of the stream, or exitFlag is set exactly when fewer are left |
| Reconstruction.CopyFrames | main.go:883-920 | the frame loop of one video writes what the frame-loop function says: payloads of frames 1.., stopping at a short read, a failed write or an unreadable frame (abort) |
| Reconstruction.AssembleOne | main.go:860-928 | one video: a failed ffmpeg start or exit aborts, otherwise its frame loop |
| Reconstruction.AssembleTarget | main.go:858-929 | a target's output is its Path's videos assembled in index order, up to the first abort |
| Reconstruction.Restore | main.go:818-962 | the target loop restores the targets in order, recording each output's name, bytes and hash match, and stops at the first aborted target |
| Reconstruction.OutputName | main.go:821 | a target's output file is `output_<Name>`; stated by Reconstruction.SessionOfOneFile and RoundTrip.RoundTrip |
| Reconstruction.RestoreAll | main.go:818-962 | the restore loop over the targets; stated by Reconstruction.RestoreAllFinishes, Reconstruction.RestoreAllStops, Reconstruction.SessionOfOneFile and Reconstruction.MissingSegmentLeavesTruncatedOutput, and run by Reconstruction.Restore |
| Reconstruction.RestoreAllCons | main.go:818-933 | the first target either aborts the run, keeping the bytes it wrote, or is recorded with its output name, bytes and hash match ahead of the rest |
| Reconstruction.RestoreAllFinishes | main.go:818-962 | over any list of targets the run finishes exactly when no target's assembly aborts, and then holds one record per target, in order |
| Reconstruction.RestoreAllStops | main.go:818-962 | a run that stops does so at the first target whose assembly aborts, keeps that target's partial bytes, and holds the records of the targets before it |
| Reconstruction.MissingSegmentLeavesTruncatedOutput | main.go:860-928 | a selected entry whose slot 1 is unset: ffmpeg runs on the path "", its exit error ends the run, and the output keeps the bytes of video 0 with no hash check |
| Reconstruction.DecodeSession | main.go:643-962 | the non-interactive session: header pass, stop when nothing was found, targets chosen with the gate as written, restore loop; stated by Reconstruction.SessionOfOneFile and RoundTrip.RoundTrip |
| Reconstruction.SessionOfOneFile | main.go:752-962 | a session whose header pass found one file, complete by the written gate, restores exactly that file under `output_<name>` with the bytes its assembly writes, unless the assembly aborts |
| Reconstruction.AfterTwice | main.go:818-962 | targets restored in two stretches are the targets restored in one |
| RoundTrip.Slots | main.go:734-749 | the Path after discovering a set of the videos: each video at its own index, unset elsewhere |
| RoundTrip.StoredHeader | main.go:696-733 | the header pass reads a stored video's first frame as its header |
| RoundTrip.HeaderFound | main.go:696-733 | the header pass finds video s's header, naming the file's hash, base name, index s and segment count |
| RoundTrip.AllAnnounced | main.go:645-733 | every stored segment video announces itself to the header pass |
| RoundTrip.DiscoverOne | main.go:734-749 | discovering one more video of the file keeps the index in the expected partial state |
| RoundTrip.DiscoverAll | main.go:645-750 | the header pass over any arrangement of the videos visits all of them and leaves one entry whose Path lists every video at its own index |
| RoundTrip.CopyAll | main.go:883-920 | a frame loop over readable frames yields their payloads in order |
| RoundTrip.StoredReadable | main.go:883-920 | a stored, faithfully read video is readable for an entry of its frame size |
| RoundTrip.CopyVideo | main.go:860-928 | each stored video contributes exactly the bytes its data frames carry |
| RoundTrip.AssembleAll | main.go:858-929 | assembling the videos from index j on yields the bytes they carry |
| RoundTrip.ScanAnnounced | main.go:645-750 | the header pass over any arrangement of announced videos ends normally with one entry whose Path lists every video at its own index |
| RoundTrip.Discovered | main.go:645-755 | after the header pass over any order, the only entry is the file's, with Path = the names in index order and the encoder's metadata |
| RoundTrip.Assembled | main.go:858-929 | assembling the stored videos in index order restores the file's bytes |
| RoundTrip.RoundTrip | main.go:469-962 | encode, store, discover in any order, pass the gate (both as written and as intended) and assemble: the session restores exactly the file, named `output_<name>`, with a matching hash |

## Left out

- The encoder settings are not validated by the program. The planner and the framing require positive `dataSliceLen`, `outputFPS` and `segmentSeconds` (`ValidSettings`), since zero or negative values make the program divide by zero or loop differently.
- `math.Ceil(float64(a) / float64(b))` is modelled as exact integer ceiling division. This agrees for all sizes below 2^53.
- Go's 64-bit `int` is modelled as unbounded; overflow of the segment offsets is not modelled.
- On the decode side, the ffmpeg and ffprobe subprocesses are replaced by what they deliver for a path (`VideoFile`). This covers the decoder's pipe creation errors, the parsing of ffprobe's output (TrimSpace, Atoi, the frame-count regexp) and `-vframes 1`: the header pass reads the first frame of the same stream.
- VideoFile: one `starts`, `stream` and `exitsOk` serve both ffmpeg runs on a path, the header pass's `-vframes 1` run (main.go:660-724) and the assembly run (main.go:860-927). A file that starts or fails in one run behaves the same way in the other, so a video that fails only in one of the two runs is not modelled.
- EncodeFile: the encoder's error returns are not modelled. `Encode` returns, leaving the earlier segment videos written, when StdinPipe, Start, `json.Marshal`, `png.Encode`, a pipe Write or Wait fails (main.go:496-505, 517-520, 526-535, 569-580, 586-590). The model assumes every one of them succeeds, so `EncodeFile` has no failure outcome.
- Non-positive probe dimensions are excluded by the `Dimension` type.
- The QR libraries and the Python script are oracles (`Sighting`). This includes the nil dereference when `qrencode.New` fails on a payload too large for the barcode.
- JSON, base64 encoding, SHA-256 and `ResizeImage` are oracles. The resize factor, including the heuristic `1/|Resize|*4`, is folded into the oracles `headerSight` and `dataSight`. The program overwrites `videoResizeTimes` for the first target, so later targets reuse the first target's factor; the model cannot show this.
- The index argument of `QrDecode` is only printed (main.go:312, 318, 324), so it is not modelled. The script stage always writes `output_lumina.png` (main.go:218).
- `os.Create` of the output file and `CalculateFileHash` errors are not modelled. The file's content is the bytes written to it, and the hash compare at main.go:957-961 is report-only (`Restored.hashMatches`).
- `frameCount` is carried in the entry but only printed, so nothing is proved about it.
- The UI is not modelled: menus, the interactive single-hash selection (main.go:798-813), `AutoRun`, flag parsing, progress bars and printing. The model's session is "decode everything".
- Directory walking and Go map iteration order are not modelled. The candidate list is a parameter. The hash order is any duplicate-free enumeration of the index's hashes (`Enumerates`), as a range over a Go map yields them.
- `filepath.Base`, `Dir`, `Join` and `Clean` are modelled by a path of directory components plus a base name, without normalisation.
- The `Path` slice is shared between the map entry and `t`; the model treats it as a value sequence. Because the map entry is rewritten with `t` immediately, this changes nothing the program observes.
- `AddTagToFileName` is only used for display, so only its shape is proved.
- FrameLoop: a failed `outputFile.Write` may already have written part of the frame's payload before the loop breaks (main.go:915-918). The model writes none of that frame.
- RestoreAll: two selected hashes whose entries have the same Name share `output_<Name>` (main.go:821), and `os.Create` truncates it (main.go:851), so the later target overwrites the earlier one's output. The model reports each target with its own bytes and does not model the file system.
- Env: the typed manual-entry line is part of `dataSight(img)`, a function of the frame image alone, so identical frames get the same typed answer. The user's input is not modelled as a separate stream.

## Findings

| source | as written | input that shows it | evidently intended | confidence | as-written member | corrected member |
|---|---|---|---|---|---|---|
| main.go:762 (also 792, 803) | the completeness gate tests `len(Path) != Len`, but Path is created with `make([]string, Len)` on first sight, so the test can only fail if a later header claims a different Len | a two-segment file of which only the segment-0 video is present: its entry has Path `[p0, ""]` and passes the gate. Assembly then runs ffmpeg on the unset slot "", whose exit error ends `Decode` (main.go:924-927). The output file is left truncated, holding only video 0's bytes, with no hash check (Reconstruction.MissingSegmentLeavesTruncatedOutput) | an entry is complete only when every slot in `[0, Len)` holds a discovered video | not executed | Reconstruction.GateAcceptsMissingSegment | Reconstruction.SelectAll |

`DecodeSession` keeps the program's gate, so that the session is the program's. `SelectAll` is the intended selection. `RoundTrip` shows that when every video is present, both gates pass the file's entry.
