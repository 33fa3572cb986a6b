/** The barcode recognition cascade of `Decode` (main.go:196-329): gozxing
    first, then goqr, then the external Python script, and, only when the
    caller allows it, text typed in by the user. Each recognizer is an
    oracle whose outcome for one image is recorded in a `Sighting`; base64
    decoding is an abstract partial function. What is modelled is the
    order in which the stages are consulted and where the cascade stops. */
module Recognition {
  import opened Base

  /** The recognition stages, in the order the cascade consults them. */
  datatype Stage = GoZxing | GoQr | PyScript | ManualEntry

  /** What each recognizer makes of one image. `zxing` is None when the
      bitmap conversion or the detection fails; `goqr` is None when goqr
      reports an error and otherwise lists the payloads it found; `script`
      is None when any step of running the Python script fails (writing
      the PNG, locating the program, a missing script, a non-zero exit)
      and otherwise holds its standard output; `typed` is the user's line
      with surrounding white space removed. */
  datatype Sighting = Sighting(
    zxing: Option<string>,
    goqr: Option<seq<string>>,
    script: Option<string>,
    typed: string)

  /** The bytes the cascade returns (None for Go's nil) and the stages it
      consulted, in order. */
  datatype Recognition = Recognition(data: Option<seq<byte>>, tried: seq<Stage>)

  /** Standard base64 decoding, which may reject its input. */
  type Base64Decoder = string -> Option<seq<byte>>

  /** The stages a cascade started with the given `isInput` may reach. */
  function Stages(isInput: bool): (st: seq<Stage>)
    ensures ManualEntry in st <==> isInput
  {
    [GoZxing, GoQr, PyScript] + (if isInput then [ManualEntry] else [])
  }

  /** The text a stage hands to the base64 decoder, if it produces any:
      goqr's first payload; the typed line only when it is not empty. */
  function StageText(s: Sighting, stage: Stage): Option<string>
  {
    match stage
    case GoZxing => s.zxing
    case GoQr =>
      if s.goqr.Some? && |s.goqr.value| > 0 then Some(s.goqr.value[0]) else None
    case PyScript => s.script
    case ManualEntry => if s.typed == "" then None else Some(s.typed)
  }

  /** A stage succeeds when it produces text that base64-decodes. */
  predicate Succeeds(s: Sighting, stage: Stage, b64: Base64Decoder)
  {
    StageText(s, stage).Some? && b64(StageText(s, stage).value).Some?
  }

  /** The stage prepended to the trace of the call it falls back to. */
  function Then(stage: Stage, r: Recognition): Recognition
  {
    Recognition(r.data, [stage] + r.tried)
  }

  /** What a successful cascade promises: it stopped at the first stage
      that consulted succeeds, and returned that stage's decoded text. */
  ghost predicate StoppedAtSuccess(s: Sighting, r: Recognition, b64: Base64Decoder)
  {
    r.data.Some? ==>
      |r.tried| > 0 && Succeeds(s, r.tried[|r.tried| - 1], b64) &&
      r.data == b64(StageText(s, r.tried[|r.tried| - 1]).value)
  }

  /** The stages consulted are the first ones of `from`; a failure means all
      of them were consulted in vain; every stage before the last failed. */
  ghost predicate Consulted(s: Sighting, r: Recognition, from: seq<Stage>, b64: Base64Decoder)
  {
    0 < |r.tried| <= |from| && r.tried == from[..|r.tried|] &&
    (r.data.None? ==> r.tried == from) &&
    (forall k :: 0 <= k < |r.tried| - 1 ==> !Succeeds(s, r.tried[k], b64)) &&
    (r.data.None? ==> forall k :: 0 <= k < |r.tried| ==> !Succeeds(s, r.tried[k], b64)) &&
    StoppedAtSuccess(s, r, b64)
  }

  /** Manual entry (main.go:196-212): an empty line or text that does not
      base64-decode yields nil. */
  function QrDecodeInput(s: Sighting, b64: Base64Decoder): Recognition
  {
    if s.typed == "" then Recognition(None, [ManualEntry])
    else match b64(s.typed)
      case None => Recognition(None, [ManualEntry])
      case Some(d) => Recognition(Some(d), [ManualEntry])
  }

  /** The Python script (main.go:214-287): every failure, including its
      output failing to base64-decode, falls back to manual entry when
      `isInput` holds and yields nil otherwise. */
  function QrDecodePy(s: Sighting, isInput: bool, b64: Base64Decoder): Recognition
  {
    var fallback := if isInput then Then(PyScript, QrDecodeInput(s, b64)) else Recognition(None, [PyScript]);
    match s.script
    case None => fallback
    case Some(out) =>
      match b64(out)
      case None => fallback
      case Some(d) => Recognition(Some(d), [PyScript])
  }

  /** goqr (main.go:289-306): an error, no code found, or a first payload
      that does not base64-decode falls back to the Python script. */
  function QrDecode2(s: Sighting, isInput: bool, b64: Base64Decoder): Recognition
  {
    match s.goqr
    case None => Then(GoQr, QrDecodePy(s, isInput, b64))
    case Some(codes) =>
      if |codes| <= 0 then Then(GoQr, QrDecodePy(s, isInput, b64))
      else match b64(codes[0])
        case None => Then(GoQr, QrDecodePy(s, isInput, b64))
        case Some(d) => Recognition(Some(d), [GoQr])
  }

  /** gozxing (main.go:308-329): a failed bitmap conversion, a failed
      detection or text that does not base64-decode falls back to goqr. */
  function QrDecode(s: Sighting, isInput: bool, b64: Base64Decoder): Recognition
  {
    match s.zxing
    case None => Then(GoZxing, QrDecode2(s, isInput, b64))
    case Some(text) =>
      match b64(text)
      case None => Then(GoZxing, QrDecode2(s, isInput, b64))
      case Some(d) => Recognition(Some(d), [GoZxing])
  }

  /** Falling back past a failed stage keeps the trace a prefix of the
      stages, one longer. */
  lemma ThenConsulted(s: Sighting, stage: Stage, r: Recognition, from: seq<Stage>, b64: Base64Decoder)
    requires |from| > 0 && from[0] == stage && !Succeeds(s, stage, b64)
    requires Consulted(s, r, from[1..], b64)
    ensures Consulted(s, Then(stage, r), from, b64)
  {
    var t := Then(stage, r).tried;
    assert t == [stage] + r.tried;
    assert t == from[..|t|] by {
      assert from == [from[0]] + from[1..];
    }
    assert forall k :: 1 <= k < |t| ==> t[k] == r.tried[k - 1];
    if r.data.None? {
      assert from == [stage] + from[1..];
    }
  }

  /** Manual entry consults only the typed line. */
  lemma QrDecodeInputConsults(s: Sighting, b64: Base64Decoder)
    ensures Consulted(s, QrDecodeInput(s, b64), [ManualEntry], b64)
  {
  }

  /** The script stage consults the script, then manual entry if allowed. */
  lemma QrDecodePyConsults(s: Sighting, isInput: bool, b64: Base64Decoder)
    ensures Consulted(s, QrDecodePy(s, isInput, b64), Stages(isInput)[2..], b64)
  {
    var from := Stages(isInput)[2..];
    if Succeeds(s, PyScript, b64) {
      assert from[..1] == [PyScript];
    } else if isInput {
      assert from == [PyScript, ManualEntry];
      QrDecodeInputConsults(s, b64);
      assert from[1..] == [ManualEntry];
      ThenConsulted(s, PyScript, QrDecodeInput(s, b64), from, b64);
    } else {
      assert from == [PyScript];
    }
  }

  /** The goqr stage consults goqr and then the later stages. */
  lemma QrDecode2Consults(s: Sighting, isInput: bool, b64: Base64Decoder)
    ensures Consulted(s, QrDecode2(s, isInput, b64), Stages(isInput)[1..], b64)
  {
    var from := Stages(isInput)[1..];
    if Succeeds(s, GoQr, b64) {
      assert from[..1] == [GoQr];
    } else {
      QrDecodePyConsults(s, isInput, b64);
      assert from[1..] == Stages(isInput)[2..];
      ThenConsulted(s, GoQr, QrDecodePy(s, isInput, b64), from, b64);
    }
  }

  /** The whole cascade consults the stages in order, stops at the first
      that succeeds and returns its decoded text, reaches manual entry only
      when the caller allows it, and fails only after every stage failed. */
  lemma QrDecodeConsults(s: Sighting, isInput: bool, b64: Base64Decoder)
    ensures Consulted(s, QrDecode(s, isInput, b64), Stages(isInput), b64)
    ensures ManualEntry in QrDecode(s, isInput, b64).tried ==> isInput
  {
    var from := Stages(isInput);
    if Succeeds(s, GoZxing, b64) {
      assert from[..1] == [GoZxing];
    } else {
      QrDecode2Consults(s, isInput, b64);
      assert from[1..] == Stages(isInput)[1..];
      ThenConsulted(s, GoZxing, QrDecode2(s, isInput, b64), from, b64);
    }
    var t := QrDecode(s, isInput, b64).tried;
    if ManualEntry in t {
      var k :| 0 <= k < |t| && t[k] == ManualEntry;
      assert from[k] == ManualEntry;
    }
  }

  /** Reference definition: the decoded text of the first candidate that
      decodes, or None when none does. */
  function FirstDecodable(cands: seq<Option<string>>, b64: Base64Decoder): Option<seq<byte>>
  {
    if cands == [] then None
    else if cands[0].Some? && b64(cands[0].value).Some? then b64(cands[0].value)
    else FirstDecodable(cands[1..], b64)
  }

  /** `FirstDecodable` finds a result exactly when some candidate decodes,
      and then it is the decoding of a candidate before which none decodes. */
  lemma {:induction false} FirstDecodableSpec(cands: seq<Option<string>>, b64: Base64Decoder)
    ensures var r := FirstDecodable(cands, b64);
            (r.Some? <==> exists i :: 0 <= i < |cands| && cands[i].Some? && b64(cands[i].value).Some?) &&
            (r.Some? ==> exists i :: 0 <= i < |cands| && cands[i].Some? && r == b64(cands[i].value) &&
                                     forall j :: 0 <= j < i ==> !(cands[j].Some? && b64(cands[j].value).Some?))
  {
    if cands != [] && !(cands[0].Some? && b64(cands[0].value).Some?) {
      var tail := cands[1..];
      FirstDecodableSpec(tail, b64);
      var r := FirstDecodable(tail, b64);
      assert forall i :: 0 < i < |cands| ==> cands[i] == tail[i - 1];
      if r.Some? {
        var i' :| 0 <= i' < |tail| && tail[i'].Some? && r == b64(tail[i'].value) &&
                  forall j :: 0 <= j < i' ==> !(tail[j].Some? && b64(tail[j].value).Some?);
        forall j | 0 <= j < i' + 1 ensures !(cands[j].Some? && b64(cands[j].value).Some?) {
          if j > 0 { assert cands[j] == tail[j - 1]; }
        }
        assert cands[i' + 1] == tail[i'];
      } else {
        forall i | 0 <= i < |cands| ensures !(cands[i].Some? && b64(cands[i].value).Some?) {
          if i > 0 { assert cands[i] == tail[i - 1]; }
        }
      }
    }
  }

  /** One step of `FirstDecodable` on a candidate list given by its head. */
  lemma FirstDecodableCons(c: Option<string>, rest: seq<Option<string>>, b64: Base64Decoder)
    ensures FirstDecodable([c] + rest, b64)
            == if c.Some? && b64(c.value).Some? then b64(c.value) else FirstDecodable(rest, b64)
  {
    assert ([c] + rest)[1..] == rest;
  }

  /** The candidate texts of one image, stage by stage. */
  function Candidates(s: Sighting, isInput: bool): (cs: seq<Option<string>>)
    ensures |cs| == |Stages(isInput)|
    ensures forall k :: 0 <= k < |cs| ==> cs[k] == StageText(s, Stages(isInput)[k])
  {
    var st := Stages(isInput);
    seq(|st|, k requires 0 <= k < |st| => StageText(s, st[k]))
  }

  /** The cascade returns exactly the payload of the first stage whose code
      text base64-decodes, and nil when no stage it may consult succeeds. */
  lemma QrDecodeIsFirstDecodable(s: Sighting, isInput: bool, b64: Base64Decoder)
    ensures QrDecode(s, isInput, b64).data == FirstDecodable(Candidates(s, isInput), b64)
  {
    var cs := Candidates(s, isInput);
    var t0, t1, t2, t3 := StageText(s, GoZxing), StageText(s, GoQr), StageText(s, PyScript), StageText(s, ManualEntry);
    var last: seq<Option<string>> := if isInput then [t3] else [];
    assert cs == [t0] + ([t1] + ([t2] + last));
    FirstDecodableCons(t0, [t1] + ([t2] + last), b64);
    FirstDecodableCons(t1, [t2] + last, b64);
    FirstDecodableCons(t2, last, b64);
    if isInput {
      FirstDecodableCons(t3, [], b64);
      assert last == [t3] + [];
    }
  }

  /** Allowing manual entry never changes a successful automatic result:
      the interactive cascade returns the same payload whenever the
      non-interactive one returns any, and it can only add a chance. */
  lemma ManualEntryOnlyAddsChance(s: Sighting, b64: Base64Decoder)
    ensures QrDecode(s, false, b64).data.Some? ==> QrDecode(s, true, b64).data == QrDecode(s, false, b64).data
    ensures QrDecode(s, true, b64).data.None? ==> QrDecode(s, false, b64).data.None?
  {
  }
}
