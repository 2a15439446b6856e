/** The native core library (`jf_native_core`): the keyframe transcript parser and the
    aspect-ratio normalizer for probe JSON documents. */
module NativeCore {
  import opened Wrappers
  import opened Text
  import opened Seconds
  import Utf8

  type byte = Utf8.byte

  /** `NativeCoreError`: the input was not UTF-8, or not JSON. */
  datatype NativeCoreError = Utf8Error(validUpTo: nat) | JsonError(detail: string)

  /** The `Display` rendering `thiserror` derives for `NativeCoreError`. */
  function ErrorMessage(e: NativeCoreError): (m: string)
    ensures e.Utf8Error? ==> StartsWith(m, "invalid utf-8 input: ")
    ensures e.JsonError? ==> m == "invalid json payload: " + e.detail
  {
    match e
    case Utf8Error(n) => "invalid utf-8 input: " + "invalid utf-8 sequence from index " + NatToString(n)
    case JsonError(d) => "invalid json payload: " + d
  }

  /** `ParsedKeyframeData`. */
  datatype ParsedKeyframeData = ParsedKeyframeData(totalDurationTicks: int, keyframeTicks: seq<int>)

  // ---------------------------------------------------------------------------
  // Keyframe transcript parsing (`parse_ffprobe_keyframe_csv`)
  // ---------------------------------------------------------------------------

  function StripCarriageReturn(line: string): string {
    if |line| > 0 && line[|line| - 1] == '\r' then line[..|line| - 1] else line
  }

  /** Rust's `str::lines`: split at each '\n', drop one '\r' before a '\n', and produce no
      empty line after a final '\n'. */
  function Lines(s: string): (ls: seq<string>)
    ensures ls == [] <==> s == []
    ensures forall k :: 0 <= k < |ls| ==> '\n' !in ls[k]
    decreases |s|
  {
    if s == [] then []
    else
      var i := IndexOf(s, '\n');
      if i < 0 then [s]
      else
        assert '\n' !in s[..i];
        [StripCarriageReturn(s[..i])] + Lines(s[i + 1..])
  }

  datatype DurationTag = StreamDuration | FormatDuration

  function TagName(tag: DurationTag): string {
    match tag
    case StreamDuration => "stream"
    case FormatDuration => "format"
  }

  /** What the parser holds while it reads lines: the keyframes so far and the two
      durations (0 until a parseable line sets them). */
  datatype ScanState = ScanState(keyframes: seq<int>, streamDuration: Decimal, formatDuration: Decimal)
  {
    function Duration(tag: DurationTag): Decimal {
      match tag
      case StreamDuration => streamDuration
      case FormatDuration => formatDuration
    }
  }

  const InitialScan: ScanState := ScanState([], Zero, Zero)

  /** What one line does to the parser's state. */
  datatype LineEffect = NoEffect | AddKeyframe(seconds: Decimal) | SetDuration(tag: DurationTag, value: Decimal)

  /** The decision the body of the `for line in csv.lines()` loop takes for one line. */
  function Effect(raw: string): (e: LineEffect)
    ensures Trim(raw) == [] ==> e == NoEffect
    ensures e.AddKeyframe? ==> SplitOnce(Trim(raw), ',').0 == "packet"
    ensures e.SetDuration? ==> SplitOnce(Trim(raw), ',').0 == TagName(e.tag)
  {
    var line := Trim(raw);
    if line == [] then NoEffect
    else
      var (lineType, rest) := SplitOnce(line, ',');
      if lineType == "packet" then
        var (pts, flags) := SplitOnce(rest, ',');
        if StartsWith(flags, "K_") then
          match ParseSigned(pts)
          case Some(secs) => AddKeyframe(secs)
          case None => NoEffect
        else NoEffect
      else if lineType == "stream" then
        match ParseSigned(rest)
        case Some(d) => SetDuration(StreamDuration, d)
        case None => NoEffect
      else if lineType == "format" then
        match ParseSigned(rest)
        case Some(d) => SetDuration(FormatDuration, d)
        case None => NoEffect
      else NoEffect
  }

  function Apply(st: ScanState, e: LineEffect): ScanState {
    match e
    case NoEffect => st
    case AddKeyframe(secs) => st.(keyframes := st.keyframes + [Ticks(secs)])
    case SetDuration(StreamDuration, d) => st.(streamDuration := d)
    case SetDuration(FormatDuration, d) => st.(formatDuration := d)
  }

  function Effects(lines: seq<string>): (es: seq<LineEffect>)
    ensures |es| == |lines| && forall k :: 0 <= k < |lines| ==> es[k] == Effect(lines[k])
  {
    seq(|lines|, k requires 0 <= k < |lines| => Effect(lines[k]))
  }

  /** The state after applying `es` in order. */
  function ScanEffects(es: seq<LineEffect>): ScanState
    decreases |es|
  {
    if es == [] then InitialScan else Apply(ScanEffects(es[..|es| - 1]), es[|es| - 1])
  }

  lemma ScanEffectsStep(es: seq<LineEffect>, i: nat)
    requires i < |es|
    ensures ScanEffects(es[..i + 1]) == Apply(ScanEffects(es[..i]), es[i])
  {
    assert es[..i + 1][..i] == es[..i];
  }

  /** The state after reading `lines` in order. */
  function Scan(lines: seq<string>): ScanState {
    ScanEffects(Effects(lines))
  }

  /** The stream duration when it is positive, otherwise the format duration. */
  function Finish(st: ScanState): (d: ParsedKeyframeData)
    ensures d.keyframeTicks == st.keyframes
    ensures IsPositive(st.streamDuration) ==> d.totalDurationTicks == Ticks(st.streamDuration)
    ensures !IsPositive(st.streamDuration) ==> d.totalDurationTicks == Ticks(st.formatDuration)
  {
    var duration := if IsPositive(st.streamDuration) then st.streamDuration else st.formatDuration;
    ParsedKeyframeData(Ticks(duration), st.keyframes)
  }

  /** What `parse_ffprobe_keyframe_csv` returns for `input`. */
  function KeyframeCsvResult(input: seq<byte>): (r: Result<ParsedKeyframeData, NativeCoreError>)
    ensures r.Failure? <==> Utf8.Decode(input).Failure?
    ensures r.Failure? ==> r.error == Utf8Error(Utf8.Decode(input).error)
  {
    match Utf8.Decode(input)
    case Failure(n) => Failure(Utf8Error(n))
    case Success(csv) => Success(Finish(Scan(Lines(csv))))
  }

  method ParseFfprobeKeyframeCsv(input: seq<byte>) returns (r: Result<ParsedKeyframeData, NativeCoreError>)
    ensures r == KeyframeCsvResult(input)
  {
    var decoded := Utf8.Decode(input);
    if decoded.Failure? {
      return Failure(Utf8Error(decoded.error));
    }
    var csv := decoded.value;
    var keyframes: seq<int> := [];
    var streamDuration := Zero;
    var formatDuration := Zero;
    var lines := Lines(csv);
    ghost var es := Effects(lines);
    for i := 0 to |lines|
      invariant ScanState(keyframes, streamDuration, formatDuration) == ScanEffects(es[..i])
    {
      ScanEffectsStep(es, i);
      var line := Trim(lines[i]);
      if line == [] {
        continue;
      }
      var (lineType, rest) := SplitOnce(line, ',');
      if lineType == "packet" {
        var (pts, flags) := SplitOnce(rest, ',');
        if StartsWith(flags, "K_") {
          var secs := ParseSigned(pts);
          if secs.Some? {
            assert es[i] == AddKeyframe(secs.value);
            keyframes := keyframes + [Ticks(secs.value)];
          }
        }
      } else if lineType == "stream" {
        var d := ParseSigned(rest);
        if d.Some? {
          assert es[i] == SetDuration(StreamDuration, d.value);
          streamDuration := d.value;
        }
      } else if lineType == "format" {
        var d := ParseSigned(rest);
        if d.Some? {
          assert es[i] == SetDuration(FormatDuration, d.value);
          formatDuration := d.value;
        }
      }
    }
    assert es[..|lines|] == es;
    var duration := if IsPositive(streamDuration) then streamDuration else formatDuration;
    r := Success(ParsedKeyframeData(Ticks(duration), keyframes));
  }

  // Reference definitions of what a transcript yields, line by line.

  /** The keyframe a line contributes: a `packet` line (after trimming) whose flags start
      with `K_` and whose time parses. */
  function LineKeyframe(raw: string): Option<int> {
    var (lineType, rest) := SplitOnce(Trim(raw), ',');
    var (pts, flags) := SplitOnce(rest, ',');
    if lineType == "packet" && StartsWith(flags, "K_") && ParseSigned(pts).Some? then
      Some(Ticks(ParseSigned(pts).value))
    else None
  }

  /** The duration a `stream` (or `format`) line sets, if its value parses. */
  function LineDuration(raw: string, tag: DurationTag): Option<Decimal> {
    var (lineType, rest) := SplitOnce(Trim(raw), ',');
    if lineType == TagName(tag) then ParseSigned(rest) else None
  }

  /** The values present in `os`, in order. */
  function Present<T>(os: seq<Option<T>>): seq<T>
    decreases |os|
  {
    if os == [] then [] else (if os[0].Some? then [os[0].value] else []) + Present(os[1..])
  }

  /** The last value present in `os`, or `default`. */
  function LastPresent<T>(os: seq<Option<T>>, default: T): T
    decreases |os|
  {
    if os == [] then default
    else if os[|os| - 1].Some? then os[|os| - 1].value
    else LastPresent(os[..|os| - 1], default)
  }

  /** `f` applied to each line, in order. */
  function MapLines<T>(f: string -> T, lines: seq<string>): (os: seq<T>)
    ensures |os| == |lines| && forall k :: 0 <= k < |lines| ==> os[k] == f(lines[k])
  {
    seq(|lines|, k requires 0 <= k < |lines| => f(lines[k]))
  }

  lemma MapLinesAppend<T>(f: string -> T, a: seq<string>, b: seq<string>)
    ensures MapLines(f, a + b) == MapLines(f, a) + MapLines(f, b)
  {
    var joined := MapLines(f, a + b);
    var pieces := MapLines(f, a) + MapLines(f, b);
    forall k | 0 <= k < |joined| ensures joined[k] == pieces[k] {
      if k < |a| {
        assert (a + b)[k] == a[k];
      } else {
        assert (a + b)[k] == b[k - |a|];
      }
    }
  }

  function LineKeyframes(lines: seq<string>): (os: seq<Option<int>>)
    ensures |os| == |lines| && forall k :: 0 <= k < |lines| ==> os[k] == LineKeyframe(lines[k])
  {
    MapLines(LineKeyframe, lines)
  }

  function LineDurations(lines: seq<string>, tag: DurationTag): (os: seq<Option<Decimal>>)
    ensures |os| == |lines| && forall k :: 0 <= k < |lines| ==> os[k] == LineDuration(lines[k], tag)
  {
    seq(|lines|, k requires 0 <= k < |lines| => LineDuration(lines[k], tag))
  }

  /** The keyframes of `lines`, one per qualifying packet line, in the order of the lines. */
  function KeyframesOf(lines: seq<string>): seq<int> {
    Present(LineKeyframes(lines))
  }

  /** The duration of the last line of kind `tag` whose value parses, or 0 if none does. */
  function LastDuration(lines: seq<string>, tag: DurationTag): Decimal {
    LastPresent(LineDurations(lines, tag), Zero)
  }

  /** Present values are concatenated in order: nothing is sorted or deduplicated. */
  lemma {:induction false} PresentAppend<T>(a: seq<Option<T>>, b: seq<Option<T>>)
    ensures Present(a + b) == Present(a) + Present(b)
    decreases |a|
  {
    if a == [] {
      assert a + b == b;
    } else {
      assert (a + b)[0] == a[0];
      assert (a + b)[1..] == a[1..] + b;
      PresentAppend(a[1..], b);
    }
  }

  /** Keyframes of consecutive pieces of a transcript are concatenated in encounter order. */
  lemma KeyframesAppend(a: seq<string>, b: seq<string>)
    ensures KeyframesOf(a + b) == KeyframesOf(a) + KeyframesOf(b)
  {
    MapLinesAppend(LineKeyframe, a, b);
    PresentAppend(LineKeyframes(a), LineKeyframes(b));
  }

  function EffectKeyframe(e: LineEffect): Option<int> {
    if e.AddKeyframe? then Some(Ticks(e.seconds)) else None
  }

  function EffectDuration(e: LineEffect, tag: DurationTag): Option<Decimal> {
    if e.SetDuration? && e.tag == tag then Some(e.value) else None
  }

  function EffectKeyframes(es: seq<LineEffect>): (os: seq<Option<int>>)
    ensures |os| == |es| && forall k :: 0 <= k < |es| ==> os[k] == EffectKeyframe(es[k])
  {
    seq(|es|, k requires 0 <= k < |es| => EffectKeyframe(es[k]))
  }

  function EffectDurations(es: seq<LineEffect>, tag: DurationTag): (os: seq<Option<Decimal>>)
    ensures |os| == |es| && forall k :: 0 <= k < |es| ==> os[k] == EffectDuration(es[k], tag)
  {
    seq(|es|, k requires 0 <= k < |es| => EffectDuration(es[k], tag))
  }

  /** The decision the loop body takes for a line agrees with the reference definitions. */
  lemma EffectKeyframeAgrees(raw: string)
    ensures EffectKeyframe(Effect(raw)) == LineKeyframe(raw)
  {
    if Trim(raw) == [] {
      assert SplitOnce(Trim(raw), ',').0 == [];
    }
  }

  lemma EffectDurationAgrees(raw: string, tag: DurationTag)
    ensures EffectDuration(Effect(raw), tag) == LineDuration(raw, tag)
  {
    var lineType := SplitOnce(Trim(raw), ',').0;
    if Trim(raw) == [] {
      assert lineType == [];
      assert Effect(raw) == NoEffect;
    } else if lineType == "stream" || lineType == "format" {
      RecordDurationAgrees(raw, tag);
    } else {
      OtherLineSetsNoDuration(raw, tag);
    }
  }

  /** A `stream` or `format` line sets the duration of its own kind, when its value parses. */
  lemma RecordDurationAgrees(raw: string, tag: DurationTag)
    requires Trim(raw) != [] && SplitOnce(Trim(raw), ',').0 in {"stream", "format"}
    ensures EffectDuration(Effect(raw), tag) == LineDuration(raw, tag)
  {
    var (lineType, rest) := SplitOnce(Trim(raw), ',');
    var own := if lineType == "stream" then StreamDuration else FormatDuration;
    assert Effect(raw) == (match ParseSigned(rest) case Some(d) => SetDuration(own, d) case None => NoEffect);
    assert LineDuration(raw, tag) == if tag == own then ParseSigned(rest) else None;
  }

  /** Any other non-blank line, a `packet` line included, sets no duration. */
  lemma OtherLineSetsNoDuration(raw: string, tag: DurationTag)
    requires Trim(raw) != [] && SplitOnce(Trim(raw), ',').0 !in {"stream", "format"}
    ensures EffectDuration(Effect(raw), tag) == None && LineDuration(raw, tag) == None
  {
    assert !Effect(raw).SetDuration?;
  }

  lemma {:induction false} ScanEffectsKeyframes(es: seq<LineEffect>)
    ensures ScanEffects(es).keyframes == Present(EffectKeyframes(es))
    decreases |es|
  {
    if es != [] {
      var init := es[..|es| - 1];
      ScanEffectsKeyframes(init);
      assert EffectKeyframes(es) == EffectKeyframes(init) + [EffectKeyframe(es[|es| - 1])];
      PresentAppend(EffectKeyframes(init), [EffectKeyframe(es[|es| - 1])]);
    }
  }

  lemma {:induction false} ScanEffectsDuration(es: seq<LineEffect>, tag: DurationTag)
    ensures ScanEffects(es).Duration(tag) == LastPresent(EffectDurations(es, tag), Zero)
    decreases |es|
  {
    if es != [] {
      var init := es[..|es| - 1];
      ScanEffectsDuration(init, tag);
      assert EffectDurations(es, tag)[..|es| - 1] == EffectDurations(init, tag);
    }
  }

  /** The parser collects the keyframes of all qualifying packet lines, in line order. */
  lemma ScanKeyframes(lines: seq<string>)
    ensures Scan(lines).keyframes == KeyframesOf(lines)
  {
    ScanEffectsKeyframes(Effects(lines));
    KeyframesAgree(lines);
  }

  lemma KeyframesAgree(lines: seq<string>)
    ensures EffectKeyframes(Effects(lines)) == LineKeyframes(lines)
  {
    forall k | 0 <= k < |lines| ensures EffectKeyframes(Effects(lines))[k] == LineKeyframes(lines)[k] {
      EffectKeyframeAgrees(lines[k]);
    }
  }

  /** Each duration of the parser is the one of the last parseable line of its kind. */
  lemma ScanDuration(lines: seq<string>, tag: DurationTag)
    ensures Scan(lines).Duration(tag) == LastDuration(lines, tag)
  {
    ScanEffectsDuration(Effects(lines), tag);
    DurationsAgree(lines, tag);
  }

  lemma DurationsAgree(lines: seq<string>, tag: DurationTag)
    ensures EffectDurations(Effects(lines), tag) == LineDurations(lines, tag)
  {
    forall k | 0 <= k < |lines| ensures EffectDurations(Effects(lines), tag)[k] == LineDurations(lines, tag)[k] {
      EffectDurationAgrees(lines[k], tag);
    }
  }

  lemma {:induction false} LastPresentIs<T>(os: seq<Option<T>>, default: T, i: nat)
    requires i < |os| && os[i].Some?
    requires forall j :: i < j < |os| ==> os[j].None?
    ensures LastPresent(os, default) == os[i].value
    decreases |os|
  {
    if i < |os| - 1 {
      LastPresentIs(os[..|os| - 1], default, i);
    }
  }

  lemma {:induction false} LastPresentNone<T>(os: seq<Option<T>>, default: T)
    requires forall j :: 0 <= j < |os| ==> os[j].None?
    ensures LastPresent(os, default) == default
    decreases |os|
  {
    if os != [] {
      LastPresentNone(os[..|os| - 1], default);
    }
  }

  /** Last wins: the last parseable line of a kind decides, whatever came before it. */
  lemma LastDurationWins(lines: seq<string>, tag: DurationTag, i: nat)
    requires i < |lines| && LineDuration(lines[i], tag).Some?
    requires forall j :: i < j < |lines| ==> LineDuration(lines[j], tag).None?
    ensures LastDuration(lines, tag) == LineDuration(lines[i], tag).value
  {
    LastPresentIs(LineDurations(lines, tag), Zero, i);
  }

  /** With no parseable line of a kind, that duration stays 0. */
  lemma LastDurationDefault(lines: seq<string>, tag: DurationTag)
    requires forall j :: 0 <= j < |lines| ==> LineDuration(lines[j], tag).None?
    ensures LastDuration(lines, tag) == Zero
  {
    LastPresentNone(LineDurations(lines, tag), Zero);
  }

  /** The parser's result in terms of the reference definitions: the keyframes of all
      qualifying packet lines in order, and the stream duration if positive, else the
      format duration. */
  lemma ParseCharacterized(input: seq<byte>)
    requires Utf8.Decode(input).Success?
    ensures var lines := Lines(Utf8.Decode(input).value);
            var stream := LastDuration(lines, StreamDuration);
            var format := LastDuration(lines, FormatDuration);
            KeyframeCsvResult(input) == Success(ParsedKeyframeData(
              Ticks(if IsPositive(stream) then stream else format), KeyframesOf(lines)))
  {
    var lines := Lines(Utf8.Decode(input).value);
    ScanKeyframes(lines);
    ScanDuration(lines, StreamDuration);
    ScanDuration(lines, FormatDuration);
  }

  /** A transcript of blank lines only (the empty one included) gives duration 0 and no
      keyframes. */
  lemma BlankTranscript(input: seq<byte>)
    requires Utf8.Decode(input).Success?
    requires forall k :: 0 <= k < |Lines(Utf8.Decode(input).value)| ==> AllWhiteSpace(Lines(Utf8.Decode(input).value)[k])
    ensures KeyframeCsvResult(input) == Success(ParsedKeyframeData(0, []))
  {
    var lines := Lines(Utf8.Decode(input).value);
    forall k | 0 <= k < |lines| ensures Trim(lines[k]) == [] {
      TrimEmptyIffAllWhiteSpace(lines[k]);
    }
    BlankScan(lines);
  }

  lemma BlankScan(lines: seq<string>)
    requires forall k :: 0 <= k < |lines| ==> Trim(lines[k]) == []
    ensures Scan(lines) == InitialScan
  {
    NoEffectScan(Effects(lines));
  }

  lemma {:induction false} NoEffectScan(es: seq<LineEffect>)
    requires forall k :: 0 <= k < |es| ==> es[k] == NoEffect
    ensures ScanEffects(es) == InitialScan
    decreases |es|
  {
    if es != [] {
      NoEffectScan(es[..|es| - 1]);
    }
  }

  lemma EmptyTranscript()
    ensures KeyframeCsvResult([]) == Success(ParsedKeyframeData(0, []))
  {
  }

  /** Record types are compared case-sensitively, so any other spelling (`PACKET`,
      `Stream`) is ignored like an unknown record type. */
  lemma UnknownRecordIgnored(raw: string)
    requires SplitOnce(Trim(raw), ',').0 !in {"packet", "stream", "format"}
    ensures Effect(raw) == NoEffect
  {
  }

  // ---------------------------------------------------------------------------
  // Probe document normalization (`normalize_ffprobe_json`)
  // ---------------------------------------------------------------------------

  /** A JSON value (`serde_json::Value`); object member order is not modelled. */
  datatype Json =
    | JNull
    | JBool(b: bool)
    | JNumber(literal: string)
    | JString(text: string)
    | JArray(items: seq<Json>)
    | JObject(members: map<string, Json>)

  const DisplayAspectRatio: string := "display_aspect_ratio"
  const SampleAspectRatio: string := "sample_aspect_ratio"

  predicate IsAspectField(k: string) {
    k == DisplayAspectRatio || k == SampleAspectRatio
  }

  /** A string value ASCII-case-insensitively equal to "0:1". */
  predicate IsUnsetAspect(v: Json) {
    v.JString? && EqualsIgnoreAsciiCase(v.text, "0:1")
  }

  /** "0:1" has no letters, so the case-insensitive test matches exactly "0:1". */
  lemma UnsetAspectIsExact(v: Json)
    ensures IsUnsetAspect(v) <==> v == JString("0:1")
  {
    if v.JString? {
      EqualsIgnoreCaseWithoutLetters(v.text, "0:1");
    }
  }

  /** `normalize_aspect_field`: overwrite `field` of an object with "" when it holds an
      unset aspect ratio; leave everything else alone. */
  function NormalizeAspectField(stream: Json, field: string): (r: Json)
    ensures !stream.JObject? ==> r == stream
    ensures stream.JObject? ==> r.JObject? && r.members.Keys == stream.members.Keys
    ensures stream.JObject? ==> forall k :: k in stream.members ==>
      r.members[k] == if k == field && IsUnsetAspect(stream.members[k]) then JString("") else stream.members[k]
  {
    if stream.JObject? && field in stream.members && IsUnsetAspect(stream.members[field]) then
      JObject(stream.members[field := JString("")])
    else stream
  }

  /** What the loop body of `normalize_ffprobe_json` does to one stream. */
  function NormalizeStream(stream: Json): (r: Json)
    ensures !stream.JObject? ==> r == stream
    ensures stream.JObject? ==> r.JObject? && r.members.Keys == stream.members.Keys
    ensures stream.JObject? ==> forall k :: k in stream.members ==>
      r.members[k] == if IsAspectField(k) && IsUnsetAspect(stream.members[k]) then JString("") else stream.members[k]
  {
    NormalizeAspectField(NormalizeAspectField(stream, DisplayAspectRatio), SampleAspectRatio)
  }

  /** The document has a top-level `"streams"` member holding an array. */
  predicate HasStreams(doc: Json) {
    doc.JObject? && "streams" in doc.members && doc.members["streams"].JArray?
  }

  function Streams(doc: Json): seq<Json>
    requires HasStreams(doc)
  {
    doc.members["streams"].items
  }

  /** The normalized document: every element of the `"streams"` array normalized, in
      place and in order; a document without such an array is unchanged. */
  function NormalizedDocument(doc: Json): (r: Json)
    ensures !HasStreams(doc) ==> r == doc
    ensures HasStreams(doc) ==> HasStreams(r) && r.members.Keys == doc.members.Keys
    ensures HasStreams(doc) ==> forall k :: k in doc.members && k != "streams" ==> r.members[k] == doc.members[k]
    ensures HasStreams(doc) ==> |Streams(r)| == |Streams(doc)|
    ensures HasStreams(doc) ==> forall i :: 0 <= i < |Streams(doc)| ==> Streams(r)[i] == NormalizeStream(Streams(doc)[i])
  {
    if HasStreams(doc) then
      var items := Streams(doc);
      JObject(doc.members["streams" := JArray(seq(|items|, i requires 0 <= i < |items| => NormalizeStream(items[i])))])
    else doc
  }

  /** The in-place loop of `normalize_ffprobe_json` over the streams array. */
  method NormalizeFfprobeDocument(payload: Json) returns (r: Json)
    ensures r == NormalizedDocument(payload)
  {
    r := payload;
    if payload.JObject? && "streams" in payload.members && payload.members["streams"].JArray? {
      var streams := payload.members["streams"].items;
      var i := 0;
      while i < |streams|
        invariant 0 <= i <= |streams| == |Streams(payload)|
        invariant forall j :: 0 <= j < i ==> streams[j] == NormalizeStream(Streams(payload)[j])
        invariant forall j :: i <= j < |streams| ==> streams[j] == Streams(payload)[j]
      {
        streams := streams[i := NormalizeStream(streams[i])];
        i := i + 1;
      }
      r := JObject(payload.members["streams" := JArray(streams)]);
      assert Streams(r) == Streams(NormalizedDocument(payload));
    }
  }

  lemma NormalizeStreamIdempotent(stream: Json)
    ensures NormalizeStream(NormalizeStream(stream)) == NormalizeStream(stream)
  {
    if stream.JObject? {
      var once := NormalizeStream(stream);
      var twice := NormalizeStream(once);
      forall k | k in once.members ensures twice.members[k] == once.members[k] {
        if IsAspectField(k) && IsUnsetAspect(stream.members[k]) {
          assert once.members[k] == JString("");
          UnsetAspectIsExact(JString(""));
        }
      }
      assert twice.members == once.members;
    }
  }

  /** Normalizing twice is normalizing once. */
  lemma NormalizeIdempotent(doc: Json)
    ensures NormalizedDocument(NormalizedDocument(doc)) == NormalizedDocument(doc)
  {
    if HasStreams(doc) {
      var once := NormalizedDocument(doc);
      var twice := NormalizedDocument(once);
      forall i | 0 <= i < |Streams(once)| ensures Streams(twice)[i] == Streams(once)[i] {
        NormalizeStreamIdempotent(Streams(doc)[i]);
      }
      assert Streams(twice) == Streams(once);
      assert twice.members == once.members;
    }
  }

  /** The managed reference mapping applied to an aspect-ratio property: "0:1" (compared
      ignoring case) becomes "", anything else, null included, is kept. */
  function ManagedNormalizeAspect(value: Option<string>): (r: Option<string>)
    ensures value.None? ==> r.None?
    ensures r != value ==> r == Some("")
  {
    if value.Some? && EqualsIgnoreAsciiCase(value.value, "0:1") then Some("") else value
  }

  /** How the managed side reads an aspect-ratio property of a stream: a string, or
      null when the member is missing or not a string. */
  function ReadAspect(stream: Json, field: string): Option<string> {
    if stream.JObject? && field in stream.members && stream.members[field].JString? then
      Some(stream.members[field].text)
    else None
  }

  /** Per stream and per field, the native normalizer agrees with the managed mapping. */
  lemma NormalizeStreamMatchesManaged(stream: Json, field: string)
    requires IsAspectField(field)
    ensures ReadAspect(NormalizeStream(stream), field) == ManagedNormalizeAspect(ReadAspect(stream, field))
  {
  }

  /** Parity over the whole document: for every stream, in order, both aspect-ratio
      properties read the way the managed mapping says. */
  lemma NormalizeMatchesManaged(doc: Json)
    requires HasStreams(doc)
    ensures |Streams(NormalizedDocument(doc))| == |Streams(doc)|
    ensures forall i :: 0 <= i < |Streams(doc)| ==>
      ReadAspect(Streams(NormalizedDocument(doc))[i], DisplayAspectRatio)
        == ManagedNormalizeAspect(ReadAspect(Streams(doc)[i], DisplayAspectRatio))
      && ReadAspect(Streams(NormalizedDocument(doc))[i], SampleAspectRatio)
        == ManagedNormalizeAspect(ReadAspect(Streams(doc)[i], SampleAspectRatio))
  {
    forall i | 0 <= i < |Streams(doc)|
      ensures ReadAspect(Streams(NormalizedDocument(doc))[i], DisplayAspectRatio)
          == ManagedNormalizeAspect(ReadAspect(Streams(doc)[i], DisplayAspectRatio))
      ensures ReadAspect(Streams(NormalizedDocument(doc))[i], SampleAspectRatio)
          == ManagedNormalizeAspect(ReadAspect(Streams(doc)[i], SampleAspectRatio))
    {
      NormalizeStreamMatchesManaged(Streams(doc)[i], DisplayAspectRatio);
      NormalizeStreamMatchesManaged(Streams(doc)[i], SampleAspectRatio);
    }
  }

  /** The byte-level JSON codec of `serde_json`, which this model does not define. */
  datatype SerdeJson = SerdeJson(
    fromSlice: seq<byte> -> Result<Json, string>,
    toVec: Json -> seq<byte>,
    keyframeDataToVec: ParsedKeyframeData -> seq<byte>)

  /** What `normalize_ffprobe_json` returns for `input`. */
  function NormalizeJsonResult(serde: SerdeJson, input: seq<byte>): (r: Result<seq<byte>, NativeCoreError>)
    ensures r.Failure? <==> serde.fromSlice(input).Failure?
    ensures r.Failure? ==> r.error == JsonError(serde.fromSlice(input).error)
  {
    match serde.fromSlice(input)
    case Failure(msg) => Failure(JsonError(msg))
    case Success(doc) => Success(serde.toVec(NormalizedDocument(doc)))
  }

  method NormalizeFfprobeJson(serde: SerdeJson, input: seq<byte>) returns (r: Result<seq<byte>, NativeCoreError>)
    ensures r == NormalizeJsonResult(serde, input)
  {
    var parsed := serde.fromSlice(input);
    if parsed.Failure? {
      return Failure(JsonError(parsed.error));
    }
    var payload := NormalizeFfprobeDocument(parsed.value);
    r := Success(serde.toVec(payload));
  }
}
