/** `FfProbeKeyframeExtractor`: the managed keyframe transcript parser and the policy
    that chooses between it and the native one. */
module KeyframeExtractor {
  import opened Wrappers
  import opened Text
  import opened Seconds
  import Utf8
  import opened NativeCore
  import opened Clr
  import InteropRuntime

  /** `KeyframeData`. */
  datatype KeyframeData = KeyframeData(totalDuration: int, keyframeTicks: seq<int>)

  /** The line breaks `StringReader.ReadLine` recognises. */
  const LineBreaks: set<char> := {'\r', '\n'}

  /** The lines `StringReader.ReadLine` returns one by one until it returns null: each
      ends at "\r\n", '\r', '\n' or the end of the text, and the text's end gives no
      further empty line. */
  function ReadLines(s: string): (ls: seq<string>)
    ensures ls == [] <==> s == []
    ensures forall k :: 0 <= k < |ls| ==> '\r' !in ls[k] && '\n' !in ls[k]
    decreases |s|
  {
    if s == [] then []
    else
      var i := IndexOfAny(s, LineBreaks);
      if i < 0 then [s]
      else
        var next := if s[i] == '\r' && i + 1 < |s| && s[i + 1] == '\n' then i + 2 else i + 1;
        [s[..i]] + ReadLines(s[next..])
  }

  /** A line the managed loop body throws on: a non-empty line without a comma, or a
      packet record (its type in any case) without a second comma. */
  predicate ManagedLineThrows(line: string) {
    line != [] &&
    (',' !in line || (EqualsIgnoreAsciiCase(SplitOnce(line, ',').0, "packet") && ',' !in SplitOnce(line, ',').1))
  }

  /** What one line does in the managed loop; slicing with index -1 (no comma, or a
      packet line without a second comma) throws. */
  function ManagedEffect(line: string): (r: Result<LineEffect, Exception>)
    ensures r.Failure? <==> ManagedLineThrows(line)
    ensures r.Failure? ==> r.error == ArgumentOutOfRange
  {
    if line == [] then Success(NoEffect)
    else
      var firstComma := IndexOf(line, ',');
      if firstComma < 0 then Failure(ArgumentOutOfRange)
      else RecordEffect(line[..firstComma], line[firstComma + 1..])
  }

  /** What a record of type `lineType` does, its type matched ignoring case. */
  function RecordEffect(lineType: string, rest: string): (r: Result<LineEffect, Exception>)
    ensures r.Failure? <==> EqualsIgnoreAsciiCase(lineType, "packet") && ',' !in rest
    ensures r.Failure? ==> r.error == ArgumentOutOfRange
    ensures r.Success? && r.value.AddKeyframe? ==> EqualsIgnoreAsciiCase(lineType, "packet")
    ensures r.Success? && r.value.SetDuration? ==>
      EqualsIgnoreAsciiCase(lineType, TagName(r.value.tag)) && ParseUnsigned(rest) == Some(r.value.value)
  {
    if EqualsIgnoreAsciiCase(lineType, "packet") then PacketEffect(rest)
    else if EqualsIgnoreAsciiCase(lineType, "stream") then Success(DurationEffect(StreamDuration, ParseUnsigned(rest)))
    else if EqualsIgnoreAsciiCase(lineType, "format") then Success(DurationEffect(FormatDuration, ParseUnsigned(rest)))
    else Success(NoEffect)
  }

  /** A packet record: its time is kept when its flags start with `K_`. */
  function PacketEffect(rest: string): (r: Result<LineEffect, Exception>)
    ensures r.Failure? <==> ',' !in rest
    ensures r.Failure? ==> r.error == ArgumentOutOfRange
    ensures r.Success? ==> !r.value.SetDuration?
    ensures r.Success? && r.value.AddKeyframe? ==>
      StartsWith(SplitOnce(rest, ',').1, "K_") && ParseUnsigned(SplitOnce(rest, ',').0) == Some(r.value.seconds)
  {
    var secondComma := IndexOf(rest, ',');
    if secondComma < 0 then Failure(ArgumentOutOfRange)
    else
      var ptsTime := rest[..secondComma];
      var flags := rest[secondComma + 1..];
      if StartsWith(flags, "K_") then
        match ParseUnsigned(ptsTime)
        case Some(keyframe) => Success(AddKeyframe(keyframe))
        case None => Success(NoEffect)
      else Success(NoEffect)
  }

  /** A parsed duration sets the duration of kind `tag`; an unparseable one does nothing. */
  function DurationEffect(tag: DurationTag, d: Option<Decimal>): (e: LineEffect)
    ensures !e.AddKeyframe?
    ensures e.SetDuration? <==> d.Some?
    ensures e.SetDuration? ==> e.tag == tag && e.value == d.value
  {
    match d
    case Some(v) => SetDuration(tag, v)
    case None => NoEffect
  }

  function ManagedEffects(lines: seq<string>): (rs: seq<Result<LineEffect, Exception>>)
    ensures |rs| == |lines| && forall k :: 0 <= k < |lines| ==> rs[k] == ManagedEffect(lines[k])
  {
    seq(|lines|, k requires 0 <= k < |lines| => ManagedEffect(lines[k]))
  }

  /** The state after one line's managed effect, or the exception it throws. */
  function StepManaged(st: ScanState, r: Result<LineEffect, Exception>): Result<ScanState, Exception> {
    match r
    case Failure(e) => Failure(e)
    case Success(effect) => Success(Apply(st, effect))
  }

  /** The state after the effects `rs` in order; the first exception ends the scan. */
  function ScanManaged(rs: seq<Result<LineEffect, Exception>>): Result<ScanState, Exception>
    decreases |rs|
  {
    if rs == [] then Success(InitialScan)
    else
      match ScanManaged(rs[..|rs| - 1])
      case Failure(e) => Failure(e)
      case Success(st) => StepManaged(st, rs[|rs| - 1])
  }

  function ToKeyframeData(d: ParsedKeyframeData): KeyframeData {
    KeyframeData(d.totalDurationTicks, d.keyframeTicks)
  }

  /** The state after reading `lines` in order with the managed loop body. */
  function ScanLines(lines: seq<string>): (r: Result<ScanState, Exception>)
    ensures r.Failure? ==> r.error == ArgumentOutOfRange
    decreases |lines|
  {
    if lines == [] then Success(InitialScan)
    else
      match ScanLines(lines[..|lines| - 1])
      case Failure(e) => Failure(e)
      case Success(st) => StepManaged(st, ManagedEffect(lines[|lines| - 1]))
  }

  /** Reading the lines is scanning their effects. */
  lemma {:induction false} ScanLinesEffects(lines: seq<string>)
    ensures ScanLines(lines) == ScanManaged(ManagedEffects(lines))
    decreases |lines|
  {
    if lines != [] {
      var init := lines[..|lines| - 1];
      ScanLinesEffects(init);
      assert ManagedEffects(lines)[..|lines| - 1] == ManagedEffects(init);
    }
  }

  /** What `ParseStreamManaged` returns for `input`, or the exception it throws. */
  function ManagedResult(input: string): (r: Result<KeyframeData, Exception>)
    ensures r.Failure? ==> r.error == ArgumentOutOfRange
  {
    match ScanLines(ReadLines(input))
    case Failure(e) => Failure(e)
    case Success(st) => Success(ToKeyframeData(Finish(st)))
  }

  lemma {:induction false} FailureSticks(rs: seq<Result<LineEffect, Exception>>, i: nat, j: nat)
    requires i < j <= |rs| && ScanManaged(rs[..i]).Success? && rs[i].Failure?
    ensures ScanManaged(rs[..j]) == Failure(rs[i].error)
    decreases j
  {
    assert rs[..j][..j - 1] == rs[..j - 1];
    if j > i + 1 {
      FailureSticks(rs, i, j - 1);
    }
  }

  lemma ScanLinesStep(lines: seq<string>, i: nat)
    requires i < |lines| && ScanLines(lines[..i]).Success?
    ensures ScanLines(lines[..i + 1]) == StepManaged(ScanLines(lines[..i]).value, ManagedEffect(lines[i]))
  {
    assert lines[..i + 1][..i] == lines[..i];
  }

  lemma LinesFailureSticks(lines: seq<string>, i: nat, j: nat)
    requires i < j <= |lines| && ScanLines(lines[..i]).Success? && ManagedEffect(lines[i]).Failure?
    ensures ScanLines(lines[..j]) == Failure(ManagedEffect(lines[i]).error)
  {
    var rs := ManagedEffects(lines);
    ScanLinesEffects(lines[..i]);
    ScanLinesEffects(lines[..j]);
    assert ManagedEffects(lines[..i]) == rs[..i];
    assert ManagedEffects(lines[..j]) == rs[..j];
    FailureSticks(rs, i, j);
  }

  /** A line that throws, after lines that did not, ends the parse with its exception. */
  lemma ManagedFailsAt(input: string, i: nat)
    requires i < |ReadLines(input)| && ScanLines(ReadLines(input)[..i]).Success?
    requires ManagedEffect(ReadLines(input)[i]).Failure?
    ensures ManagedResult(input) == Failure(ManagedEffect(ReadLines(input)[i]).error)
  {
    var lines := ReadLines(input);
    LinesFailureSticks(lines, i, |lines|);
    assert lines[..|lines|] == lines;
  }

  /** The body of the `ParseStreamManaged` loop for one line, given the keyframes and
      durations read so far. */
  method ReadManagedLine(line: string, keyframes0: seq<int>, streamDuration0: Decimal, formatDuration0: Decimal)
    returns (r: Result<ScanState, Exception>)
    ensures r == StepManaged(ScanState(keyframes0, streamDuration0, formatDuration0), ManagedEffect(line))
  {
    var st := ScanState(keyframes0, streamDuration0, formatDuration0);
    if line == [] {
      return Success(st);
    }
    var firstComma := IndexOf(line, ',');
    if firstComma < 0 {
      return Failure(ArgumentOutOfRange);
    }
    var lineType := line[..firstComma];
    var rest := line[firstComma + 1..];
    assert ManagedEffect(line) == RecordEffect(lineType, rest);
    if EqualsIgnoreAsciiCase(lineType, "packet") {
      r := ReadPacketRecord(rest, st);
    } else if EqualsIgnoreAsciiCase(lineType, "stream") {
      var next := ReadDurationRecord(StreamDuration, rest, st);
      r := Success(next);
    } else if EqualsIgnoreAsciiCase(lineType, "format") {
      var next := ReadDurationRecord(FormatDuration, rest, st);
      r := Success(next);
    } else {
      r := Success(st);
    }
  }

  /** The `stream` and `format` branches of the loop body: a parseable value replaces
      the duration of that kind, anything else leaves it. */
  method ReadDurationRecord(tag: DurationTag, rest: string, st: ScanState) returns (next: ScanState)
    ensures next == Apply(st, DurationEffect(tag, ParseUnsigned(rest)))
  {
    next := st;
    var d := ParseUnsigned(rest);
    if d.Some? {
      match tag
      case StreamDuration => next := st.(streamDuration := d.value);
      case FormatDuration => next := st.(formatDuration := d.value);
    }
  }

  /** The packet branch of the loop body: split time and flags at the second comma and
      keep the time of a `K_` packet whose time parses. */
  method ReadPacketRecord(rest: string, st: ScanState) returns (r: Result<ScanState, Exception>)
    ensures r == StepManaged(st, PacketEffect(rest))
  {
    var secondComma := IndexOf(rest, ',');
    if secondComma < 0 {
      return Failure(ArgumentOutOfRange);
    }
    var ptsTime := rest[..secondComma];
    var flags := rest[secondComma + 1..];
    var keyframes := st.keyframes;
    if StartsWith(flags, "K_") {
      var keyframe := ParseUnsigned(ptsTime);
      if keyframe.Some? {
        keyframes := keyframes + [Ticks(keyframe.value)];
      }
    }
    r := Success(st.(keyframes := keyframes));
  }

  /** `ParseStreamManaged`: the lines in order, the first line that throws ending the
      parse. */
  method ParseStreamManaged(input: string) returns (r: Result<KeyframeData, Exception>)
    ensures r == ManagedResult(input)
  {
    var keyframes: seq<int> := [];
    var streamDuration := Zero;
    var formatDuration := Zero;
    var lines := ReadLines(input);
    var i := 0;
    while i < |lines|
      invariant 0 <= i <= |lines|
      invariant ScanLines(lines[..i]) == Success(ScanState(keyframes, streamDuration, formatDuration))
    {
      ScanLinesStep(lines, i);
      var step := ReadManagedLine(lines[i], keyframes, streamDuration, formatDuration);
      if step.Failure? {
        ManagedFailsAt(input, i);
        return Failure(step.error);
      }
      keyframes, streamDuration, formatDuration := step.value.keyframes, step.value.streamDuration, step.value.formatDuration;
      i := i + 1;
    }
    assert lines[..|lines|] == lines;
    var duration := if IsPositive(streamDuration) then streamDuration else formatDuration;
    r := Success(KeyframeData(Ticks(duration), keyframes));
  }

  // Properties of the managed parser.

  lemma {:induction false} ScanManagedAllSuccess(rs: seq<Result<LineEffect, Exception>>, es: seq<LineEffect>)
    requires |rs| == |es| && forall k :: 0 <= k < |rs| ==> rs[k] == Success(es[k])
    ensures ScanManaged(rs) == Success(ScanEffects(es))
    decreases |rs|
  {
    if rs != [] {
      ScanManagedAllSuccess(rs[..|rs| - 1], es[..|es| - 1]);
    }
  }

  lemma {:induction false} ScanManagedSucceeds(rs: seq<Result<LineEffect, Exception>>)
    requires ScanManaged(rs).Success?
    ensures AllSucceed(rs)
    decreases |rs|
  {
    if rs != [] {
      ScanManagedSucceeds(rs[..|rs| - 1]);
      assert forall k :: 0 <= k < |rs| - 1 ==> rs[..|rs| - 1][k] == rs[k];
    }
  }

  /** No line throws. */
  predicate AllSucceed(rs: seq<Result<LineEffect, Exception>>) {
    forall k :: 0 <= k < |rs| ==> rs[k].Success?
  }

  function Values(rs: seq<Result<LineEffect, Exception>>): (es: seq<LineEffect>)
    requires AllSucceed(rs)
    ensures |es| == |rs| && forall k :: 0 <= k < |rs| ==> rs[k] == Success(es[k])
  {
    seq(|rs|, k requires 0 <= k < |rs| => rs[k].value)
  }

  /** The managed parser succeeds exactly when no line throws, and then keeps one
      keyframe per line that adds one, in line order, and each duration of the last line
      that sets it, preferring a positive stream duration. */
  lemma ManagedCharacterized(input: string)
    ensures ManagedResult(input).Success? <==> AllSucceed(ManagedEffects(ReadLines(input)))
    ensures AllSucceed(ManagedEffects(ReadLines(input))) ==>
      var es := Values(ManagedEffects(ReadLines(input)));
      var stream := LastPresent(EffectDurations(es, StreamDuration), Zero);
      var format := LastPresent(EffectDurations(es, FormatDuration), Zero);
      ManagedResult(input) == Success(KeyframeData(
        Ticks(if IsPositive(stream) then stream else format), Present(EffectKeyframes(es))))
  {
    ScanLinesEffects(ReadLines(input));
    var rs := ManagedEffects(ReadLines(input));
    if ManagedResult(input).Success? {
      ScanManagedSucceeds(rs);
    }
    if AllSucceed(rs) {
      var es := Values(rs);
      ScanManagedAllSuccess(rs, es);
      ScanEffectsKeyframes(es);
      ScanEffectsDuration(es, StreamDuration);
      ScanEffectsDuration(es, FormatDuration);
    }
  }

  /** The first line that throws decides the outcome. */
  lemma ManagedThrowsAtFirstBadLine(input: string, i: nat)
    requires var rs := ManagedEffects(ReadLines(input));
      i < |rs| && rs[i].Failure? && forall k :: 0 <= k < i ==> rs[k].Success?
    ensures ManagedResult(input) == Failure(ArgumentOutOfRange)
  {
    ScanLinesEffects(ReadLines(input));
    var rs := ManagedEffects(ReadLines(input));
    var es := seq(i, k requires 0 <= k < i => rs[k].value);
    ScanManagedAllSuccess(rs[..i], es);
    FailureSticks(rs, i, |rs|);
    assert rs[..|rs|] == rs;
    assert ManagedEffect(ReadLines(input)[i]).Failure?;
  }

  // Reference definitions of what the managed parser reads from a line.

  /** The keyframe a line gives the managed parser: a record whose type is `packet` in
      any case, whose flags after the second comma start with `K_` and whose time parses
      without a sign. */
  function ManagedLineKeyframe(line: string): Option<int> {
    var (lineType, rest) := SplitOnce(line, ',');
    var (pts, flags) := SplitOnce(rest, ',');
    if EqualsIgnoreAsciiCase(lineType, "packet") && StartsWith(flags, "K_") && ParseUnsigned(pts).Some? then
      Some(Ticks(ParseUnsigned(pts).value))
    else None
  }

  /** The duration a `stream` (or `format`) record, its type in any case, sets. */
  function ManagedLineDuration(line: string, tag: DurationTag): Option<Decimal> {
    var (lineType, rest) := SplitOnce(line, ',');
    if EqualsIgnoreAsciiCase(lineType, TagName(tag)) then ParseUnsigned(rest) else None
  }

  function ManagedLineKeyframes(lines: seq<string>): (os: seq<Option<int>>)
    ensures |os| == |lines| && forall k :: 0 <= k < |lines| ==> os[k] == ManagedLineKeyframe(lines[k])
  {
    seq(|lines|, k requires 0 <= k < |lines| => ManagedLineKeyframe(lines[k]))
  }

  function ManagedLineDurations(lines: seq<string>, tag: DurationTag): (os: seq<Option<Decimal>>)
    ensures |os| == |lines| && forall k :: 0 <= k < |lines| ==> os[k] == ManagedLineDuration(lines[k], tag)
  {
    seq(|lines|, k requires 0 <= k < |lines| => ManagedLineDuration(lines[k], tag))
  }

  /** No record type matches two of `packet`, `stream` and `format`. */
  lemma RecordTypesDisjoint(t: string)
    ensures !(EqualsIgnoreAsciiCase(t, "packet") && EqualsIgnoreAsciiCase(t, "stream"))
    ensures !(EqualsIgnoreAsciiCase(t, "packet") && EqualsIgnoreAsciiCase(t, "format"))
    ensures !(EqualsIgnoreAsciiCase(t, "stream") && EqualsIgnoreAsciiCase(t, "format"))
  {
    if |t| == 6 {
      assert AsciiLower('p') == 'p' && AsciiLower('s') == 's' && AsciiLower('f') == 'f';
      assert "packet"[0] == 'p' && "stream"[0] == 's' && "format"[0] == 'f';
    }
  }

  /** On a line it does not throw on, the managed loop body adds the reference keyframe
      and sets the reference durations. */
  lemma ManagedEffectAgrees(line: string, tag: DurationTag)
    requires !ManagedLineThrows(line)
    ensures EffectKeyframe(ManagedEffect(line).value) == ManagedLineKeyframe(line)
    ensures EffectDuration(ManagedEffect(line).value, tag) == ManagedLineDuration(line, tag)
  {
    if line == [] {
      assert SplitOnce(line, ',') == ([], []);
    } else {
      SplitOnceAgrees(line);
      var (lineType, rest) := SplitOnce(line, ',');
      assert ManagedEffect(line) == RecordEffect(lineType, rest);
      RecordTypesDisjoint(lineType);
      if EqualsIgnoreAsciiCase(lineType, "packet") {
        SplitOnceAgrees(rest);
        assert RecordEffect(lineType, rest) == PacketEffect(rest);
      }
    }
  }

  /** No line of `lines` throws. */
  predicate NoLineThrows(lines: seq<string>) {
    forall k :: 0 <= k < |lines| ==> !ManagedLineThrows(lines[k])
  }

  lemma NoLineThrowsIffAllSucceed(lines: seq<string>)
    ensures NoLineThrows(lines) <==> AllSucceed(ManagedEffects(lines))
  {
  }

  lemma ManagedKeyframesAgree(lines: seq<string>)
    requires NoLineThrows(lines)
    ensures AllSucceed(ManagedEffects(lines))
    ensures EffectKeyframes(Values(ManagedEffects(lines))) == ManagedLineKeyframes(lines)
  {
    var es := Values(ManagedEffects(lines));
    forall k | 0 <= k < |lines| ensures EffectKeyframes(es)[k] == ManagedLineKeyframes(lines)[k] {
      ManagedEffectAgrees(lines[k], StreamDuration);
    }
  }

  lemma ManagedDurationsAgree(lines: seq<string>, tag: DurationTag)
    requires NoLineThrows(lines)
    ensures AllSucceed(ManagedEffects(lines))
    ensures EffectDurations(Values(ManagedEffects(lines)), tag) == ManagedLineDurations(lines, tag)
  {
    var es := Values(ManagedEffects(lines));
    forall k | 0 <= k < |lines| ensures EffectDurations(es, tag)[k] == ManagedLineDurations(lines, tag)[k] {
      ManagedEffectAgrees(lines[k], tag);
    }
  }

  /** The managed parser without its loop body: it succeeds exactly when no line
      throws, and then yields the reference keyframes in line order and the last
      reference duration of each kind, a positive stream duration preferred. */
  lemma ManagedReference(input: string)
    ensures ManagedResult(input).Success? <==> NoLineThrows(ReadLines(input))
    ensures NoLineThrows(ReadLines(input)) ==>
      var lines := ReadLines(input);
      var stream := LastPresent(ManagedLineDurations(lines, StreamDuration), Zero);
      var format := LastPresent(ManagedLineDurations(lines, FormatDuration), Zero);
      ManagedResult(input) == Success(KeyframeData(
        Ticks(if IsPositive(stream) then stream else format), Present(ManagedLineKeyframes(lines))))
  {
    var lines := ReadLines(input);
    ManagedCharacterized(input);
    NoLineThrowsIffAllSucceed(lines);
    if NoLineThrows(lines) {
      ManagedKeyframesAgree(lines);
      ManagedDurationsAgree(lines, StreamDuration);
      ManagedDurationsAgree(lines, FormatDuration);
    }
  }

  lemma EmptyInputManaged()
    ensures ManagedResult("") == Success(KeyframeData(0, []))
  {
  }

  /** A non-empty line without a comma throws. */
  lemma ManagedNoCommaThrows(line: string)
    requires line != [] && ',' !in line
    ensures ManagedEffect(line) == Failure(ArgumentOutOfRange)
  {
  }

  /** So does a line of white space only, which the native parser skips. */
  lemma WhiteSpaceLineDiffers(line: string)
    requires line != [] && AllWhiteSpace(line)
    ensures ManagedEffect(line) == Failure(ArgumentOutOfRange)
    ensures Effect(line) == NoEffect
  {
    TrimEmptyIffAllWhiteSpace(line);
    assert !IsWhiteSpace(',');
    assert ',' !in line;
    ManagedNoCommaThrows(line);
  }

  /** A packet line (in any case) without a second comma throws. */
  lemma ManagedPacketWithoutFlagsThrows(lineType: string, rest: string)
    requires EqualsIgnoreAsciiCase(lineType, "packet") && ',' !in rest
    ensures ManagedEffect(lineType + "," + rest) == Failure(ArgumentOutOfRange)
  {
    SplitAtComma(lineType, rest);
  }

  /** The record type is matched ignoring ASCII case. */
  lemma ManagedIgnoresTypeCase(a: string, b: string, rest: string)
    requires EqualsIgnoreAsciiCase(a, b) && ',' !in a && ',' !in b
    ensures ManagedEffect(a + "," + rest) == ManagedEffect(b + "," + rest)
  {
    SplitAtComma(a, rest);
    SplitAtComma(b, rest);
    assert ManagedEffect(a + "," + rest) == RecordEffect(a, rest);
    assert ManagedEffect(b + "," + rest) == RecordEffect(b, rest);
    forall lit: string | EqualsIgnoreAsciiCase(a, lit) ensures EqualsIgnoreAsciiCase(b, lit) {
    }
    forall lit: string | EqualsIgnoreAsciiCase(b, lit) ensures EqualsIgnoreAsciiCase(a, lit) {
    }
  }

  /** Other record types are ignored. */
  lemma ManagedUnknownIgnored(lineType: string, rest: string)
    requires ',' !in lineType
    requires !EqualsIgnoreAsciiCase(lineType, "packet") && !EqualsIgnoreAsciiCase(lineType, "stream")
    requires !EqualsIgnoreAsciiCase(lineType, "format")
    ensures ManagedEffect(lineType + "," + rest) == Success(NoEffect)
  {
    SplitAtComma(lineType, rest);
  }

  lemma SplitAtComma(lineType: string, rest: string)
    requires ',' !in lineType
    ensures var line := lineType + "," + rest;
      IndexOf(line, ',') == |lineType| && line[..|lineType|] == lineType && line[|lineType| + 1..] == rest
  {
    var line := lineType + "," + rest;
    assert line[|lineType|] == ',';
    assert line[..|lineType|] == lineType;
    assert line[|lineType| + 1..] == rest;
  }

  // Parity with the native parser.

  /** No leading sign: the managed number syntax and the native one then agree. */
  predicate Unsigned(v: string) {
    !(|v| > 0 && (v[0] == '+' || v[0] == '-'))
  }

  /** A line both parsers read alike: empty, or a record with a comma, no surrounding
      white space, a record type that is lower-case if it is one of the three, a second
      comma on packet lines and no sign on the number. */
  predicate CleanLine(line: string) {
    line == [] ||
    (',' in line && !IsWhiteSpace(line[0]) && !IsWhiteSpace(line[|line| - 1])
     && var (lineType, rest) := SplitOnce(line, ',');
      (EqualsIgnoreAsciiCase(lineType, "packet") ==>
        lineType == "packet" && ',' in rest && Unsigned(SplitOnce(rest, ',').0))
      && (EqualsIgnoreAsciiCase(lineType, "stream") ==> lineType == "stream" && Unsigned(rest))
      && (EqualsIgnoreAsciiCase(lineType, "format") ==> lineType == "format" && Unsigned(rest)))
  }

  lemma SplitOnceAgrees(s: string)
    requires ',' in s
    ensures IndexOf(s, ',') >= 0
    ensures SplitOnce(s, ',') == (s[..IndexOf(s, ',')], s[IndexOf(s, ',') + 1..])
  {
  }

  lemma EqualsIgnoreCaseRefl(s: string)
    ensures EqualsIgnoreAsciiCase(s, s)
  {
  }

  /** On a clean line the managed loop body does what the native one does. */
  lemma CleanLineAgrees(line: string)
    requires CleanLine(line)
    ensures ManagedEffect(line) == Success(Effect(line))
  {
    if line != [] {
      TrimOfTrimmed(line);
      SplitOnceAgrees(line);
      var (lineType, rest) := SplitOnce(line, ',');
      assert ManagedEffect(line) == RecordEffect(lineType, rest);
      EqualsIgnoreCaseRefl(lineType);
      if lineType == "packet" {
        SplitOnceAgrees(rest);
        var (pts, flags) := SplitOnce(rest, ',');
        assert ParseSigned(pts) == ParseUnsigned(pts);
        assert RecordEffect(lineType, rest) == PacketEffect(rest);
      } else if lineType == "stream" {
        assert ParseSigned(rest) == ParseUnsigned(rest);
        assert RecordEffect(lineType, rest) == Success(DurationEffect(StreamDuration, ParseUnsigned(rest)));
      } else if lineType == "format" {
        assert ParseSigned(rest) == ParseUnsigned(rest);
        assert RecordEffect(lineType, rest) == Success(DurationEffect(FormatDuration, ParseUnsigned(rest)));
      } else {
        assert RecordEffect(lineType, rest) == Success(NoEffect);
      }
    }
  }

  /** Every carriage return in `s` is the first half of a "\r\n" pair, as in the
      transcript of `ffprobe` on Windows. */
  predicate CarriageReturnsPaired(s: string) {
    forall i :: 0 <= i < |s| && s[i] == '\r' ==> i + 1 < |s| && s[i + 1] == '\n'
  }

  lemma CarriageReturnsPairedSuffix(s: string, m: nat)
    requires CarriageReturnsPaired(s) && m <= |s|
    ensures CarriageReturnsPaired(s[m..])
  {
    forall i | 0 <= i < |s[m..]| && s[m..][i] == '\r' ensures i + 1 < |s[m..]| && s[m..][i + 1] == '\n' {
      assert s[m + i] == '\r';
    }
  }

  /** When every carriage return is paired with a line feed, `ReadLine` and
      `str::lines` split the text into the same lines. */
  lemma {:induction false} ReadLinesMatchLines(s: string)
    requires CarriageReturnsPaired(s)
    ensures ReadLines(s) == Lines(s)
    decreases |s|
  {
    if s != [] {
      var i := IndexOfAny(s, LineBreaks);
      if i < 0 {
        NoLineBreak(s);
      } else {
        FirstBreak(s, i);
        if s[i] == '\n' {
          LineFeedReadLines(s, i);
          LineFeedLines(s, i);
          CarriageReturnsPairedSuffix(s, i + 1);
          ReadLinesMatchLines(s[i + 1..]);
        } else {
          assert i + 1 < |s| && s[i + 1] == '\n';
          PairReadLines(s, i);
          PairLines(s, i);
          CarriageReturnsPairedSuffix(s, i + 2);
          ReadLinesMatchLines(s[i + 2..]);
        }
      }
    }
  }

  lemma NoLineBreak(s: string)
    requires s != [] && IndexOfAny(s, LineBreaks) < 0
    ensures ReadLines(s) == [s] == Lines(s)
  {
    assert '\n' in LineBreaks;
    assert '\n' !in s;
  }

  /** The first line break is a carriage return or a line feed, and none comes before it. */
  lemma FirstBreak(s: string, i: int)
    requires 0 <= i && i == IndexOfAny(s, LineBreaks)
    ensures s[i] == '\r' || s[i] == '\n'
    ensures forall j :: 0 <= j < i ==> s[j] != '\r' && s[j] != '\n'
  {
    assert LineBreaks == {'\r', '\n'};
  }

  lemma FirstIndexOf(s: string, c: char, i: nat)
    requires i < |s| && s[i] == c && forall j :: 0 <= j < i ==> s[j] != c
    ensures IndexOf(s, c) == i
  {
    var k := IndexOf(s, c);
    assert c in s[..i + 1] by {
      assert s[..i + 1][i] == c;
    }
  }

  lemma LineFeedReadLines(s: string, i: nat)
    requires s != [] && i == IndexOfAny(s, LineBreaks) && i < |s| && s[i] == '\n'
    ensures ReadLines(s) == [s[..i]] + ReadLines(s[i + 1..])
  {
  }

  lemma LineFeedLines(s: string, i: nat)
    requires i < |s| && s[i] == '\n'
    requires forall j :: 0 <= j < i ==> s[j] != '\r' && s[j] != '\n'
    ensures Lines(s) == [s[..i]] + Lines(s[i + 1..])
  {
    FirstIndexOf(s, '\n', i);
    if i > 0 {
      assert s[..i][i - 1] == s[i - 1];
    }
  }

  lemma PairReadLines(s: string, i: nat)
    requires s != [] && i == IndexOfAny(s, LineBreaks) && i + 1 < |s| && s[i] == '\r' && s[i + 1] == '\n'
    ensures ReadLines(s) == [s[..i]] + ReadLines(s[i + 2..])
  {
  }

  lemma PairLines(s: string, i: nat)
    requires i + 1 < |s| && s[i] == '\r' && s[i + 1] == '\n'
    requires forall j :: 0 <= j < i ==> s[j] != '\r' && s[j] != '\n'
    ensures Lines(s) == [s[..i]] + Lines(s[i + 2..])
  {
    FirstIndexOf(s, '\n', i + 1);
    assert s[..i + 1][..i] == s[..i];
    assert s[..i + 1][i] == '\r';
  }

  /** A carriage return on its own ends a line for `ReadLine` but not for `str::lines`. */
  lemma LoneCarriageReturnSplitsOnlyManaged()
    ensures ReadLines("a\rb") == ["a", "b"]
    ensures Lines("a\rb") == ["a\rb"]
  {
    assert LineBreaks == {'\r', '\n'};
    assert IndexOfAny("a\rb", LineBreaks) == 1;
    assert "a\rb"[..1] == "a" && "a\rb"[2..] == "b";
    assert IndexOfAny("b", LineBreaks) == -1;
    assert ReadLines("b") == ["b"];
    assert IndexOf("a\rb", '\n') == -1;
  }

  /** On a transcript whose carriage returns all precede a line feed and whose lines
      are all clean, both parsers produce the same keyframes and the same duration. */
  lemma ManagedMatchesNative(input: string)
    requires CarriageReturnsPaired(input)
    requires forall k :: 0 <= k < |ReadLines(input)| ==> CleanLine(ReadLines(input)[k])
    ensures KeyframeCsvResult(Utf8.Encode(input)).Success?
    ensures ManagedResult(input) == Success(ToKeyframeData(KeyframeCsvResult(Utf8.Encode(input)).value))
  {
    Utf8.DecodeEncode(input);
    ReadLinesMatchLines(input);
    var lines := ReadLines(input);
    ScanLinesEffects(lines);
    var rs := ManagedEffects(lines);
    var es := Effects(lines);
    forall k | 0 <= k < |rs| ensures rs[k] == Success(es[k]) {
      CleanLineAgrees(lines[k]);
    }
    ScanManagedAllSuccess(rs, es);
  }

  // The dispatch policy of `ParseStream`.

  const RequiredFailedMessage: string := "Native keyframe parsing failed while JELLYFIN_NATIVE_MODE=required."

  /** What `ParseStream` returns for the transcript `input`, or the exception it throws. */
  function StreamOutcome(mode: InteropRuntime.Mode, available: bool, serde: SerdeJson,
                         readDto: seq<byte> -> InteropRuntime.DtoParse, input: string): (r: Result<KeyframeData, Exception>)
    ensures mode == InteropRuntime.Required && r.Success? ==>
      InteropRuntime.ParseOutcome(mode, available, serde, readDto, input).Done?
    ensures mode != InteropRuntime.Disabled && InteropRuntime.ParseOutcome(mode, available, serde, readDto, input).Threw? ==>
      r == Failure(InteropRuntime.ParseOutcome(mode, available, serde, readDto, input).exception)
  {
    var native := InteropRuntime.ParseOutcome(mode, available, serde, readDto, input);
    if mode != InteropRuntime.Disabled && native.Done? then
      Success(KeyframeData(native.value.totalDurationTicks, native.value.keyframeTicks))
    else if mode != InteropRuntime.Disabled && native.Threw? then Failure(native.exception)
    else if mode == InteropRuntime.Required then Failure(InvalidOperation(RequiredFailedMessage))
    else ManagedResult(input)
  }

  /** `ParseStream`, with the transcript already read to its end. */
  method ParseStream(parser: InteropRuntime.NativeInteropRuntime, input: string) returns (r: Result<KeyframeData, Exception>)
    requires parser.Valid()
    modifies parser, parser.heap
    ensures parser.Valid()
    ensures r == StreamOutcome(parser.mode, InteropRuntime.CheckAvailability(parser.library), parser.serde, parser.readDto, input)
    ensures parser.mode == InteropRuntime.Disabled ==> parser.availability == old(parser.availability)
    ensures parser.heap.live == old(parser.heap.live)
  {
    if parser.mode != InteropRuntime.Disabled {
      var native := parser.TryParse(input);
      if native.Threw? {
        return Failure(native.exception);
      }
      if native.Done? {
        return Success(KeyframeData(native.value.totalDurationTicks, native.value.keyframeTicks));
      }
    }
    if parser.mode == InteropRuntime.Required {
      return Failure(InvalidOperation(RequiredFailedMessage));
    }
    r := ParseStreamManaged(input);
  }

  /** Disabled: the managed parser decides, the native one is not consulted. */
  lemma DisabledUsesManaged(available: bool, serde: SerdeJson, readDto: seq<byte> -> InteropRuntime.DtoParse, input: string)
    ensures StreamOutcome(InteropRuntime.Disabled, available, serde, readDto, input) == ManagedResult(input)
  {
  }

  /** A successful native parse is returned as it is. */
  lemma NativeSuccessReturned(mode: InteropRuntime.Mode, available: bool, serde: SerdeJson,
                              readDto: seq<byte> -> InteropRuntime.DtoParse, input: string)
    requires mode != InteropRuntime.Disabled
    requires InteropRuntime.ParseOutcome(mode, available, serde, readDto, input).Done?
    ensures var v := InteropRuntime.ParseOutcome(mode, available, serde, readDto, input).value;
      StreamOutcome(mode, available, serde, readDto, input) == Success(KeyframeData(v.totalDurationTicks, v.keyframeTicks))
  {
  }

  /** Required: a failed native parse throws and never falls back. */
  lemma RequiredNeverFallsBack(available: bool, serde: SerdeJson, readDto: seq<byte> -> InteropRuntime.DtoParse, input: string)
    requires InteropRuntime.ParseOutcome(InteropRuntime.Required, available, serde, readDto, input).Failed?
    ensures StreamOutcome(InteropRuntime.Required, available, serde, readDto, input) == Failure(InvalidOperation(RequiredFailedMessage))
  {
  }

  /** Prefer: a failed native parse yields exactly the managed result. */
  lemma PreferFallsBack(available: bool, serde: SerdeJson, readDto: seq<byte> -> InteropRuntime.DtoParse, input: string)
    requires InteropRuntime.ParseOutcome(InteropRuntime.Prefer, available, serde, readDto, input).Failed?
    ensures StreamOutcome(InteropRuntime.Prefer, available, serde, readDto, input) == ManagedResult(input)
  {
  }

  /** The empty transcript in Prefer mode: the native call is refused (or the library is
      missing), the managed parser runs and finds nothing. */
  lemma EmptyTranscriptPrefer(available: bool, serde: SerdeJson, readDto: seq<byte> -> InteropRuntime.DtoParse)
    ensures StreamOutcome(InteropRuntime.Prefer, available, serde, readDto, "") == Success(KeyframeData(0, []))
  {
    if available {
      InteropRuntime.EmptyTranscriptRefused(InteropRuntime.Prefer, serde, readDto);
    }
    assert InteropRuntime.ParseOutcome(InteropRuntime.Prefer, available, serde, readDto, "").Failed?;
    PreferFallsBack(available, serde, readDto, "");
    EmptyInputManaged();
  }

  /** The empty transcript in Required mode throws, though the managed parser would
      accept it. */
  lemma EmptyTranscriptRequired(available: bool, serde: SerdeJson, readDto: seq<byte> -> InteropRuntime.DtoParse)
    ensures StreamOutcome(InteropRuntime.Required, available, serde, readDto, "") == Failure(InvalidOperation(RequiredFailedMessage))
  {
    if available {
      InteropRuntime.EmptyTranscriptRefused(InteropRuntime.Required, serde, readDto);
    }
    RequiredNeverFallsBack(available, serde, readDto, "");
  }

  /** In Prefer mode a clean transcript gives the managed result whether or not the
      native library is there, provided the DTO reader reads back what the native side
      wrote for this transcript. */
  lemma PreferIsTransparent(available: bool, serde: SerdeJson, readDto: seq<byte> -> InteropRuntime.DtoParse, input: string)
    requires input != [] && CarriageReturnsPaired(input)
    requires forall k :: 0 <= k < |ReadLines(input)| ==> CleanLine(ReadLines(input)[k])
    requires KeyframeCsvResult(Utf8.Encode(input)).Success?
    requires var d := KeyframeCsvResult(Utf8.Encode(input)).value;
      |serde.keyframeDataToVec(d)| <= InteropRuntime.IntMax
      && readDto(serde.keyframeDataToVec(d)) == InteropRuntime.Parsed(InteropRuntime.KeyframeDto(d.totalDurationTicks, d.keyframeTicks))
    ensures StreamOutcome(InteropRuntime.Prefer, available, serde, readDto, input) == ManagedResult(input)
  {
    ManagedMatchesNative(input);
    if available {
      InteropRuntime.ParseRoundTrip(InteropRuntime.Prefer, serde, readDto, input);
      NativeSuccessReturned(InteropRuntime.Prefer, available, serde, readDto, input);
    } else {
      PreferFallsBack(available, serde, readDto, input);
    }
  }
}
