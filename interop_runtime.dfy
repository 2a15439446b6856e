/** The managed adapter over the native library (`NativeInteropRuntime`): the mode
    chosen from `JELLYFIN_NATIVE_MODE`, the availability probe computed once, the two
    native calls and the copy-then-free handling of the buffers they hand back. */
module InteropRuntime {
  import opened Wrappers
  import opened Text
  import Utf8
  import NativeCore
  import NativeAbi
  import opened Clr

  type byte = Utf8.byte

  /** `NativeInteropMode`. */
  datatype Mode = Required | Prefer | Disabled

  /** `ResolveMode`, given the value of `JELLYFIN_NATIVE_MODE` (`None` when unset). */
  function ResolveMode(env: Option<string>): (m: Mode)
    ensures IsNullOrWhiteSpace(env) ==> m == Required
    ensures m == Prefer ==> ToLowerAscii(Trim(env.value)) == "prefer"
    ensures m == Disabled ==> ToLowerAscii(Trim(env.value)) == "disabled"
  {
    if IsNullOrWhiteSpace(env) then Required
    else match ToLowerAscii(Trim(env.value))
      case "required" => Required
      case "prefer" => Prefer
      case "disabled" => Disabled
      case _ => Required
  }

  /** A mode word is recognised in any ASCII case and with any surrounding white space. */
  lemma ResolveModeSpelling(before: string, word: string, after: string)
    requires AllWhiteSpace(before) && AllWhiteSpace(after)
    requires ToLowerAscii(word) in {"required", "prefer", "disabled"}
    ensures ResolveMode(Some(before + word + after)) ==
      match ToLowerAscii(word) case "prefer" => Prefer case "disabled" => Disabled case _ => Required
  {
    ModeWordEnds(word);
    var s := before + word + after;
    TrimPadded(before, word, after);
    assert s[|before|] == word[0];
    assert !IsNullOrWhiteSpace(Some(s));
  }

  /** A mode word begins and ends with a letter. */
  lemma ModeWordEnds(word: string)
    requires ToLowerAscii(word) in {"required", "prefer", "disabled"}
    ensures word != [] && !IsWhiteSpace(word[0]) && !IsWhiteSpace(word[|word| - 1])
  {
    var lower := ToLowerAscii(word);
    assert AsciiLower(word[0]) == lower[0] && AsciiLower(word[|word| - 1]) == lower[|lower| - 1];
  }

  /** A value that is none of the three words, once trimmed and lower-cased, means
      Required. */
  lemma ResolveModeDefault(env: Option<string>)
    requires env.Some? ==> ToLowerAscii(Trim(env.value)) !in {"prefer", "disabled"}
    ensures ResolveMode(env) == Required
  {
  }

  /** What loading `jf_native_abi` and calling `jf_native_healthcheck` gives: the value
      it returns, or one of the three exceptions the probe catches. */
  datatype LibraryLoad = Loaded(healthcheck: int) | DllNotFound | EntryPointNotFound | BadImageFormat

  /** `CheckAvailability`: the healthcheck returned 1; a load failure counts as false. */
  function CheckAvailability(library: LibraryLoad): (b: bool)
    ensures b <==> library == Loaded(1)
  {
    match library
    case Loaded(h) => h == 1
    case DllNotFound => false
    case EntryPointNotFound => false
    case BadImageFormat => false
  }

  /** The library built from `jf_native_abi` is always found healthy. */
  lemma AbiLibraryAvailable()
    ensures CheckAvailability(Loaded(NativeAbi.Healthcheck()))
  {
  }

  /** The three ways a `Try...` call ends: `true` with a value, `false` with an error
      message, or an exception. */
  datatype TryOutcome<T> = Done(value: T) | Failed(error: string) | Threw(exception: Exception)

  const DisabledMessage: string := "native mode disabled"
  const UnavailableMessage: string := "native library unavailable"
  const CallFailedMessage: string := "native call failed"
  const InvalidPayloadMessage: string := "native parser returned an invalid payload"
  const RequiredUnavailableMessage: string :=
    "JELLYFIN_NATIVE_MODE=required but jf_native_abi could not be loaded. Set JELLYFIN_NATIVE_LIBRARY_PATH or switch mode to prefer/disabled."

  /** `int.MaxValue`, the bound of `checked((int)buffer.Length)`. */
  const IntMax: int := 0x7FFF_FFFF

  /** `CopyBuffer` on the bytes a buffer holds: an empty buffer copies as empty, one
      longer than `int.MaxValue` throws. */
  function CopyOf(bytes: seq<byte>): (r: Result<seq<byte>, Exception>)
    ensures r.Success? <==> |bytes| <= IntMax
    ensures r.Success? ==> r.value == bytes
    ensures r.Failure? ==> r.error == Overflow
  {
    if |bytes| > IntMax then Failure(Overflow) else Success(bytes)
  }

  /** What `TryReadResult` makes of a call's exit code and the bytes of its two buffers. */
  function ReadOutcome(exitCode: int, output: seq<byte>, error: seq<byte>): (o: TryOutcome<seq<byte>>)
    ensures exitCode == 0 && |output| <= IntMax ==> o == Done(output)
    ensures exitCode != 0 && error == [] ==> o == Failed(CallFailedMessage)
    ensures exitCode != 0 && 0 < |error| <= IntMax ==> o == Failed(Utf8.DecodeLossy(error))
    ensures o.Threw? <==> (if exitCode == 0 then |output| > IntMax else |error| > IntMax)
  {
    if exitCode == 0 then
      match CopyOf(output)
      case Success(payload) => Done(payload)
      case Failure(e) => Threw(e)
    else
      match CopyOf(error)
      case Success(bytes) => Failed(if |bytes| == 0 then CallFailedMessage else Utf8.DecodeLossy(bytes))
      case Failure(e) => Threw(e)
  }

  /** Read back on the managed side, a native call gives the action's bytes on success
      and the action's own message on failure (or the fixed text when the message is
      empty). */
  lemma ReadOfRun(input: Option<seq<byte>>, action: seq<byte> -> Result<seq<byte>, string>)
    requires !NativeAbi.IsEmptyInput(input)
    requires action(input.value).Success? ==> |action(input.value).value| <= IntMax
    requires action(input.value).Failure? ==> |Utf8.Encode(action(input.value).error)| <= IntMax
    ensures var c := NativeAbi.Run(input, action);
      ReadOutcome(c.exitCode, c.output, c.error) ==
        match action(input.value)
        case Success(bytes) => Done(bytes)
        case Failure(m) => Failed(if m == [] then CallFailedMessage else m)
  {
    if action(input.value).Failure? {
      Utf8.DecodeLossyEncode(action(input.value).error);
    }
  }

  /** A non-empty message the library writes to the error slot is read back unchanged. */
  lemma ReadOfMessage(message: string)
    requires message != [] && |Utf8.Encode(message)| <= IntMax
    ensures ReadOutcome(-1, [], Utf8.Encode(message)) == Failed(message)
  {
    Utf8.DecodeLossyEncode(message);
  }

  /** An empty input comes back as the library's own refusal. */
  lemma ReadOfEmptyInput(input: Option<seq<byte>>, action: seq<byte> -> Result<seq<byte>, string>)
    requires NativeAbi.IsEmptyInput(input)
    ensures var c := NativeAbi.Run(input, action);
      ReadOutcome(c.exitCode, c.output, c.error) == Failed(NativeAbi.EmptyInputMessage)
  {
    ReadOfShortMessage(NativeAbi.EmptyInputMessage);
  }

  /** A message of modest length written to the error slot is read back unchanged. */
  lemma ReadOfShortMessage(message: string)
    requires 0 < |message| <= 0x1000_0000
    ensures ReadOutcome(-1, [], Utf8.Encode(message)) == Failed(message)
  {
    EncodeLength(message);
    ReadOfMessage(message);
  }

  lemma {:induction false} EncodeLength(s: string)
    ensures |Utf8.Encode(s)| <= 4 * |s|
  {
    if s != [] {
      EncodeLength(s[1..]);
    }
  }

  /** `fixed` over a managed array or span: a null pointer when it is empty. */
  function Pin(bytes: seq<byte>): (p: Option<seq<byte>>)
    ensures NativeAbi.IsEmptyInput(p) <==> bytes == []
    ensures p.Some? ==> p.value == bytes
  {
    if bytes == [] then None else Some(bytes)
  }

  /** The pointers `TryReadResult` hands to the native free, in order: output, then error,
      each only when it is non-empty. */
  function FreeOrder(output: NativeAbi.Buffer, error: NativeAbi.Buffer): seq<nat> {
    (if output.IsEmpty() then [] else [output.ptr]) + (if error.IsEmpty() then [] else [error.ptr])
  }

  /** `CopyBuffer`. */
  method CopyBuffer(heap: NativeAbi.NativeHeap, buffer: NativeAbi.Buffer) returns (r: Result<seq<byte>, Exception>)
    requires heap.Owns(buffer)
    ensures r == CopyOf(heap.Contents(buffer))
  {
    if buffer.ptr == 0 || buffer.len == 0 {
      return Success([]);
    }
    if buffer.len > IntMax {
      return Failure(Overflow);
    }
    r := Success(heap.live[buffer.ptr]);
  }

  /** `FreeBuffer`: empty buffers never reach the native free. */
  method FreeBuffer(heap: NativeAbi.NativeHeap, buffer: NativeAbi.Buffer)
    requires heap.Valid() && heap.Owns(buffer)
    modifies heap
    ensures heap.Valid()
    ensures buffer.IsEmpty() ==> heap.live == old(heap.live) && heap.freed == old(heap.freed)
    ensures !buffer.IsEmpty() ==>
      heap.live == old(heap.live) - {buffer.ptr} && heap.freed == old(heap.freed) + [buffer.ptr]
  {
    if buffer.ptr == 0 || buffer.len == 0 {
      return;
    }
    NativeAbi.FreeBuffer(heap, buffer.ptr, buffer.len);
  }

  /** `TryReadResult`: copy the buffer the exit code names, then free both buffers
      whatever happened, the copy throwing included. */
  method TryReadResult(heap: NativeAbi.NativeHeap, exitCode: int, output: NativeAbi.Buffer, error: NativeAbi.Buffer)
    returns (o: TryOutcome<seq<byte>>)
    requires heap.Valid() && heap.Owns(output) && heap.Owns(error)
    requires !output.IsEmpty() && !error.IsEmpty() ==> output.ptr != error.ptr
    modifies heap
    ensures heap.Valid()
    ensures o == ReadOutcome(exitCode, old(heap.Contents(output)), old(heap.Contents(error)))
    ensures heap.freed == old(heap.freed) + FreeOrder(output, error)
    ensures heap.live == old(heap.live) - set p | p in FreeOrder(output, error)
  {
    o := CopyResult(heap, exitCode, output, error);
    FreeBoth(heap, output, error);
  }

  /** The `try` block of `TryReadResult`: the payload on exit 0, otherwise the error
      text, or the exception the copy throws. */
  method CopyResult(heap: NativeAbi.NativeHeap, exitCode: int, output: NativeAbi.Buffer, error: NativeAbi.Buffer)
    returns (o: TryOutcome<seq<byte>>)
    requires heap.Owns(output) && heap.Owns(error)
    ensures o == ReadOutcome(exitCode, heap.Contents(output), heap.Contents(error))
  {
    var copied: Result<seq<byte>, Exception>;
    if exitCode == 0 {
      copied := CopyBuffer(heap, output);
      o := if copied.Success? then Done(copied.value) else Threw(copied.error);
    } else {
      copied := CopyBuffer(heap, error);
      o := if copied.Success? then
             Failed(if |copied.value| == 0 then CallFailedMessage else Utf8.DecodeLossy(copied.value))
           else Threw(copied.error);
    }
  }

  /** The `finally` block of `TryReadResult`: free the output buffer, then the error
      buffer. */
  method FreeBoth(heap: NativeAbi.NativeHeap, output: NativeAbi.Buffer, error: NativeAbi.Buffer)
    requires heap.Valid() && heap.Owns(output) && heap.Owns(error)
    requires !output.IsEmpty() && !error.IsEmpty() ==> output.ptr != error.ptr
    modifies heap
    ensures heap.Valid()
    ensures heap.freed == old(heap.freed) + FreeOrder(output, error)
    ensures heap.live == old(heap.live) - set p | p in FreeOrder(output, error)
  {
    FreeBuffer(heap, output);
    FreeBuffer(heap, error);
  }

  /** `NativeKeyframeParseResultDto`. */
  datatype KeyframeDto = KeyframeDto(totalDurationTicks: int, keyframeTicks: seq<int>)

  /** What `JsonSerializer.Deserialize<NativeKeyframeParseResultDto>` gives for a
      payload: a DTO, `null` (for the JSON literal null), or a `JsonException`. */
  datatype DtoParse = Parsed(dto: KeyframeDto) | NullDto | Malformed(message: string)

  /** `NativeKeyframeParseResult`. */
  datatype NativeKeyframeParseResult = NativeKeyframeParseResult(totalDurationTicks: int, keyframeTicks: seq<int>)

  /** What `TryNormalize` gives for `json`, in a runtime of mode `mode` whose library
      is (or is not) available. */
  function NormalizeOutcome(mode: Mode, available: bool, serde: NativeCore.SerdeJson, json: seq<byte>): (o: TryOutcome<seq<byte>>)
    ensures mode == Disabled ==> o == Failed(DisabledMessage)
    ensures mode != Disabled && !available ==> o == Failed(UnavailableMessage)
  {
    if mode == Disabled then Failed(DisabledMessage)
    else if !available then Failed(UnavailableMessage)
    else
      var c := NativeAbi.Run(Pin(json), NativeAbi.NormalizeAction(serde));
      ReadOutcome(c.exitCode, c.output, c.error)
  }

  /** What `TryParse` gives for the transcript `input`. */
  function ParseOutcome(mode: Mode, available: bool, serde: NativeCore.SerdeJson, readDto: seq<byte> -> DtoParse,
                        input: string): (o: TryOutcome<NativeKeyframeParseResult>)
    ensures mode == Disabled ==> o == Failed(DisabledMessage)
    ensures mode != Disabled && !available ==> o == Failed(UnavailableMessage)
  {
    if mode == Disabled then Failed(DisabledMessage)
    else if !available then Failed(UnavailableMessage)
    else
      var c := NativeAbi.Run(Pin(Utf8.Encode(input)), NativeAbi.ParseKeyframeAction(serde));
      PayloadOutcome(ReadOutcome(c.exitCode, c.output, c.error), readDto)
  }

  /** What `TryParse` makes of the read-back payload: the DTO's fields, a failure for a
      null DTO, and the reader's exception for a malformed payload. */
  function PayloadOutcome(read: TryOutcome<seq<byte>>, readDto: seq<byte> -> DtoParse): (o: TryOutcome<NativeKeyframeParseResult>)
    ensures o.Done? <==> read.Done? && readDto(read.value).Parsed?
    ensures o.Done? ==>
      o.value.totalDurationTicks == readDto(read.value).dto.totalDurationTicks
      && o.value.keyframeTicks == readDto(read.value).dto.keyframeTicks
    ensures read.Failed? ==> o == Failed(read.error)
    ensures o.Threw? <==> read.Threw? || (read.Done? && readDto(read.value).Malformed?)
  {
    match read
    case Failed(e) => Failed(e)
    case Threw(e) => Threw(e)
    case Done(payload) =>
      match readDto(payload)
      case Parsed(dto) => Done(NativeKeyframeParseResult(dto.totalDurationTicks, dto.keyframeTicks))
      case NullDto => Failed(InvalidPayloadMessage)
      case Malformed(m) => Threw(JsonException(m))
  }

  /** The empty transcript never reaches the parser: .NET encodes it as zero bytes,
      `fixed` pins those as a null pointer and the library refuses the call. */
  lemma EmptyTranscriptRefused(mode: Mode, serde: NativeCore.SerdeJson, readDto: seq<byte> -> DtoParse)
    requires mode != Disabled
    ensures ParseOutcome(mode, true, serde, readDto, "") == Failed(NativeAbi.EmptyInputMessage)
  {
    ReadOfEmptyInput(Pin(Utf8.Encode("")), NativeAbi.ParseKeyframeAction(serde));
  }

  /** When the DTO reader reads back what the native side serialized, a non-empty
      transcript comes back as exactly what the native parser computed. */
  lemma ParseRoundTrip(mode: Mode, serde: NativeCore.SerdeJson, readDto: seq<byte> -> DtoParse, input: string)
    requires mode != Disabled && input != []
    requires NativeCore.KeyframeCsvResult(Utf8.Encode(input)).Success?
    requires var d := NativeCore.KeyframeCsvResult(Utf8.Encode(input)).value;
      |serde.keyframeDataToVec(d)| <= IntMax
      && readDto(serde.keyframeDataToVec(d)) == Parsed(KeyframeDto(d.totalDurationTicks, d.keyframeTicks))
    ensures var d := NativeCore.KeyframeCsvResult(Utf8.Encode(input)).value;
      ParseOutcome(mode, true, serde, readDto, input) ==
        Done(NativeKeyframeParseResult(d.totalDurationTicks, d.keyframeTicks))
  {
    ReadOfRun(Pin(Utf8.Encode(input)), NativeAbi.ParseKeyframeAction(serde));
  }

  /** A payload the DTO reader reads as `null` makes `TryParse` fail with its own
      message, without throwing. */
  lemma NullPayloadRefused(mode: Mode, serde: NativeCore.SerdeJson, readDto: seq<byte> -> DtoParse, input: string)
    requires mode != Disabled && input != []
    requires NativeCore.KeyframeCsvResult(Utf8.Encode(input)).Success?
    requires var d := NativeCore.KeyframeCsvResult(Utf8.Encode(input)).value;
      |serde.keyframeDataToVec(d)| <= IntMax && readDto(serde.keyframeDataToVec(d)) == NullDto
    ensures ParseOutcome(mode, true, serde, readDto, input) == Failed(InvalidPayloadMessage)
  {
    ReadOfRun(Pin(Utf8.Encode(input)), NativeAbi.ParseKeyframeAction(serde));
  }

  /** A payload the DTO reader rejects makes `TryParse` throw the reader's exception. */
  lemma MalformedPayloadThrows(mode: Mode, serde: NativeCore.SerdeJson, readDto: seq<byte> -> DtoParse, input: string)
    requires mode != Disabled && input != []
    requires NativeCore.KeyframeCsvResult(Utf8.Encode(input)).Success?
    requires var d := NativeCore.KeyframeCsvResult(Utf8.Encode(input)).value;
      |serde.keyframeDataToVec(d)| <= IntMax && readDto(serde.keyframeDataToVec(d)).Malformed?
    ensures var d := NativeCore.KeyframeCsvResult(Utf8.Encode(input)).value;
      ParseOutcome(mode, true, serde, readDto, input) == Threw(JsonException(readDto(serde.keyframeDataToVec(d)).message))
  {
    ReadOfRun(Pin(Utf8.Encode(input)), NativeAbi.ParseKeyframeAction(serde));
  }

  /** Normalization through the adapter: the normalized document's bytes on success, and
      the core's own error message when the payload is not JSON. */
  lemma NormalizeRoundTrip(mode: Mode, serde: NativeCore.SerdeJson, json: seq<byte>)
    requires mode != Disabled && json != []
    requires serde.fromSlice(json).Success? ==>
      |serde.toVec(NativeCore.NormalizedDocument(serde.fromSlice(json).value))| <= IntMax
    requires serde.fromSlice(json).Failure? ==>
      |Utf8.Encode(NativeCore.ErrorMessage(NativeCore.JsonError(serde.fromSlice(json).error)))| <= IntMax
    ensures serde.fromSlice(json).Success? ==>
      NormalizeOutcome(mode, true, serde, json) == Done(serde.toVec(NativeCore.NormalizedDocument(serde.fromSlice(json).value)))
    ensures serde.fromSlice(json).Failure? ==>
      NormalizeOutcome(mode, true, serde, json) == Failed("invalid json payload: " + serde.fromSlice(json).error)
  {
    ReadOfRun(Pin(json), NativeAbi.NormalizeAction(serde));
  }

  /** What a native call leaves in its two slots is what `TryReadResult` may read and
      free, and freeing it gives the heap back as it was before the call. */
  lemma DeliveredReadable(heap: NativeAbi.NativeHeap, before: map<nat, seq<byte>>,
                          output: NativeAbi.OutSlot, error: NativeAbi.OutSlot, c: NativeAbi.CallOutcome)
    requires NativeAbi.Delivered(heap, before, output, error, c)
    ensures heap.Owns(output.value) && heap.Owns(error.value)
    ensures heap.Contents(output.value) == c.output && heap.Contents(error.value) == c.error
    ensures !output.value.IsEmpty() && !error.value.IsEmpty() ==> output.value.ptr != error.value.ptr
    ensures |FreeOrder(output.value, error.value)| <= 1
    ensures forall p :: p in FreeOrder(output.value, error.value) ==> p !in before
    ensures heap.live - (set p | p in FreeOrder(output.value, error.value)) == before
  {
  }

  /** `freed` is `before` followed by at most one pointer, and that one was not
      allocated in `live`: only a buffer the call itself handed out was freed. */
  predicate FreedFresh(live: map<nat, seq<byte>>, before: seq<nat>, freed: seq<nat>) {
    freed == before || (|freed| == |before| + 1 && freed == before + [freed[|before|]] && freed[|before|] !in live)
  }

  /** Reading back and freeing what a call delivered leaves the heap as it was before
      the call. */
  lemma ReadBackRestores(before: map<nat, seq<byte>>, freed0: seq<nat>, live: map<nat, seq<byte>>, freed: seq<nat>,
                         output: NativeAbi.Buffer, error: NativeAbi.Buffer)
    requires |FreeOrder(output, error)| <= 1
    requires forall p :: p in FreeOrder(output, error) ==> p !in before
    requires freed == freed0 + FreeOrder(output, error)
    ensures FreedFresh(before, freed0, freed)
  {
    if FreeOrder(output, error) == [] {
      assert freed == freed0;
    } else {
      assert FreeOrder(output, error) == [freed[|freed0|]];
    }
  }

  /** `TryReadResult` on the two slots of a call that delivered `c`. */
  method ReadDelivered(heap: NativeAbi.NativeHeap, code: int, output: NativeAbi.OutSlot, error: NativeAbi.OutSlot,
                       ghost before: map<nat, seq<byte>>, ghost c: NativeAbi.CallOutcome) returns (o: TryOutcome<seq<byte>>)
    requires heap.Valid() && NativeAbi.Delivered(heap, before, output, error, c) && code == c.exitCode
    modifies heap
    ensures heap.Valid() && o == ReadOutcome(c.exitCode, c.output, c.error)
    ensures heap.live == before && FreedFresh(before, old(heap.freed), heap.freed)
  {
    DeliveredReadable(heap, before, output, error, c);
    o := TryReadResult(heap, code, output.value, error.value);
    ReadBackRestores(before, old(heap.freed), heap.live, heap.freed, output.value, error.value);
  }

  /** The `fixed` block of `TryNormalize`: pin the payload, call
      `jf_native_normalize_ffprobe_json` with two fresh slots and read the result back. */
  method CallNormalize(heap: NativeAbi.NativeHeap, serde: NativeCore.SerdeJson, json: seq<byte>)
    returns (o: TryOutcome<seq<byte>>)
    requires heap.Valid()
    modifies heap
    ensures heap.Valid()
    ensures var c := NativeAbi.Run(Pin(json), NativeAbi.NormalizeAction(serde));
      o == ReadOutcome(c.exitCode, c.output, c.error)
    ensures heap.live == old(heap.live) && FreedFresh(old(heap.live), old(heap.freed), heap.freed)
  {
    var output := new NativeAbi.OutSlot();
    var error := new NativeAbi.OutSlot();
    var code := NativeAbi.NormalizeFfprobeJson(heap, serde, Pin(json), output, error);
    o := ReadDelivered(heap, code, output, error, old(heap.live), NativeAbi.Run(Pin(json), NativeAbi.NormalizeAction(serde)));
  }

  /** The `fixed` block of `TryParse`: pin the transcript's UTF-8 bytes, call
      `jf_native_parse_keyframe_csv` with two fresh slots, read the result back and
      deserialize the DTO. */
  method CallParse(heap: NativeAbi.NativeHeap, serde: NativeCore.SerdeJson, readDto: seq<byte> -> DtoParse,
                   inputBytes: seq<byte>) returns (o: TryOutcome<NativeKeyframeParseResult>)
    requires heap.Valid()
    modifies heap
    ensures heap.Valid()
    ensures var c := NativeAbi.Run(Pin(inputBytes), NativeAbi.ParseKeyframeAction(serde));
      o == PayloadOutcome(ReadOutcome(c.exitCode, c.output, c.error), readDto)
    ensures heap.live == old(heap.live) && FreedFresh(old(heap.live), old(heap.freed), heap.freed)
  {
    var output := new NativeAbi.OutSlot();
    var error := new NativeAbi.OutSlot();
    var code := NativeAbi.ParseKeyframeCsv(heap, serde, Pin(inputBytes), output, error);
    var read := ReadDelivered(heap, code, output, error, old(heap.live),
                              NativeAbi.Run(Pin(inputBytes), NativeAbi.ParseKeyframeAction(serde)));
    o := DeserializePayload(read, readDto);
  }

  /** The end of `TryParse`'s `fixed` block: a failed read-back is passed on, and a
      payload is deserialized, a null DTO being refused. */
  method DeserializePayload(read: TryOutcome<seq<byte>>, readDto: seq<byte> -> DtoParse)
    returns (o: TryOutcome<NativeKeyframeParseResult>)
    ensures o == PayloadOutcome(read, readDto)
  {
    match read {
      case Failed(e) => o := Failed(e);
      case Threw(e) => o := Threw(e);
      case Done(payload) =>
        var dto := readDto(payload);
        match dto {
          case NullDto => o := Failed(InvalidPayloadMessage);
          case Malformed(m) => o := Threw(JsonException(m));
          case Parsed(d) => o := Done(NativeKeyframeParseResult(d.totalDurationTicks, d.keyframeTicks));
        }
    }
  }

  /** `NativeInteropRuntime`. The library, the JSON codecs and the heap of native
      buffers are given to it; `availability` is the `Lazy<bool>` memo and `probes`
      counts how often the healthcheck ran. */
  class NativeInteropRuntime {
    const mode: Mode
    const library: LibraryLoad
    const heap: NativeAbi.NativeHeap
    const serde: NativeCore.SerdeJson
    const readDto: seq<byte> -> DtoParse
    var availability: Option<bool>
    ghost var probes: nat

    ghost predicate Valid()
      reads this, heap
    {
      heap.Valid()
      && probes == (if availability.Some? then 1 else 0)
      && (availability.Some? ==> availability.value == CheckAvailability(library))
    }

    constructor(env: Option<string>, library: LibraryLoad, heap: NativeAbi.NativeHeap,
                serde: NativeCore.SerdeJson, readDto: seq<byte> -> DtoParse)
      requires heap.Valid()
      ensures Valid() && availability == None
      ensures mode == ResolveMode(env) && this.library == library && this.heap == heap
      ensures this.serde == serde && this.readDto == readDto
    {
      mode := ResolveMode(env);
      this.library := library;
      this.heap := heap;
      this.serde := serde;
      this.readDto := readDto;
      availability := None;
      probes := 0;
    }

    /** `IsNativeAvailable`: the probe runs on first use only. */
    method IsNativeAvailable() returns (b: bool)
      requires Valid()
      modifies this
      ensures Valid() && availability == Some(b) && b == CheckAvailability(library)
      ensures old(availability).Some? ==> probes == old(probes)
    {
      if availability.None? {
        availability := Some(CheckAvailability(library));
        probes := probes + 1;
      }
      b := availability.value;
    }

    /** `EnsureRuntimeAvailability`: throws exactly when the mode is Required and the
      library is unavailable; other modes do not probe. */
    method EnsureRuntimeAvailability() returns (thrown: Option<Exception>)
      requires Valid()
      modifies this
      ensures Valid()
      ensures thrown.Some? <==> mode == Required && !CheckAvailability(library)
      ensures thrown.Some? ==> thrown.value == InvalidOperation(RequiredUnavailableMessage)
      ensures mode != Required ==> availability == old(availability)
    {
      thrown := None;
      if mode == Required {
        var available := IsNativeAvailable();
        if !available {
          thrown := Some(InvalidOperation(RequiredUnavailableMessage));
        }
      }
    }

    /** `TryNormalize`. Every buffer the call hands back is freed once, and nothing else. */
    method TryNormalize(json: seq<byte>) returns (o: TryOutcome<seq<byte>>)
      requires Valid()
      modifies this, heap
      ensures Valid()
      ensures o == NormalizeOutcome(mode, CheckAvailability(library), serde, json)
      ensures mode == Disabled ==> availability == old(availability)
      ensures heap.live == old(heap.live) && FreedFresh(old(heap.live), old(heap.freed), heap.freed)
    {
      if mode == Disabled {
        return Failed(DisabledMessage);
      }
      var available := IsNativeAvailable();
      if !available {
        return Failed(UnavailableMessage);
      }
      o := CallNormalize(heap, serde, json);
    }

    /** `TryParse`. */
    method TryParse(input: string) returns (o: TryOutcome<NativeKeyframeParseResult>)
      requires Valid()
      modifies this, heap
      ensures Valid()
      ensures o == ParseOutcome(mode, CheckAvailability(library), serde, readDto, input)
      ensures mode == Disabled ==> availability == old(availability)
      ensures heap.live == old(heap.live) && FreedFresh(old(heap.live), old(heap.freed), heap.freed)
    {
      if mode == Disabled {
        return Failed(DisabledMessage);
      }
      var available := IsNativeAvailable();
      if !available {
        return Failed(UnavailableMessage);
      }
      var inputBytes := Utf8.Encode(input);
      o := CallParse(heap, serde, readDto, inputBytes);
    }
  }
}
