/** The C ABI of the native library (`jf_native_abi`): buffers handed across the
    boundary, the two entry points and the common calling discipline of
    `run_with_buffers`. Raw memory is a heap of buffer ids, each holding the bytes of
    one leaked `Vec<u8>`. */
module NativeAbi {
  import opened Wrappers
  import Utf8
  import NativeCore

  type byte = Utf8.byte

  /** `JfNativeBuffer`: a pointer (0 is null) and a length. */
  datatype Buffer = Buffer(ptr: nat, len: nat) {
    /** Null or zero-length: a buffer nobody has to free. */
    predicate IsEmpty() {
      ptr == 0 || len == 0
    }
  }

  const EmptyBuffer: Buffer := Buffer(0, 0)

  /** The allocations the library has handed out and not yet taken back, with the
      order in which buffers were freed. */
  class NativeHeap {
    var live: map<nat, seq<byte>>
    var next: nat
    ghost var freed: seq<nat>

    ghost predicate Valid()
      reads this
    {
      next > 0 && forall p :: p in live ==> 0 < p < next && |live[p]| > 0
    }

    constructor()
      ensures Valid() && live == map[] && freed == []
    {
      live := map[];
      next := 1;
      freed := [];
    }

    /** The buffer is one this heap handed out, with its true length (or it is empty). */
    predicate Owns(b: Buffer)
      reads this
    {
      !b.IsEmpty() ==> b.ptr in live && |live[b.ptr]| == b.len
    }

    /** What a buffer holds; an empty buffer holds nothing. */
    function Contents(b: Buffer): (bs: seq<byte>)
      requires Owns(b)
      reads this
      ensures |bs| == if b.IsEmpty() then 0 else b.len
    {
      if b.IsEmpty() then [] else live[b.ptr]
    }

    /** A `Vec<u8>` given up with `mem::forget`: it stays allocated under a fresh,
        non-null pointer. */
    method Leak(bytes: seq<byte>) returns (p: nat)
      requires Valid() && bytes != []
      modifies this
      ensures Valid() && freed == old(freed)
      ensures p != 0 && p !in old(live)
      ensures live == old(live)[p := bytes]
    {
      p := next;
      live := live[p := bytes];
      next := next + 1;
    }

    /** `Vec::from_raw_parts` followed by the drop of the vector. */
    method Reclaim(p: nat)
      requires Valid() && p in live
      modifies this
      ensures Valid()
      ensures live == old(live) - {p} && freed == old(freed) + [p]
    {
      live := live - {p};
      freed := freed + [p];
    }
  }

  /** Memory the caller passes for one `*mut JfNativeBuffer` out-parameter. */
  class OutSlot {
    var value: Buffer

    constructor()
      ensures value == EmptyBuffer
    {
      value := EmptyBuffer;
    }
  }

  /** `jf_native_healthcheck`. */
  function Healthcheck(): (r: int)
    ensures r == 1
  {
    1
  }

  /** `jf_native_free_buffer`: nothing for a null pointer or a zero length, otherwise
      the buffer is taken back. The pointer and length must be ones the library handed
      out, as `Vec::from_raw_parts` demands. */
  method FreeBuffer(heap: NativeHeap, ptr: nat, len: nat)
    requires heap.Valid() && heap.Owns(Buffer(ptr, len))
    modifies heap
    ensures heap.Valid()
    ensures Buffer(ptr, len).IsEmpty() ==> heap.live == old(heap.live) && heap.freed == old(heap.freed)
    ensures !Buffer(ptr, len).IsEmpty() ==>
      heap.live == old(heap.live) - {ptr} && heap.freed == old(heap.freed) + [ptr]
  {
    if ptr == 0 || len == 0 {
      return;
    }
    heap.Reclaim(ptr);
  }

  /** `write_buffer`: an empty vector is stored as (null, 0); any other is leaked and
      stored as (its pointer, its length). */
  method WriteBuffer(heap: NativeHeap, target: OutSlot, bytes: seq<byte>)
    requires heap.Valid()
    modifies heap, target
    ensures heap.Valid() && heap.freed == old(heap.freed)
    ensures Written(heap.live, old(heap.live), target.value, bytes)
  {
    if bytes == [] {
      target.value := EmptyBuffer;
      return;
    }
    var p := heap.Leak(bytes);
    target.value := Buffer(p, |bytes|);
  }

  /** `write_error`: the UTF-8 bytes of the message. */
  method WriteError(heap: NativeHeap, target: OutSlot, message: string)
    requires heap.Valid()
    modifies heap, target
    ensures heap.Valid() && heap.freed == old(heap.freed)
    ensures Written(heap.live, old(heap.live), target.value, Utf8.Encode(message))
  {
    WriteBuffer(heap, target, Utf8.Encode(message));
  }

  /** What a call leaves behind, in bytes: the exit code and what the output and error
      slots hold. */
  datatype CallOutcome = CallOutcome(exitCode: int, output: seq<byte>, error: seq<byte>)

  /** An input is `None` for a null pointer, else the bytes the pointer and length span. */
  predicate IsEmptyInput(input: Option<seq<byte>>) {
    input.None? || input.value == []
  }

  const EmptyInputMessage: string := "input cannot be empty"

  /** The outcome `run_with_buffers` produces with non-null slots. */
  function Run(input: Option<seq<byte>>, action: seq<byte> -> Result<seq<byte>, string>): (c: CallOutcome)
    ensures c.exitCode == 0 || c.exitCode == -1
    ensures c.output == [] || c.error == []
    ensures c.exitCode == 0 <==> !IsEmptyInput(input) && action(input.value).Success?
    ensures c.exitCode == 0 ==> c.output == action(input.value).value && c.error == []
    ensures IsEmptyInput(input) ==> c == CallOutcome(-1, [], Utf8.Encode(EmptyInputMessage))
    ensures !IsEmptyInput(input) && action(input.value).Failure? ==>
      c == CallOutcome(-1, [], Utf8.Encode(action(input.value).error))
  {
    if IsEmptyInput(input) then CallOutcome(-1, [], Utf8.Encode(EmptyInputMessage))
    else match action(input.value)
      case Success(bytes) => CallOutcome(0, bytes, [])
      case Failure(message) => CallOutcome(-1, [], Utf8.Encode(message))
  }

  /** The heap `before` with the non-empty buffer `b` holding `bytes` added. */
  function Added(before: map<nat, seq<byte>>, b: Buffer, bytes: seq<byte>): map<nat, seq<byte>> {
    if b.IsEmpty() then before else before[b.ptr := bytes]
  }

  /** After a call with non-null slots: at most one slot is non-empty, a non-empty one
      points to a fresh buffer, the slots hold what `c` says and the heap holds exactly
      what it held before plus those buffers. */
  predicate DeliveredTo(live: map<nat, seq<byte>>, before: map<nat, seq<byte>>, output: Buffer, error: Buffer, c: CallOutcome) {
    (output.IsEmpty() || error.IsEmpty())
    && (!output.IsEmpty() ==> output.ptr !in before && output.len == |c.output|)
    && (!error.IsEmpty() ==> error.ptr !in before && error.len == |c.error|)
    && (output.IsEmpty() <==> c.output == []) && (error.IsEmpty() <==> c.error == [])
    && live == Added(Added(before, output, c.output), error, c.error)
  }

  ghost predicate Delivered(heap: NativeHeap, before: map<nat, seq<byte>>, output: OutSlot, error: OutSlot, c: CallOutcome)
    reads heap, output, error
  {
    DeliveredTo(heap.live, before, output.value, error.value, c)
  }

  /** What `write_buffer` promises about a slot and the heap. */
  predicate Written(live: map<nat, seq<byte>>, before: map<nat, seq<byte>>, b: Buffer, bytes: seq<byte>) {
    (bytes == [] ==> b == EmptyBuffer && live == before)
    && (bytes != [] ==> b.ptr != 0 && b.len == |bytes| && b.ptr !in before && live == before[b.ptr := bytes])
  }

  /** Writing the output and leaving the error slot cleared delivers a success. */
  lemma DeliverOutput(live: map<nat, seq<byte>>, before: map<nat, seq<byte>>, output: Buffer, bytes: seq<byte>)
    requires Written(live, before, output, bytes)
    ensures DeliveredTo(live, before, output, EmptyBuffer, CallOutcome(0, bytes, []))
  {
  }

  /** Writing the error and leaving the output slot cleared delivers a failure. */
  lemma DeliverError(live: map<nat, seq<byte>>, before: map<nat, seq<byte>>, error: Buffer, bytes: seq<byte>)
    requires Written(live, before, error, bytes)
    ensures DeliveredTo(live, before, EmptyBuffer, error, CallOutcome(-1, [], bytes))
  {
  }

  /** `run_with_buffers`: -1 without touching anything when a slot pointer is null;
      otherwise both slots are cleared, an empty input is refused, and the action's
      bytes go to the output slot or its message to the error slot. */
  method RunWithBuffers(heap: NativeHeap, input: Option<seq<byte>>, output: OutSlot?, error: OutSlot?,
                        action: seq<byte> -> Result<seq<byte>, string>) returns (code: int)
    requires heap.Valid()
    requires output != null && error != null ==> output != error
    modifies heap, output, error
    ensures heap.Valid() && heap.freed == old(heap.freed)
    ensures output == null || error == null ==>
      code == -1 && heap.live == old(heap.live)
      && (output != null ==> output.value == old(output.value))
      && (error != null ==> error.value == old(error.value))
    ensures output != null && error != null ==>
      code == Run(input, action).exitCode && Delivered(heap, old(heap.live), output, error, Run(input, action))
  {
    if output == null || error == null {
      return -1;
    }
    output.value := EmptyBuffer;
    error.value := EmptyBuffer;
    if input.None? || |input.value| == 0 {
      assert IsEmptyInput(input);
      WriteError(heap, error, EmptyInputMessage);
      DeliverError(heap.live, old(heap.live), error.value, Utf8.Encode(EmptyInputMessage));
      return -1;
    }
    var result := action(input.value);
    if result.Success? {
      WriteBuffer(heap, output, result.value);
      DeliverOutput(heap.live, old(heap.live), output.value, result.value);
      code := 0;
    } else {
      WriteError(heap, error, result.error);
      DeliverError(heap.live, old(heap.live), error.value, Utf8.Encode(result.error));
      code := -1;
    }
  }

  /** The action behind `jf_native_normalize_ffprobe_json`. */
  function NormalizeAction(serde: NativeCore.SerdeJson): seq<byte> -> Result<seq<byte>, string> {
    input =>
      match NativeCore.NormalizeJsonResult(serde, input)
      case Success(bytes) => Success(bytes)
      case Failure(e) => Failure(NativeCore.ErrorMessage(e))
  }

  /** The action behind `jf_native_parse_keyframe_csv`: the parsed data as JSON. */
  function ParseKeyframeAction(serde: NativeCore.SerdeJson): seq<byte> -> Result<seq<byte>, string> {
    input =>
      match NativeCore.KeyframeCsvResult(input)
      case Success(parsed) => Success(serde.keyframeDataToVec(parsed))
      case Failure(e) => Failure(NativeCore.ErrorMessage(e))
  }

  method NormalizeFfprobeJson(heap: NativeHeap, serde: NativeCore.SerdeJson, input: Option<seq<byte>>,
                              output: OutSlot, error: OutSlot) returns (code: int)
    requires heap.Valid() && output != error
    modifies heap, output, error
    ensures heap.Valid() && heap.freed == old(heap.freed)
    ensures code == Run(input, NormalizeAction(serde)).exitCode
    ensures Delivered(heap, old(heap.live), output, error, Run(input, NormalizeAction(serde)))
  {
    code := RunWithBuffers(heap, input, output, error, NormalizeAction(serde));
  }

  method ParseKeyframeCsv(heap: NativeHeap, serde: NativeCore.SerdeJson, input: Option<seq<byte>>,
                          output: OutSlot, error: OutSlot) returns (code: int)
    requires heap.Valid() && output != error
    modifies heap, output, error
    ensures heap.Valid() && heap.freed == old(heap.freed)
    ensures code == Run(input, ParseKeyframeAction(serde)).exitCode
    ensures Delivered(heap, old(heap.live), output, error, Run(input, ParseKeyframeAction(serde)))
  {
    code := RunWithBuffers(heap, input, output, error, ParseKeyframeAction(serde));
  }

  /** An error message is never empty, so a failed call always hands back an error
      buffer. */
  lemma ErrorMessageNonEmpty(e: NativeCore.NativeCoreError)
    ensures Utf8.Encode(NativeCore.ErrorMessage(e)) != []
  {
  }

  /** A parse call on non-empty input always succeeds: what .NET encodes is valid UTF-8
      and the transcript grammar rejects nothing. */
  lemma ParseNonEmptySucceeds(serde: NativeCore.SerdeJson, input: string)
    requires input != []
    ensures NativeCore.KeyframeCsvResult(Utf8.Encode(input)).Success?
    ensures Run(Some(Utf8.Encode(input)), ParseKeyframeAction(serde)) ==
      CallOutcome(0, serde.keyframeDataToVec(NativeCore.KeyframeCsvResult(Utf8.Encode(input)).value), [])
  {
    Utf8.DecodeEncode(input);
  }
}
