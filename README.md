# Jellyfin native interop core, modelled in Dafny

Jellyfin moves two jobs from .NET into a Rust library:

- parsing the keyframe transcript that `ffprobe` prints, with lines such as `packet,<pts>,<flags>`, `stream,<secs>` and `format,<secs>`;
- normalizing probe JSON, where an aspect ratio of `"0:1"` becomes `""`.

The Rust side has two crates:

- `jf_native_core` does the parsing and normalizing;
- `jf_native_abi` exposes them through a C ABI of out-parameter buffers `(ptr, len)`.

The .NET side has three parts:

- `NativeInteropRuntime` chooses a mode (`required`, `prefer`, `disabled`), probes the library once, calls it, reads the buffers back and frees them;
- `FfProbeKeyframeExtractor.ParseStream` dispatches between the native parser and the managed parser `ParseStreamManaged`;
- `NativeLibraryLocator` decides where the shared library is looked for.

This project models those five parts and proves what they promise:

- the two parsers: what each yields, where they agree and where they differ;
- normalization: what it rewrites, and that it is idempotent;
- the buffer protocol: exit codes, slot contents and heap ownership;
- the dispatch policy, for each mode;
- the order of the locator's candidates and its first-success rule.

Modules:

- `Wrappers`: `Option` and `Result`.
- `Text`: whitespace, trimming, ASCII case and splitting. These are the .NET and Rust string primitives the core uses.
- `Utf8`: strict UTF-8 decoding (Rust `str::from_utf8`), encoding (`Encoding.UTF8.GetBytes`) and lossy decoding.
- `Seconds`: decimal seconds and their conversion to 100 ns ticks.
- `Clr`: the .NET exceptions that escape the managed code.
- `NativeCore`: `jf_native_core/src/lib.rs`.
- `NativeAbi`: `jf_native_abi/src/lib.rs`.
- `InteropRuntime`: `NativeInteropRuntime.cs`.
- `KeyframeExtractor`: `ParseStream` and `ParseStreamManaged`.
- `LibraryLocator`: `NativeLibraryLocator.cs`.

Parameters stand in for what lies outside the core:

- the environment variables `JELLYFIN_NATIVE_MODE` and `JELLYFIN_NATIVE_LIBRARY_PATH`;
- the outcome of loading the library;
- the file-system and loader oracles `Directory.Exists`, `File.Exists` and `NativeLibrary.TryLoad`;
- the JSON codecs (`serde_json` and `System.Text.Json`).

The native heap is a class `NativeAbi.NativeHeap`. It maps each live pointer to its bytes and logs the pointers it frees.

## Model

| member | source | states |
|---|---|---|
| NativeCore.ErrorMessage | native/jellyfin-native/jf_native_core/src/lib.rs:5-11 | a UTF-8 error renders with the prefix `invalid utf-8 input: `; a JSON error renders as `invalid json payload: ` followed by the codec's message |
| NativeCore.Lines | native/jellyfin-native/jf_native_core/src/lib.rs:45 | `str::lines`: no line comes out of the empty text and every other text gives at least one line; no line contains a line feed |
| NativeCore.Effect | native/jellyfin-native/jf_native_core/src/lib.rs:46-77 | a line that trims to empty changes nothing; a keyframe comes only from a trimmed line whose type is exactly `packet`, and a duration only from one whose type is exactly that duration's record name |
| NativeCore.ScanEffectsStep | native/jellyfin-native/jf_native_core/src/lib.rs:45-79 | reading one more line applies exactly that line's decision to the state held so far |
| NativeCore.Finish | native/jellyfin-native/jf_native_core/src/lib.rs:81-90 | the keyframes are kept as collected; the total is the ticks of the stream duration when it is positive, and of the format duration otherwise |
| NativeCore.KeyframeCsvResult | native/jellyfin-native/jf_native_core/src/lib.rs:37-40 | the parse fails exactly when the bytes are not UTF-8; the error is then `Utf8` and carries the decoder's position |
| NativeCore.ParseFfprobeKeyframeCsv | native/jellyfin-native/jf_native_core/src/lib.rs:37-91 | the in-place loop over the lines, with its three accumulators, returns what the reference definition `KeyframeCsvResult` says |
| NativeCore.MapLinesAppend | native/jellyfin-native/jf_native_core/src/lib.rs:45 | a per-line mapping over two pieces of a transcript joined is the two mappings joined |
| NativeCore.PresentAppend | native/jellyfin-native/jf_native_core/src/lib.rs:63 | collected values concatenate in order, so nothing is sorted or deduplicated |
| NativeCore.KeyframesAppend | native/jellyfin-native/jf_native_core/src/lib.rs:56-65 | the keyframes of a transcript split in two are those of the first part followed by those of the second, in encounter order |
| NativeCore.EffectKeyframeAgrees | native/jellyfin-native/jf_native_core/src/lib.rs:45-66 | the keyframe the loop body adds for a line is the reference keyframe of that line: a trimmed `packet` line whose flags start with `K_` and whose time parses |
| NativeCore.EffectDurationAgrees | native/jellyfin-native/jf_native_core/src/lib.rs:45-76 | the duration the loop body sets for a line is the reference duration of that line for that record type |
| NativeCore.RecordDurationAgrees | native/jellyfin-native/jf_native_core/src/lib.rs:67-76 | a trimmed `stream` or `format` line sets the duration of its own kind exactly when its value parses, and no other kind |
| NativeCore.OtherLineSetsNoDuration | native/jellyfin-native/jf_native_core/src/lib.rs:56-77 | any other non-blank line, a `packet` line included, sets no duration |
| NativeCore.ScanEffectsKeyframes | native/jellyfin-native/jf_native_core/src/lib.rs:63 | the keyframe list the fold accumulates is the present keyframes of the decisions, in order |
| NativeCore.ScanEffectsDuration | native/jellyfin-native/jf_native_core/src/lib.rs:67-76 | each duration the fold holds is the last one set, or 0 when none was set |
| NativeCore.ScanKeyframes | native/jellyfin-native/jf_native_core/src/lib.rs:56-65 | the parser's keyframes are exactly the keyframes of the qualifying packet lines, in line order; other packet lines contribute nothing |
| NativeCore.KeyframesAgree | native/jellyfin-native/jf_native_core/src/lib.rs:56-65 | line by line, the loop's keyframe decisions equal the reference keyframes |
| NativeCore.ScanDuration | native/jellyfin-native/jf_native_core/src/lib.rs:67-76 | the parser's stream (or format) duration is that of the last parseable line of its kind |
| NativeCore.DurationsAgree | native/jellyfin-native/jf_native_core/src/lib.rs:67-76 | line by line, the loop's duration decisions equal the reference durations |
| NativeCore.LastPresentIs | native/jellyfin-native/jf_native_core/src/lib.rs:67-76 | the last value present wins, whatever values come before it |
| NativeCore.LastPresentNone | native/jellyfin-native/jf_native_core/src/lib.rs:41-43 | with no value present, the initial value stays |
| NativeCore.LastDurationWins | native/jellyfin-native/jf_native_core/src/lib.rs:67-76 | a later parseable `stream`/`format` line overrides earlier ones, and unparseable lines after it leave it in place |
| NativeCore.LastDurationDefault | native/jellyfin-native/jf_native_core/src/lib.rs:41-76 | with no parseable line of a kind, that duration stays 0 |
| NativeCore.ParseCharacterized | native/jellyfin-native/jf_native_core/src/lib.rs:37-91 | on UTF-8 input the result is the ticks of the stream duration when it is positive, else of the format duration, together with all qualifying keyframes in line order |
| NativeCore.BlankTranscript | native/jellyfin-native/jf_native_core/src/lib.rs:41-89 | a transcript of blank lines only gives duration 0 and no keyframes |
| NativeCore.BlankScan | native/jellyfin-native/jf_native_core/src/lib.rs:45-49 | lines that trim to empty leave the initial state untouched |
| NativeCore.NoEffectScan | native/jellyfin-native/jf_native_core/src/lib.rs:41-49 | a run of lines that change nothing leaves the initial state |
| NativeCore.EmptyTranscript | native/jellyfin-native/jf_native_core/src/lib.rs:41-89 | the empty input gives duration 0 and no keyframes |
| NativeCore.UnknownRecordIgnored | native/jellyfin-native/jf_native_core/src/lib.rs:55-77 | record types are compared case-sensitively after trimming, and any type other than `packet`, `stream` or `format` (say `PACKET`) changes nothing |
| NativeCore.UnsetAspectIsExact | native/jellyfin-native/jf_native_core/src/lib.rs:95-99 | the ASCII-case-insensitive test against `"0:1"` matches the string `"0:1"` and no other value |
| NativeCore.NormalizeAspectField | native/jellyfin-native/jf_native_core/src/lib.rs:93-105 | a non-object is unchanged; in an object, the key set is kept, the named field becomes `""` exactly when it holds an unset aspect ratio, and every other member is untouched |
| NativeCore.NormalizeStream | native/jellyfin-native/jf_native_core/src/lib.rs:30-31 | in a stream object, exactly the two aspect-ratio members that hold `"0:1"` become `""`, and everything else is kept |
| NativeCore.NormalizedDocument | native/jellyfin-native/jf_native_core/src/lib.rs:23-32 | a document without a top-level `streams` array is unchanged; otherwise its other members are kept, the stream count is kept, and stream i becomes the normalized stream i |
| NativeCore.NormalizeFfprobeDocument | native/jellyfin-native/jf_native_core/src/lib.rs:23-32 | the in-place loop over the streams array yields the normalized document |
| NativeCore.NormalizeStreamIdempotent | native/jellyfin-native/jf_native_core/src/lib.rs:93-105 | normalizing a stream twice is normalizing it once |
| NativeCore.NormalizeIdempotent | native/jellyfin-native/jf_native_core/src/lib.rs:19-35 | normalizing a document twice is normalizing it once |
| NativeCore.ManagedNormalizeAspect | tests/Jellyfin.MediaEncoding.Tests/Probing/NativeProbeNormalizerParityTests.cs:53-56 | the managed reference mapping keeps null, and changes a value only to `""` |
| NativeCore.NormalizeStreamMatchesManaged | tests/Jellyfin.MediaEncoding.Tests/Probing/NativeProbeNormalizerParityTests.cs:34-45 | for either aspect-ratio property, reading the normalized stream gives the managed mapping of reading the original one |
| NativeCore.NormalizeMatchesManaged | tests/Jellyfin.MediaEncoding.Tests/Probing/NativeProbeNormalizerParityTests.cs:34-45 | over the whole document, the stream count is kept and every stream's two aspect ratios read as the managed mapping says |
| NativeCore.NormalizeJsonResult | native/jellyfin-native/jf_native_core/src/lib.rs:19-34 | normalization fails exactly when the codec rejects the bytes, and then with a `Json` error carrying the codec's message |
| NativeCore.NormalizeFfprobeJson | native/jellyfin-native/jf_native_core/src/lib.rs:19-35 | decode, normalize in place and encode give `NormalizeJsonResult` |
| NativeAbi.NativeHeap.constructor | native/jellyfin-native/jf_native_abi/src/lib.rs:106-129 | a fresh heap owns nothing and has freed nothing |
| NativeAbi.Healthcheck | native/jellyfin-native/jf_native_abi/src/lib.rs:10-13 | the healthcheck always returns 1 |
| NativeAbi.NativeHeap.Contents | native/jellyfin-native/jf_native_abi/src/lib.rs:4-8 | an owned buffer holds as many bytes as its length says, and an empty buffer holds none |
| NativeAbi.NativeHeap.Leak | native/jellyfin-native/jf_native_abi/src/lib.rs:121-124 | handing out non-empty bytes yields a fresh non-null pointer that maps to exactly those bytes, and the rest of the heap is unchanged |
| NativeAbi.NativeHeap.Reclaim | native/jellyfin-native/jf_native_abi/src/lib.rs:21-23 | freeing a live pointer removes it and logs it, and nothing else changes |
| NativeAbi.OutSlot.constructor | native/jellyfin-native/jf_native_abi/src/lib.rs:4-8 | a new slot holds the empty buffer `(null, 0)` |
| NativeAbi.FreeBuffer | native/jellyfin-native/jf_native_abi/src/lib.rs:15-24 | does nothing for a null pointer or length 0; otherwise reclaims exactly that buffer |
| NativeAbi.WriteBuffer | native/jellyfin-native/jf_native_abi/src/lib.rs:106-129 | empty bytes store `(null, 0)` and allocate nothing; otherwise the slot gets a fresh non-null pointer with length equal to the byte count, owning those bytes |
| NativeAbi.WriteError | native/jellyfin-native/jf_native_abi/src/lib.rs:102-104 | the slot receives the UTF-8 bytes of the message, under the same rules as `WriteBuffer` |
| NativeAbi.Run | native/jellyfin-native/jf_native_abi/src/lib.rs:83-99 | the exit code is 0 or -1, and at most one slot is non-empty. The code is 0 exactly when the input is non-empty and the action succeeds, and then the output holds the action's bytes. An empty input yields -1 with error `input cannot be empty`. A failed action yields -1 with its message in the error slot |
| NativeAbi.DeliverOutput | native/jellyfin-native/jf_native_abi/src/lib.rs:90-94 | writing the bytes to output with error left cleared delivers the success outcome |
| NativeAbi.DeliverError | native/jellyfin-native/jf_native_abi/src/lib.rs:83-98 | writing the message to error with output left cleared delivers the failure outcome |
| NativeAbi.RunWithBuffers | native/jellyfin-native/jf_native_abi/src/lib.rs:50-100 | a null slot gives -1 and writes nothing, leaving the heap and the other slot unchanged. Otherwise both slots are cleared first, the code is `Run`'s, and the slots and heap end up exactly as `Run`'s outcome says |
| NativeAbi.NormalizeFfprobeJson | native/jellyfin-native/jf_native_abi/src/lib.rs:26-34 | the entry point is `RunWithBuffers` with the normalizer as its action |
| NativeAbi.ParseKeyframeCsv | native/jellyfin-native/jf_native_abi/src/lib.rs:36-48 | the entry point is `RunWithBuffers` with parse-then-serialize as its action |
| NativeAbi.ErrorMessageNonEmpty | native/jellyfin-native/jf_native_abi/src/lib.rs:95-104 | a core error's message is never empty, so a failed call always leaves a non-empty error buffer |
| NativeAbi.ParseNonEmptySucceeds | native/jellyfin-native/jf_native_abi/src/lib.rs:36-48 | bytes produced by encoding a string are valid UTF-8, so a non-empty transcript always exits 0 with the serialized result in output |
| InteropRuntime.ResolveMode | src/Jellyfin.NativeInterop/NativeInteropRuntime.cs:160-176 | no value, or whitespace only, gives Required; Prefer and Disabled arise only from a value that trims and lower-cases to `prefer` or `disabled` |
| InteropRuntime.ResolveModeSpelling | src/Jellyfin.NativeInterop/NativeInteropRuntime.cs:169-175 | any ASCII casing of `required`, `prefer` or `disabled`, padded with whitespace on either side, resolves to that mode |
| InteropRuntime.ModeWordEnds | src/Jellyfin.NativeInterop/NativeInteropRuntime.cs:169-175 | the three mode words neither start nor end with whitespace, in any casing |
| InteropRuntime.ResolveModeDefault | src/Jellyfin.NativeInterop/NativeInteropRuntime.cs:164-175 | every value that is neither `prefer` nor `disabled` after trimming and lower-casing gives Required |
| InteropRuntime.CheckAvailability | src/Jellyfin.NativeInterop/NativeInteropRuntime.cs:148-158 | the library counts as available exactly when it loaded and its healthcheck returned 1; the three caught loader failures give false |
| InteropRuntime.AbiLibraryAvailable | src/Jellyfin.NativeInterop/NativeInteropRuntime.cs:152 | the library's own healthcheck makes it available |
| InteropRuntime.CopyOf | src/Jellyfin.NativeInterop/NativeInteropRuntime.cs:125-136 | a buffer up to `int.MaxValue` bytes copies to exactly its bytes, and a longer one throws `OverflowException` from the checked cast |
| InteropRuntime.ReadOutcome | src/Jellyfin.NativeInterop/NativeInteropRuntime.cs:101-117 | exit 0 gives the output bytes. Any other exit gives `native call failed` when the error buffer is empty, and its lossy UTF-8 text otherwise. It throws exactly when the buffer read is too long to copy |
| InteropRuntime.ReadOfRun | src/Jellyfin.NativeInterop/NativeInteropRuntime.cs:101-117 | reading back a call on non-empty input gives the action's bytes on success, and its message on failure (`native call failed` when the message is empty) |
| InteropRuntime.ReadOfMessage | src/Jellyfin.NativeInterop/NativeInteropRuntime.cs:114-115 | an error message written as UTF-8 reads back as the same message |
| InteropRuntime.ReadOfEmptyInput | src/Jellyfin.NativeInterop/NativeInteropRuntime.cs:101-117 | a call on empty input reads back as a failure with `input cannot be empty` |
| InteropRuntime.ReadOfShortMessage | src/Jellyfin.NativeInterop/NativeInteropRuntime.cs:114-115 | a message short enough to be copied reads back unchanged |
| InteropRuntime.EncodeLength | src/Jellyfin.NativeInterop/NativeInteropRuntime.cs:76 | UTF-8 needs at most four bytes per character |
| InteropRuntime.Pin | src/Jellyfin.NativeInterop/NativeInteropRuntime.cs:51-80 | `fixed` on a span gives a null pointer exactly when the span is empty, and otherwise pins the same bytes |
| InteropRuntime.CopyBuffer | src/Jellyfin.NativeInterop/NativeInteropRuntime.cs:125-136 | a null or zero-length buffer copies as empty; otherwise the copy is `CopyOf` the buffer's contents |
| InteropRuntime.FreeBuffer | src/Jellyfin.NativeInterop/NativeInteropRuntime.cs:138-146 | a null or zero-length buffer is never passed to the native free; any other buffer is freed |
| InteropRuntime.TryReadResult | src/Jellyfin.NativeInterop/NativeInteropRuntime.cs:101-123 | the result is `ReadOutcome` of the buffers' contents as they were before freeing. Both non-empty buffers are then freed in order, output first and then error, on every path, and nothing else is freed |
| InteropRuntime.CopyResult | src/Jellyfin.NativeInterop/NativeInteropRuntime.cs:106-117 | the `try` block gives `ReadOutcome` of the two buffers' contents, and changes nothing |
| InteropRuntime.FreeBoth | src/Jellyfin.NativeInterop/NativeInteropRuntime.cs:118-122 | the `finally` block frees the non-empty buffers, output before error, and nothing else |
| InteropRuntime.EmptyTranscriptRefused | src/Jellyfin.NativeInterop/NativeInteropRuntime.cs:76-82 | with the library available in a non-Disabled mode, the empty transcript fails with `input cannot be empty`, because its zero bytes pin as a null pointer |
| InteropRuntime.ParseRoundTrip | src/Jellyfin.NativeInterop/NativeInteropRuntime.cs:76-96 | when the DTO reader reads this transcript's serialized result back and it fits in `int.MaxValue` bytes, a non-empty transcript comes back with exactly the native parser's ticks and keyframes |
| InteropRuntime.NormalizeRoundTrip | src/Jellyfin.NativeInterop/NativeInteropRuntime.cs:49-56 | with the library available, non-empty JSON comes back as the encoded normalized document, or as a failure carrying `invalid json payload: ` and the codec's message |
| InteropRuntime.NormalizeOutcome | src/Jellyfin.NativeInterop/NativeInteropRuntime.cs:32-57 | in Disabled mode the result is `native mode disabled`; in any other mode with the library unavailable it is `native library unavailable` |
| InteropRuntime.ParseOutcome | src/Jellyfin.NativeInterop/NativeInteropRuntime.cs:59-99 | the same two refusals as `NormalizeOutcome`, checked before any call |
| InteropRuntime.PayloadOutcome | src/Jellyfin.NativeInterop/NativeInteropRuntime.cs:83-96 | a payload is taken exactly when the read-back succeeded and the DTO parsed, and then the result carries the DTO's ticks and keyframes. A failed read-back is passed on unchanged. The result throws exactly when the read-back threw or the DTO reader rejected the payload |
| InteropRuntime.NullPayloadRefused | src/Jellyfin.NativeInterop/NativeInteropRuntime.cs:88-92 | with the library available in a non-Disabled mode, a non-empty transcript whose serialized result the DTO reader reads as null fails with `native parser returned an invalid payload` |
| InteropRuntime.MalformedPayloadThrows | src/Jellyfin.NativeInterop/NativeInteropRuntime.cs:83-96 | in the same situation, a serialized result the DTO reader rejects makes the call throw `JsonException` with the reader's message |
| InteropRuntime.DeliveredReadable | src/Jellyfin.NativeInterop/NativeInteropRuntime.cs:101-123 | the buffers a call delivers are owned and hold that call's bytes. They are distinct, at most one of them is non-empty, and freeing it gives back the heap from before the call |
| InteropRuntime.ReadBackRestores | src/Jellyfin.NativeInterop/NativeInteropRuntime.cs:118-122 | freeing what a call delivered logs at most one pointer, and that pointer was not live before the call |
| InteropRuntime.ReadDelivered | src/Jellyfin.NativeInterop/NativeInteropRuntime.cs:101-123 | reading back a delivered call yields `ReadOutcome` of its outcome and restores the heap from before the call |
| InteropRuntime.CallNormalize | src/Jellyfin.NativeInterop/NativeInteropRuntime.cs:49-56 | pinning, calling the entry point and reading back yields the read-back of `Run`, and leaks nothing |
| InteropRuntime.CallParse | src/Jellyfin.NativeInterop/NativeInteropRuntime.cs:78-98 | pinning, calling, reading back and deserializing yields the DTO outcome of `Run`'s read-back, and leaks nothing |
| InteropRuntime.DeserializePayload | src/Jellyfin.NativeInterop/NativeInteropRuntime.cs:83-96 | the `is null` test and the DTO copy give `PayloadOutcome` of the read-back |
| InteropRuntime.NativeInteropRuntime.constructor | src/Jellyfin.NativeInterop/NativeInteropRuntime.cs:14-20 | the mode is resolved from the environment value, and availability is not yet computed |
| InteropRuntime.NativeInteropRuntime.IsNativeAvailable | src/Jellyfin.NativeInterop/NativeInteropRuntime.cs:12-22 | the flag equals `CheckAvailability` and is memoized: once computed, later reads do not probe again |
| InteropRuntime.NativeInteropRuntime.EnsureRuntimeAvailability | src/Jellyfin.NativeInterop/NativeInteropRuntime.cs:24-30 | it throws the Required-mode `InvalidOperationException` exactly when the mode is Required and the library is unavailable; in other modes it does not probe |
| InteropRuntime.NativeInteropRuntime.TryNormalize | src/Jellyfin.NativeInterop/NativeInteropRuntime.cs:32-57 | the result is `NormalizeOutcome`. In Disabled mode availability is not read. The heap's live buffers are as before the call, with at most one fresh pointer freed |
| InteropRuntime.NativeInteropRuntime.TryParse | src/Jellyfin.NativeInterop/NativeInteropRuntime.cs:59-99 | the result is `ParseOutcome`. In Disabled mode availability is not read. The heap's live buffers are as before the call, with at most one fresh pointer freed |
| KeyframeExtractor.ReadLines | src/Jellyfin.MediaEncoding.Keyframes/FfProbe/FfProbeKeyframeExtractor.cs:103-105 | `ReadLine`: no line comes out of the empty text; no line contains a carriage return or a line feed |
| KeyframeExtractor.ManagedEffect | src/Jellyfin.MediaEncoding.Keyframes/FfProbe/FfProbeKeyframeExtractor.cs:107-115 | the loop body throws on a line exactly when the line is non-empty and has no comma, or is a `packet` record (in any case) without a second comma; the exception is then `ArgumentOutOfRangeException` |
| KeyframeExtractor.RecordEffect | src/Jellyfin.MediaEncoding.Keyframes/FfProbe/FfProbeKeyframeExtractor.cs:116-144 | a record throws exactly when its type is `packet` in any case and its rest has no comma. A keyframe comes only from a `packet` record, and a duration only from a record whose type matches that duration's name ignoring case and whose value parses to it |
| KeyframeExtractor.PacketEffect | src/Jellyfin.MediaEncoding.Keyframes/FfProbe/FfProbeKeyframeExtractor.cs:119-129 | a packet record throws exactly when its rest has no second comma; it never sets a duration, and it adds a keyframe only when the flags start with `K_` and the time parses to that keyframe |
| KeyframeExtractor.DurationEffect | src/Jellyfin.MediaEncoding.Keyframes/FfProbe/FfProbeKeyframeExtractor.cs:133-143 | a `stream`/`format` value never adds a keyframe, and it sets the duration of its own kind exactly when it parsed, to the parsed value |
| KeyframeExtractor.ScanLines | src/Jellyfin.MediaEncoding.Keyframes/FfProbe/FfProbeKeyframeExtractor.cs:105-145 | a scan of the lines that throws, throws `ArgumentOutOfRangeException` |
| KeyframeExtractor.ManagedResult | src/Jellyfin.MediaEncoding.Keyframes/FfProbe/FfProbeKeyframeExtractor.cs:97-151 | in the model the only exception the managed parser throws is the `ArgumentOutOfRangeException` of slicing with index -1 |
| KeyframeExtractor.ScanLinesEffects | src/Jellyfin.MediaEncoding.Keyframes/FfProbe/FfProbeKeyframeExtractor.cs:105-145 | scanning the lines is scanning their per-line outcomes |
| KeyframeExtractor.FailureSticks | src/Jellyfin.MediaEncoding.Keyframes/FfProbe/FfProbeKeyframeExtractor.cs:113-121 | an exception on one line ends the scan with that exception, whatever follows |
| KeyframeExtractor.ScanLinesStep | src/Jellyfin.MediaEncoding.Keyframes/FfProbe/FfProbeKeyframeExtractor.cs:105-145 | reading one more line applies that line's outcome to the state so far |
| KeyframeExtractor.LinesFailureSticks | src/Jellyfin.MediaEncoding.Keyframes/FfProbe/FfProbeKeyframeExtractor.cs:113-121 | once a line throws, every longer prefix of the transcript throws the same exception |
| KeyframeExtractor.ManagedFailsAt | src/Jellyfin.MediaEncoding.Keyframes/FfProbe/FfProbeKeyframeExtractor.cs:113-121 | the first line that throws decides the whole parse's exception |
| KeyframeExtractor.ReadManagedLine | src/Jellyfin.MediaEncoding.Keyframes/FfProbe/FfProbeKeyframeExtractor.cs:107-144 | the loop body's imperative updates, and its exceptions, are the line's outcome applied to the accumulators |
| KeyframeExtractor.ReadPacketRecord | src/Jellyfin.MediaEncoding.Keyframes/FfProbe/FfProbeKeyframeExtractor.cs:116-130 | a packet record without a second comma throws; otherwise the time of a `K_` packet whose time parses is appended as ticks, and nothing else changes |
| KeyframeExtractor.ReadDurationRecord | src/Jellyfin.MediaEncoding.Keyframes/FfProbe/FfProbeKeyframeExtractor.cs:131-144 | a parseable value replaces the duration of its kind; an unparseable one leaves the state unchanged |
| KeyframeExtractor.ParseStreamManaged | src/Jellyfin.MediaEncoding.Keyframes/FfProbe/FfProbeKeyframeExtractor.cs:97-151 | the loop over `ReadLine` with its three accumulators returns `ManagedResult` |
| KeyframeExtractor.ScanManagedAllSuccess | src/Jellyfin.MediaEncoding.Keyframes/FfProbe/FfProbeKeyframeExtractor.cs:105-145 | when no line throws, the managed scan is the plain fold of the line decisions |
| KeyframeExtractor.ScanManagedSucceeds | src/Jellyfin.MediaEncoding.Keyframes/FfProbe/FfProbeKeyframeExtractor.cs:105-145 | a scan that succeeds had no line that throws |
| KeyframeExtractor.ManagedCharacterized | src/Jellyfin.MediaEncoding.Keyframes/FfProbe/FfProbeKeyframeExtractor.cs:97-151 | the managed parse succeeds exactly when no line throws. It then yields the keyframes of the `K_` packet lines with a parseable time, in order, and the ticks of the last stream duration when positive, else of the last format duration (0 when none) |
| KeyframeExtractor.ManagedThrowsAtFirstBadLine | src/Jellyfin.MediaEncoding.Keyframes/FfProbe/FfProbeKeyframeExtractor.cs:113-121 | a line that throws makes the whole parse throw `ArgumentOutOfRangeException` |
| KeyframeExtractor.EmptyInputManaged | src/Jellyfin.MediaEncoding.Keyframes/FfProbe/FfProbeKeyframeExtractor.cs:99-150 | the empty input gives duration 0 and no keyframes |
| KeyframeExtractor.ManagedNoCommaThrows | src/Jellyfin.MediaEncoding.Keyframes/FfProbe/FfProbeKeyframeExtractor.cs:113-114 | a non-empty line without a comma slices with -1 and throws |
| KeyframeExtractor.WhiteSpaceLineDiffers | src/Jellyfin.MediaEncoding.Keyframes/FfProbe/FfProbeKeyframeExtractor.cs:107-114 | a whitespace-only line is not skipped by the managed parser, which throws on it, while the native parser ignores it |
| KeyframeExtractor.ManagedPacketWithoutFlagsThrows | src/Jellyfin.MediaEncoding.Keyframes/FfProbe/FfProbeKeyframeExtractor.cs:119-120 | a packet line with one comma only throws on the second slice |
| KeyframeExtractor.ManagedIgnoresTypeCase | src/Jellyfin.MediaEncoding.Keyframes/FfProbe/FfProbeKeyframeExtractor.cs:116-138 | record types differing only in ASCII case give the same outcome |
| KeyframeExtractor.ManagedUnknownIgnored | src/Jellyfin.MediaEncoding.Keyframes/FfProbe/FfProbeKeyframeExtractor.cs:116-144 | a line whose type is none of the three, in any case, changes nothing |
| KeyframeExtractor.SplitAtComma | src/Jellyfin.MediaEncoding.Keyframes/FfProbe/FfProbeKeyframeExtractor.cs:113-115 | the slices around the first comma give back the type and the rest |
| KeyframeExtractor.RecordTypesDisjoint | src/Jellyfin.MediaEncoding.Keyframes/FfProbe/FfProbeKeyframeExtractor.cs:116-138 | no record type matches two of `packet`, `stream` and `format`, even ignoring case, so the three branches never compete |
| KeyframeExtractor.ManagedEffectAgrees | src/Jellyfin.MediaEncoding.Keyframes/FfProbe/FfProbeKeyframeExtractor.cs:107-144 | on a line it does not throw on, the loop body adds exactly the reference keyframe of the line and sets exactly its reference duration of each kind |
| KeyframeExtractor.ManagedKeyframesAgree | src/Jellyfin.MediaEncoding.Keyframes/FfProbe/FfProbeKeyframeExtractor.cs:116-130 | when no line throws, the keyframe decisions are, line by line, the reference keyframes |
| KeyframeExtractor.ManagedDurationsAgree | src/Jellyfin.MediaEncoding.Keyframes/FfProbe/FfProbeKeyframeExtractor.cs:131-144 | when no line throws, the duration decisions are, line by line, the reference durations of the chosen kind |
| KeyframeExtractor.ManagedReference | src/Jellyfin.MediaEncoding.Keyframes/FfProbe/FfProbeKeyframeExtractor.cs:97-151 | the managed parse succeeds exactly when no line throws; it then yields the reference keyframes in line order, and the ticks of the last reference stream duration when positive, else of the last format duration (0 when none) |
| KeyframeExtractor.CleanLineAgrees | tests/Jellyfin.MediaEncoding.Keyframes.Tests/FfProbe/NativeKeyframeParserParityTests.cs:34-36 | on a clean line (lowercase type, no padding, the commas the type needs), the managed outcome equals the native decision |
| KeyframeExtractor.ReadLinesMatchLines | src/Jellyfin.MediaEncoding.Keyframes/FfProbe/FfProbeKeyframeExtractor.cs:103-105 | when every carriage return is immediately followed by a line feed, .NET `ReadLine` and Rust `str::lines` split the text into the same lines |
| KeyframeExtractor.LoneCarriageReturnSplitsOnlyManaged | src/Jellyfin.MediaEncoding.Keyframes/FfProbe/FfProbeKeyframeExtractor.cs:103-105 | a carriage return not followed by a line feed ends a line for `ReadLine` and not for `str::lines` |
| KeyframeExtractor.ManagedMatchesNative | tests/Jellyfin.MediaEncoding.Keyframes.Tests/FfProbe/NativeKeyframeParserParityTests.cs:34-36 | on transcripts with clean lines in which every carriage return is followed by a line feed, the managed parser yields the same ticks and keyframes as the native parser on the UTF-8 bytes |
| KeyframeExtractor.ParseStream | src/Jellyfin.MediaEncoding.Keyframes/FfProbe/FfProbeKeyframeExtractor.cs:76-95 | the result is `StreamOutcome` of the parser's state, Disabled mode never probes availability, and native buffers do not leak |
| KeyframeExtractor.StreamOutcome | src/Jellyfin.MediaEncoding.Keyframes/FfProbe/FfProbeKeyframeExtractor.cs:76-95 | in Required mode a result is returned only when the native parse succeeded; in any mode but Disabled an exception from the native call propagates unchanged |
| KeyframeExtractor.DisabledUsesManaged | src/Jellyfin.MediaEncoding.Keyframes/FfProbe/FfProbeKeyframeExtractor.cs:83-93 | in Disabled mode the result is the managed parser's |
| KeyframeExtractor.NativeSuccessReturned | src/Jellyfin.MediaEncoding.Keyframes/FfProbe/FfProbeKeyframeExtractor.cs:83-86 | in another mode, a successful native parse is returned with the same ticks and keyframes |
| KeyframeExtractor.RequiredNeverFallsBack | src/Jellyfin.MediaEncoding.Keyframes/FfProbe/FfProbeKeyframeExtractor.cs:88-91 | in Required mode a failed native parse throws `InvalidOperationException` and never falls back |
| KeyframeExtractor.PreferFallsBack | src/Jellyfin.MediaEncoding.Keyframes/FfProbe/FfProbeKeyframeExtractor.cs:88-93 | in Prefer mode a failed native parse gives exactly the managed result |
| KeyframeExtractor.EmptyTranscriptPrefer | src/Jellyfin.MediaEncoding.Keyframes/FfProbe/FfProbeKeyframeExtractor.cs:83-93 | in Prefer mode the empty transcript gives duration 0 and no keyframes, whether or not the library is available |
| KeyframeExtractor.EmptyTranscriptRequired | src/Jellyfin.MediaEncoding.Keyframes/FfProbe/FfProbeKeyframeExtractor.cs:83-91 | in Required mode the empty transcript always throws, since the library refuses empty input |
| KeyframeExtractor.PreferIsTransparent | src/Jellyfin.MediaEncoding.Keyframes/FfProbe/FfProbeKeyframeExtractor.cs:76-95 | in Prefer mode, on a non-empty transcript with clean lines whose carriage returns are all followed by line feeds, the result is the managed one whether or not the library is available, provided the DTO reader reads this transcript's serialized result back |
| LibraryLocator.PlatformLibraryFileName | src/Jellyfin.NativeInterop/NativeLibraryLocator.cs:81-94 | the name is `jf_native_abi.dll` on Windows, `libjf_native_abi.dylib` on macOS and `libjf_native_abi.so` elsewhere |
| LibraryLocator.RuntimeIdentifier | src/Jellyfin.NativeInterop/NativeLibraryLocator.cs:96-126 | the id is empty exactly for an unknown architecture or OS; otherwise it is `win-`, `osx-` or `linux-` followed by `x64` or `arm64` |
| LibraryLocator.RuntimeIdentifierInjective | src/Jellyfin.NativeInterop/NativeLibraryLocator.cs:96-126 | distinct platforms never share a non-empty runtime id |
| LibraryLocator.PlatformLibraryFileNamesDistinct | src/Jellyfin.NativeInterop/NativeLibraryLocator.cs:81-94 | Windows, macOS and the rest use different file names |
| LibraryLocator.CombineEndsWith | src/Jellyfin.NativeInterop/NativeLibraryLocator.cs:52-76 | `Path.Combine` produces a path ending with its last part |
| LibraryLocator.FullName | src/Jellyfin.NativeInterop/NativeLibraryLocator.cs:133-135 | a directory's full name is absolute |
| LibraryLocator.Parent | src/Jellyfin.NativeInterop/NativeLibraryLocator.cs:138 | only the root has no parent, and a parent drops the last directory name |
| LibraryLocator.Nearest | src/Jellyfin.NativeInterop/NativeLibraryLocator.cs:128-142 | a root found at or above a depth really holds the solution file |
| LibraryLocator.NearestNone | src/Jellyfin.NativeInterop/NativeLibraryLocator.cs:128-142 | nothing is found exactly when no ancestor in range holds the solution file |
| LibraryLocator.NearestIsNearest | src/Jellyfin.NativeInterop/NativeLibraryLocator.cs:128-142 | no directory closer to the start holds the solution file than the one found |
| LibraryLocator.FindRepositoryRoot | src/Jellyfin.NativeInterop/NativeLibraryLocator.cs:128-142 | the loop walking up through parents terminates and returns `RepositoryRoot` |
| LibraryLocator.RepositoryRoot | src/Jellyfin.NativeInterop/NativeLibraryLocator.cs:128-142 | a root found is an absolute path whose `Jellyfin.sln` exists |
| LibraryLocator.RepositoryRootIsNearest | src/Jellyfin.NativeInterop/NativeLibraryLocator.cs:128-142 | the result is the nearest ancestor (the start included) holding `Jellyfin.sln`, or null when none does |
| LibraryLocator.CandidateCount | src/Jellyfin.NativeInterop/NativeLibraryLocator.cs:43-79 | the count is [override] + 1 + [rid] + [root]·(1 + [rid]), always between 1 and 6 |
| LibraryLocator.OverrideCandidates | src/Jellyfin.NativeInterop/NativeLibraryLocator.cs:47-58 | a missing or blank override gives no candidate and any other override exactly one: the override combined with the file name (ending with it) when it is a directory, and the override as given otherwise |
| LibraryLocator.SearchDirectories | src/Jellyfin.NativeInterop/NativeLibraryLocator.cs:60-78 | between one and four directories are searched, and the first is always the base directory |
| LibraryLocator.CandidatePaths | src/Jellyfin.NativeInterop/NativeLibraryLocator.cs:43-79 | the candidates are the override candidates followed by one per search directory, and the one right after the override is the base directory combined with the file name |
| LibraryLocator.CandidatesFollowDirectories | src/Jellyfin.NativeInterop/NativeLibraryLocator.cs:43-79 | the override, when set, comes first; then each search directory combined with the file name, in order |
| LibraryLocator.SearchDirectoryOrder | src/Jellyfin.NativeInterop/NativeLibraryLocator.cs:60-78 | the directories come in this fixed order: base, base/runtimes/rid/native, repo/native/jellyfin-native/target/release, repo/src/Jellyfin.NativeInterop/runtimes/rid/native; each is present under its condition |
| LibraryLocator.CandidatesEndWithFileName | src/Jellyfin.NativeInterop/NativeLibraryLocator.cs:47-76 | every candidate ends with the platform file name, except an override that is not a directory, which is used as given |
| LibraryLocator.FirstLoaded | src/Jellyfin.NativeInterop/NativeLibraryLocator.cs:25-31 | a found index is in range and its candidate loads |
| LibraryLocator.FirstLoadedIsFirst | src/Jellyfin.NativeInterop/NativeLibraryLocator.cs:25-31 | nothing is found exactly when no candidate loads; otherwise the index found is the first candidate that loads |
| LibraryLocator.LoadFirstCandidate | src/Jellyfin.NativeInterop/NativeLibraryLocator.cs:25-31 | the loop stops at the first candidate that loads and returns its handle, or returns nothing when none loads |
| LibraryLocator.ResolveLibrary | src/Jellyfin.NativeInterop/NativeLibraryLocator.cs:18-36 | the loop with its early return yields `Resolution` over the candidate list |
| LibraryLocator.Resolution | src/Jellyfin.NativeInterop/NativeLibraryLocator.cs:18-36 | a non-zero handle arises only for the library's own name, and is the handle of some candidate that loads or of the default search |
| LibraryLocator.ResolutionIsFirstSuccess | src/Jellyfin.NativeInterop/NativeLibraryLocator.cs:18-36 | another library name gives 0. Otherwise the first candidate that loads wins, and the default search (0 when it fails) is used only when none loads |
| Utf8.DecodeEncode | native/jellyfin-native/jf_native_core/src/lib.rs:38-39 | the strict decoder accepts every encoded string and gives it back |
| Utf8.DecodeLossyEncode | src/Jellyfin.NativeInterop/NativeInteropRuntime.cs:115 | the lossy decoder gives back every encoded string |
| Seconds.ParseUnsignedAccepts | src/Jellyfin.MediaEncoding.Keyframes/FfProbe/FfProbeKeyframeExtractor.cs:124-140 | the managed number grammar: digits with at most one decimal point, at least one digit, no sign |
| Seconds.ParseSignedAccepts | native/jellyfin-native/jf_native_core/src/lib.rs:60-73 | the native number grammar: the managed one with an optional leading `+` or `-` |
| Seconds.TicksExact | native/jellyfin-native/jf_native_core/src/lib.rs:62-87 | with at most seven decimals, the ticks are exactly the seconds times 10^7 |
| Seconds.TicksRounded | native/jellyfin-native/jf_native_core/src/lib.rs:62-87 | with more than seven decimals, the ticks are within half a tick of the seconds times 10^7 |

## Left out

- Seconds.Ticks: the conversion to ticks is exact decimal arithmetic, rounding half away from zero. The source converts binary floating-point values. Rust multiplies an `f64` by 10^7 and rounds. C# uses `Convert.ToInt64(keyframe * TicksPerSecond)` for keyframes and `TimeSpan.FromSeconds(duration).Ticks` for the duration. Floating-point rounding, and the differences between these three conversions, are not modelled.
- Seconds.ParseSigned: Rust's `f64` parsing also accepts exponents, `inf` and `nan`; these are not modelled.
- Seconds.ParseUnsigned: `double.TryParse` with `AllowDecimalPoint` is modelled as digits with one optional decimal point. Culture data and overflow to infinity are not modelled. Nor are the invariant-culture symbols `NaN`, `Infinity` and `-Infinity`, which `double.TryParse` also accepts: on a `K_` packet line they reach `Convert.ToInt64`, which throws `OverflowException`, and as the chosen duration they make `TimeSpan.FromSeconds` throw. The model treats such a time as unparseable, so that line adds nothing instead of throwing.
- KeyframeExtractor.ManagedResult and NativeCore.KeyframeCsvResult: tick values are unbounded integers in the model. The source bounds them to `long`/`i64`. In C#, `Convert.ToInt64` (a keyframe time, FfProbeKeyframeExtractor.cs line 127) and `TimeSpan.FromSeconds` (the chosen duration, line 150) throw `OverflowException` beyond that range, for example on `packet,1000000000000,K_` or `stream,1000000000000`. In Rust, `as i64` (lib.rs lines 63 and 88) saturates at the `i64` bounds. The model yields the exact tick count instead. So in `ManagedResult`, `ManagedCharacterized`, `ManagedReference` and `ManagedThrowsAtFirstBadLine`, "a line throws" means only the slicing with index -1.
- KeyframeExtractor.ManagedMatchesNative and KeyframeExtractor.PreferIsTransparent: both require every carriage return to be followed by a line feed. A lone carriage return ends a line for `ReadLine` and not for `str::lines` (`LoneCarriageReturnSplitsOnlyManaged`), so on such transcripts the two parsers can differ and the model states no agreement.
- KeyframeExtractor.PreferIsTransparent: the codec round trip is a precondition for the one transcript at hand, not a proved fact. The JSON codecs are parameters, and the model does not define their bytes.
- Text.ToLowerAscii: `ToLowerInvariant` and `OrdinalIgnoreCase` are modelled for ASCII letters only.
- Utf8.DecodeLossy: `Encoding.UTF8.GetString` is approximated by a decoder that writes one U+FFFD for each byte that does not start a well-formed sequence. .NET writes one U+FFFD per maximal ill-formed subsequence, and that is not modelled.
- The JSON codecs (`serde_json` and `System.Text.Json` with web defaults) are parameters. The model does not define the bytes of a JSON document, the order of object members or number formatting.
- NativeCore.SerdeJson: encoding never fails in the model. The `serde_json::to_vec` error paths, for a `Value` and for `ParsedKeyframeData`, are not modelled.
- NativeCore.ErrorMessage: after the `invalid utf-8 input: ` prefix, the model renders the decoder's position in a simplified form. Rust's wording for the length of the bad sequence is not modelled.
- InteropRuntime.NativeInteropRuntime.IsNativeAvailable: `Lazy<bool>` thread-safety is not modelled. The model proves that availability is memoized within one object.
- Loader exceptions other than the three that `CheckAvailability` catches are not modelled.
- The `NativeInteropFacade` singleton is not modelled; `ParseStream` receives the runtime as a parameter.
- The hosted startup service that calls `EnsureRuntimeAvailability` is not modelled.
- Process spawning and kill handling in `GetKeyframeData` are not modelled, because they are external-process I/O.
- The `StreamReader` that `ParseStream` reads to its end is replaced by the text it yields.
- Environment variables are read outside the model and passed in as parameters.
- LibraryLocator.ResolveLibrary: registering the resolver in the static constructor, and `EnsureResolverInitialized`, are not modelled, because they are .NET runtime plumbing.
- LibraryLocator.Combine: `Path.Combine` is modelled with `/` as the only separator and a single root. The property that a combined path ends with its last part is stated as the lemma `CombineEndsWith`. Drive letters, alternate separators and trailing separators in `AppContext.BaseDirectory` are not modelled.
- `NativeMethods` and the interfaces hold declarations only, so they are not modelled apart from the entry points they bind to.
- NativeAbi.RunWithBuffers: passing the same slot pointer as both output and error is excluded by its precondition, so the model does not say what such aliasing does.
- NativeAbi.NativeHeap: the addresses the Rust allocator chooses are not modelled, only that each is fresh and non-null. A `free_buffer` call with a pointer or length the library did not hand out is excluded by a precondition, because the source leaves it undefined.
- `usize`, `nuint` and `int` widths are not modelled, except the checked cast to `int` in `CopyBuffer`, whose overflow is an explicit outcome.
