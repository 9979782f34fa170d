# symphonia-decoder-libopus, modelled in Dafny

`SymphoniaDecoderLibOpus` is a Symphonia `Decoder` for Opus streams. It delegates the
decoding itself to libopus. libopus writes interleaved 16-bit samples into a fixed
scratch array. The adapter copies them into Symphonia's planar `AudioBuffer<i16>`, one
plane per channel. This project models that adapter as a value with pure operations and
proves properties about them:

- channel translation at construction (`try_new`);
- the clear / reserve / deinterleave sequence of `decode`, with the copy loop as a method;
- `reset`, `codec_params`, `finalize` and `last_decoded`;
- sessions of decode, reset and finalize calls.

Files:

- `outcomes.dfy` (`Outcomes`): `Option`, Symphonia's `Error::Unsupported`, and `Outcome`.
  `Outcome` keeps recoverable errors (`Err`) apart from the aborts of `unwrap()` (`Panic`,
  naming the call site).
- `pcm.dfy` (`Pcm`): the `i16` sample type and the constants 5760 frames, 2 channels,
  5760 × 2 scratch samples and 48000 Hz. It holds the reference definition `Deinterleave`
  and its inverse `Interleave`, with both round-trip laws. The interleaved position of
  frame `s`, channel `c` is written `Slot(s, c, channels)`. `SlotIsProduct` proves it
  equals `s * channels + c`. Counting it frame by frame keeps the proofs' arithmetic linear.
- `audio_buffer.dfy` (`AudioBuffers`): the part of Symphonia's `AudioBuffer` the adapter
  uses. A buffer has a channel bitmask, a capacity, a visible length and one storage
  region per channel. The operations are `new`, `clear`, `render_reserved`, writing
  through `planes_mut`, and `planes`. Symphonia's own source is not part of this model;
  these follow its documented behaviour.
- `lib_opus.dfy` (`LibOpus`): libopus as an oracle. Decoder creation accepts only the
  rates libopus documents (8, 12, 16, 24 and 48 kHz). A decode reply carries the frame
  count and the scratch array as libopus left it. `FitsOutput` is libopus's promise about
  a reply: the decoded `frames * channels` samples fit in the part of the array it was
  handed. `Fits` applies that to the whole 5760 × 2 array, which is what the adapter hands
  over. Its internal state is abstracted as the packets fed since the decoder was created
  or last reset. A reply does not depend on that history in the model.
- `adapter.dfy` (`OpusAdapter`): the adapter state, its invariant `Valid`, and the trait
  methods. It also holds the two copy loops, `FillPlane` and `FillPlanes`.
- `session.dfy` (`Session`): `Run` applies a sequence of calls, and lemmas state what
  holds after any run.
- `scenarios.dfy` (`Scenarios`): concrete streams (mono, stereo, 5.1) and a
  missing sample rate.

Behaviours of the code that a reader might not expect, modelled as written:

- An absent sample rate becomes `unwrap_or_default()`, i.e. 0, not a codec default rate
  (src/lib.rs:63). libopus refuses 0 Hz, so `try_new` panics at the `unwrap()` on
  src/lib.rs:64 (`Scenarios.MissingRatePanics`).
- A packet libopus rejects aborts at the `unwrap()` on src/lib.rs:102. It is not a
  recoverable decode error. A refused reset aborts in the same way (src/lib.rs:87).
- A stream that declares no channels aborts at the `unwrap()` on src/lib.rs:54.
- The planar buffer always reports 48000 Hz (src/lib.rs:70), even when libopus decodes at
  the stream's own rate, e.g. 16 kHz (`Scenarios.PlanarRateIgnoresStreamRate`).
- On a mono stream libopus may return more frames than the planar buffer holds. Then
  `render_reserved` panics (src/lib.rs:108). See "## Findings".

## Model

| member | source | states |
|---|---|---|
| OpusAdapter.TranslateChannels | src/lib.rs:54-59 | 1 channel maps to Mono and 2 to Stereo, with the matching libopus channel count; every other count is `Unsupported("unsupported channel count")` |
| OpusAdapter.TryNew | src/lib.rs:46-76 | no channel descriptor panics; a count outside {1, 2} is `Unsupported`; a rate libopus refuses panics at decoder creation; otherwise the adapter is valid and keeps the params verbatim. It stores the channel count, a 5760 × 2 zeroed scratch array whatever the count, and a planar buffer of 5760 frames at 48000 Hz with one plane per channel. Every plane is empty before any decode |
| OpusAdapter.LastDecoded | src/lib.rs:134-138 | one plane per channel, each exactly as long as the buffer's visible length |
| OpusAdapter.CodecParams | src/lib.rs:90-94 | returns the stored params, whose channel descriptor counts the adapter's channels |
| OpusAdapter.Finalize | src/lib.rs:129-132 | `verify_ok` is always None and the adapter is unchanged |
| OpusAdapter.Reset | src/lib.rs:85-88 | a refused reset panics; otherwise only libopus's state is cleared, and the planar buffer, scratch array, params and channel count are unchanged |
| OpusAdapter.RateOrDefault | src/lib.rs:63 | a declared rate is passed on unchanged; an absent one becomes 0, which libopus does not accept |
| LibOpus.Create | src/lib.rs:63-64 | a libopus decoder is created exactly for the rates libopus accepts, with the requested rate and mode and no history; otherwise the `unwrap()` panics in TryNew |
| AudioBuffers.RenderReserved | src/lib.rs:108 | the visible length grows by exactly the reserved count when it fits the capacity; otherwise Symphonia's assert panics (`CapacityExceeded`) |
| OpusAdapter.Decode | src/lib.rs:96-127 | a decode panics exactly when libopus rejects the packet (`DecodeRejected`) or returns more than 5760 frames (`CapacityExceeded`). Otherwise, after N frames the visible length is exactly N and the scratch array is libopus's output. The planes are the deinterleaved first N frames, independent of earlier output. Params, channel count and decode rate are unchanged and the invariant is kept |
| OpusAdapter.DecodeSliced | src/lib.rs:99-102 | the corrected decode (libopus handed `5760 * channels` samples): only a rejected packet panics, never more than 5760 frames are shown, and the planes are the deinterleaved frames |
| OpusAdapter.FillPlane | src/lib.rs:116-120 | the inner loop writes `scratch[s * channels + ch]` into sample `s` of plane `ch` for every visible frame and leaves the rest of the region alone |
| OpusAdapter.FillPlanes | src/lib.rs:112-123 | the nested loops leave the buffer exactly as the reference deinterleaving would |
| OpusAdapter.DecodePacket | src/lib.rs:96-127 | the source's statement order (libopus call, clear, render_reserved, copy loops) computes `Decode` |
| Pcm.Deinterleave | src/lib.rs:113-122 | `channels` planes of `frames` samples; sample `s` of plane `c` is the interleaved sample at frame `s`, channel `c`, always inside the first `frames * channels` samples |
| Pcm.DeinterleaveAt | src/lib.rs:118 | index law: `plane[c][s] == scratch[s * channels + c]` and `s * channels + c < frames * channels` |
| Pcm.SlotIsProduct | src/lib.rs:118 | the interleaved position of frame `s`, channel `c` is `s * channels + c` |
| Pcm.DeinterleaveInterleave | src/lib.rs:113-122 | deinterleaving interleaved planes gives the planes back |
| Pcm.InterleaveDeinterleave | src/lib.rs:113-122 | interleaving the deinterleaved planes gives back exactly the first `frames * channels` scratch samples |
| Session.Apply | src/lib.rs:85-132 | one `decode`, `reset` or `finalize` call panics exactly when it is a rejected packet, a decode of more than 5760 frames or a refused reset, at that call's site. It never yields a recoverable error, and a call that does not panic keeps the invariant, the params, the channel count and the decode rate |
| Session.Run | src/lib.rs:85-132 | any call sequence libopus can answer is accepted. A run succeeds exactly when none of its calls panics (rejected packet, refused reset, more than 5760 frames) and never yields a recoverable error. A run that succeeds keeps the invariant, the params, the channel count and the decode rate |
| Session.RunStopsAtFirstPanic | src/lib.rs:85-132 | a run aborts at the site of its first panicking call, whatever follows it |
| Session.InvariantHolds | src/lib.rs:14-20 | from `try_new` through any run the adapter keeps 1 or 2 channels and a 5760 × 2 scratch array whatever the count. It also keeps a planar buffer of 5760 frames at 48000 Hz, one plane per channel, never more than 5760 visible frames |
| Session.RunShowsLatestDecode | src/lib.rs:105-108 | after any run, `last_decoded` is the deinterleaved output of the last decode, or what it was before if no decode happened; resets and finalizes do not change it |
| Session.ParamsSurviveRun | src/lib.rs:90-94 | after any run, `codec_params` returns exactly the params `try_new` was given |
| Session.NoDecodeNoFrames | src/lib.rs:136-137 | a fresh adapter with no decode in its history shows empty planes |
| Scenarios.SixChannelsUnsupported | src/lib.rs:54-59 | a 5.1 stream is refused with `Unsupported` |
| Scenarios.MissingRatePanics | src/lib.rs:63-64 | a mono or stereo stream without a sample rate panics at decoder creation |
| Scenarios.DecodeIgnoresEarlierOutput | src/lib.rs:105-108 | two adapters with the same channel count both succeed or both panic on the same decode, and on success show the same output, whatever they held before |
| Scenarios.StereoPacket | src/lib.rs:113-122 | 48 kHz stereo, 960 frames: two planes of 960 samples, starting with `scratch[0]` and `scratch[1]` |
| Scenarios.MonoDeinterleave | src/lib.rs:113-122 | with one channel the single plane is the first `frames` scratch samples |
| Scenarios.MonoTwoPackets | src/lib.rs:105-108 | 16 kHz mono, two decodes of at most 5760 frames each: the output is exactly the second packet's frames |
| Scenarios.StereoNeverOverflows | src/lib.rs:99-108 | on a stereo stream only a rejected packet makes a decode panic: libopus cannot return more than 5760 frames |
| Scenarios.MonoOverflowPanics | src/lib.rs:99-108 | 48 kHz mono, libopus returns 11520 frames (allowed by the array it was handed): the decode panics with `CapacityExceeded` |
| Scenarios.PlanarRateIgnoresStreamRate | src/lib.rs:63-70 | a 16 kHz stream decodes at 16 kHz, while the planar buffer reports 48000 Hz before and after any run |

## Findings

| source | as written | input that shows it | evidently intended | confidence | as-written member | corrected member |
|---|---|---|---|---|---|---|
| src/lib.rs:99-108 | libopus is handed the whole 5760 × 2 scratch array, so on a mono stream it may decode up to 11520 frames. The planar buffer holds 5760 frames (src/lib.rs:68-69), so `render_reserved(Some(n))` panics | a 48 kHz mono stream and a packet libopus answers with 11520 frames, e.g. a lost (empty) packet that libopus conceals over the whole room it was given | hand libopus only `5760 * channels` samples, so it never returns more frames than the planar buffer holds | medium, not executed | Scenarios.MonoOverflowPanics | OpusAdapter.DecodeSliced |

`OpusAdapter.Decode`, `OpusAdapter.DecodePacket` and `Session.Run` model the code as
written, including the panic. `OpusAdapter.DecodeSliced` is the correction. It shares
Decode's body, because the correction changes only how much of the array libopus is
offered, and so what libopus can reply.

## Left out

- libopus's decoding itself is not modelled. A reply (frame count, scratch contents, or rejection) is an input. The forward-error-correction flag is always false and is not modelled.
- LibOpus.Create: only the sample-rate check of `opus_decoder_create` is modelled. Allocation failure is left out because it is outside the adapter's control.
- `unsafe impl Sync` (src/lib.rs:22-27) is left out: it concerns concurrent access, and the model is sequential.
- `CODEC_DESCRIPTORS`, `inst_func` and `supported_codecs` (src/lib.rs:29-43, 78-83) are left out: they only box the decoder for Symphonia's codec registry. `examples/main.rs` is registry wiring.
- `DecoderOptions` is left out because `try_new` ignores it.
- `Packet`: only its payload bytes are modelled, as that is all the adapter reads.
- `AudioBufferRef::S16(Cow::Borrowed(..))` is left out. `LastDecoded` returns the visible planes directly.
- Symphonia's overflow assert in `AudioBuffer::new` is left out: 5760 frames × 2 channels cannot overflow.
- `render_reserved(None)` is left out because the adapter always passes `Some`.
- Rust's `usize` width is not modelled. A decode returns at most 11520 frames, and every scratch index `s * channels + ch` stays below 11520.
