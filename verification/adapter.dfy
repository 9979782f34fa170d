/**
 `SymphoniaDecoderLibOpus`: the Symphonia decoder that hands each packet to
 libopus and copies the interleaved samples it writes into Symphonia's planar
 buffer. The adapter is a value; every operation returns the next value.
 */
module OpusAdapter {
  import opened Pcm
  import opened Outcomes
  import opened AudioBuffers
  import LibOpus

  /** Symphonia's `CodecParameters`, as far as the adapter reads or returns them. */
  datatype CodecParameters = CodecParameters(
    codec: u32,
    sampleRate: Option<u32>,
    channels: Option<Channels>,
    extraData: seq<bv8>)

  datatype Adapter = Adapter(
    libopus: LibOpus.Decoder,
    scratch: seq<i16>,       // interleaved output of libopus, sized for the worst case
    decoded: AudioBuffer,    // planar copy of the last decoded packet
    params: CodecParameters, // as given to TryNew
    channels: nat)

  datatype FinalizeResult = FinalizeResult(verifyOk: Option<bool>)

  const UnsupportedChannels: string := "unsupported channel count"

  /** What holds between operations. */
  predicate Valid(a: Adapter)
  {
    && (a.channels == 1 || a.channels == 2)
    && LibOpus.Count(a.libopus.mode) == a.channels
    && |a.scratch| == ScratchLen
    && WellFormed(a.decoded)
    && a.decoded.capacity == MaxFrames
    && a.decoded.spec.rate == PlanarRate
    && a.params.channels == Some(a.decoded.spec.channels)
    && a.decoded.spec.channels.Count() == a.channels
  }

  /** One channel is mono and two are stereo; libopus decodes nothing else. */
  function TranslateChannels(count: nat): (r: Outcome<LibOpus.Mode>)
    ensures r.Ok? <==> count == 1 || count == 2
    ensures r.Ok? ==> LibOpus.Count(r.value) == count
    ensures !r.Ok? ==> r == Err(Unsupported(UnsupportedChannels))
  {
    if count == 1 then Ok(LibOpus.Mono)
    else if count == 2 then Ok(LibOpus.Stereo)
    else Err(Unsupported(UnsupportedChannels))
  }

  /** `Option::unwrap_or_default` on the declared rate: an absent rate becomes 0. */
  function RateOrDefault(rate: Option<u32>): (hz: nat)
    ensures rate.Some? ==> hz == rate.value
    ensures rate.None? ==> hz == 0 && !LibOpus.SupportedRate(hz)
  {
    match rate
    case Some(hz) => hz
    case None => 0
  }

  /** `Decoder::try_new`. */
  function TryNew(params: CodecParameters): (r: Outcome<Adapter>)
    ensures params.channels.None? ==> r == Panic(MissingChannels)
    ensures r.Err? <==> params.channels.Some? && !(params.channels.value.Count() in {1, 2})
    ensures r.Err? ==> r.error == Unsupported(UnsupportedChannels)
    ensures r.Ok? <==>
              && params.channels.Some? && params.channels.value.Count() in {1, 2}
              && LibOpus.SupportedRate(RateOrDefault(params.sampleRate))
    ensures r.Panic? && params.channels.Some? ==> r.site == DecoderCreate
    ensures r.Ok? ==>
              var a := r.value;
              && Valid(a)
              && a.params == params
              && a.channels == params.channels.value.Count()
              && a.libopus.rate == (if params.sampleRate.Some? then params.sampleRate.value else 0)
              && a.libopus.fed == []
              && (forall i :: 0 <= i < |a.scratch| ==> a.scratch[i] == 0)
              && a.decoded.frames == 0
              && |LastDecoded(a)| == a.channels
              && (forall c :: 0 <= c < a.channels ==> LastDecoded(a)[c] == [])
  {
    match params.channels
    case None => Panic(MissingChannels)
    case Some(layout) =>
      match TranslateChannels(layout.Count())
      case Err(e) => Err(e)
      case Panic(site) => Panic(site)
      case Ok(mode) =>
        match LibOpus.Create(RateOrDefault(params.sampleRate), mode)
        case None => Panic(DecoderCreate)
        case Some(libopus) =>
          Ok(Adapter(
               libopus,
               seq(ScratchLen, _ => 0),
               New(MaxFrames, SignalSpec(PlanarRate, layout)),
               params,
               layout.Count()))
  }

  /** `Decoder::last_decoded`: the planes of the last decoded packet, empty before the first. */
  function LastDecoded(a: Adapter): (planes: seq<seq<i16>>)
    requires Valid(a)
    ensures |planes| == a.channels && Rectangular(planes, a.decoded.frames)
  {
    Planes(a.decoded)
  }

  /** `Decoder::codec_params`: the parameters the adapter was built from. */
  function CodecParams(a: Adapter): (params: CodecParameters)
    requires Valid(a)
    ensures params.channels.Some? && params.channels.value.Count() == a.channels
    ensures params == a.params
  {
    a.params
  }

  /** `Decoder::finalize`: the decoded output cannot be checked. */
  function Finalize(a: Adapter): (r: (FinalizeResult, Adapter))
    ensures r.0.verifyOk.None?
    ensures r.1 == a
  {
    (FinalizeResult(None), a)
  }

  /** `Decoder::reset`: only libopus's state is touched. */
  function Reset(a: Adapter, accepted: bool): (r: Outcome<Adapter>)
    requires Valid(a)
    ensures r.Panic? <==> !accepted
    ensures r.Panic? ==> r.site == ResetRejected
    ensures !r.Err?
    ensures r.Ok? ==>
              && Valid(r.value)
              && r.value.decoded == a.decoded
              && r.value.scratch == a.scratch
              && r.value.params == a.params
              && r.value.channels == a.channels
              && r.value.libopus.rate == a.libopus.rate
              && r.value.libopus.mode == a.libopus.mode
              && r.value.libopus.fed == []
  {
    if accepted then Ok(a.(libopus := LibOpus.ResetState(a.libopus))) else Panic(ResetRejected)
  }

  /**
   `Decoder::decode`: libopus overwrites the scratch array, then the planar
   buffer is emptied, extended to exactly the decoded frame count and filled by
   deinterleaving the scratch array. libopus is handed the whole scratch array,
   so a mono stream may get up to 11520 frames back, more than the 5760 the
   planar buffer holds; `render_reserved` then panics.
   */
  function Decode(a: Adapter, packet: seq<bv8>, reply: LibOpus.DecodeReply): (r: Outcome<Adapter>)
    requires Valid(a) && LibOpus.Fits(reply, a.channels)
    ensures r.Panic? <==> reply.Rejected? || reply.frames > MaxFrames
    ensures r.Panic? ==> r.site == (if reply.Rejected? then DecodeRejected else CapacityExceeded)
    ensures !r.Err?
    ensures r.Ok? ==>
              && Valid(r.value)
              && r.value.params == a.params
              && r.value.channels == a.channels
              && r.value.libopus.rate == a.libopus.rate
              && r.value.libopus.fed == a.libopus.fed + [packet]
              && r.value.scratch == reply.scratch
              && r.value.decoded.frames == reply.frames
              && LastDecoded(r.value) == Deinterleave(reply.scratch, a.channels, reply.frames)
  {
    match reply
    case Rejected => Panic(DecodeRejected)
    case Decoded(n, pcm) =>
      match RenderReserved(Clear(a.decoded), n)
      case Ok(reserved) =>
        Ok(a.(libopus := LibOpus.Feed(a.libopus, packet),
              scratch := pcm,
              decoded := WritePlanes(reserved, Deinterleave(pcm, a.channels, n))))
      case Err(e) => Err(e)
      case Panic(site) => Panic(site)
  }

  /**
   `decode` as evidently intended: libopus is handed only the first
   `5760 * channels` samples of the scratch array, so it never decodes more
   frames than the planar buffer holds, and only a rejected packet panics.
   */
  function DecodeSliced(a: Adapter, packet: seq<bv8>, reply: LibOpus.DecodeReply): (r: Outcome<Adapter>)
    requires Valid(a) && LibOpus.FitsOutput(reply, a.channels, MaxFrames * a.channels)
    ensures r.Panic? <==> reply.Rejected?
    ensures r.Panic? ==> r.site == DecodeRejected
    ensures !r.Err?
    ensures r.Ok? ==>
              && Valid(r.value)
              && r.value.params == a.params
              && r.value.channels == a.channels
              && r.value.scratch == reply.scratch
              && r.value.decoded.frames == reply.frames <= MaxFrames
              && LastDecoded(r.value) == Deinterleave(reply.scratch, a.channels, reply.frames)
  {
    Decode(a, packet, reply)
  }

  /**
   The inner copy loop of `decode`: sample `s` of channel `ch`'s region becomes
   `scratch[s * channels + ch]` for every visible frame `s`; the rest of the
   region is left alone.
   */
  method FillPlane(region: seq<i16>, frames: nat, scratch: seq<i16>, channels: nat, ch: nat)
    returns (plane: seq<i16>)
    requires frames <= |region| && frames * channels <= |scratch| && ch < channels
    ensures plane == Deinterleave(scratch, channels, frames)[ch] + region[frames..]
  {
    SlotIsProduct(frames, 0, channels);
    AllSlotsBelow(frames, channels);
    plane := region;
    var s := 0;
    while s < frames
      invariant s <= frames && |plane| == |region|
      invariant forall k :: 0 <= k < s ==> plane[k] == scratch[Slot(k, ch, channels)]
      invariant plane[s..] == region[s..]
    {
      SlotIsProduct(s, ch, channels);
      plane := plane[s := scratch[s * channels + ch]];
      s := s + 1;
    }
  }

  /** The outer copy loop of `decode`: every plane of the buffer is filled by FillPlane. */
  method FillPlanes(b: AudioBuffer, scratch: seq<i16>, channels: nat) returns (r: AudioBuffer)
    requires WellFormed(b) && |b.store| == channels && b.frames * channels <= |scratch|
    ensures r == WritePlanes(b, Deinterleave(scratch, channels, b.frames))
  {
    var store := b.store;
    var ch := 0;
    while ch < |store|
      invariant ch <= |store| == channels
      invariant forall c :: 0 <= c < ch ==>
                  store[c] == Deinterleave(scratch, channels, b.frames)[c] + b.store[c][b.frames..]
      invariant forall c :: ch <= c < channels ==> store[c] == b.store[c]
    {
      var plane := FillPlane(store[ch], b.frames, scratch, channels, ch);
      store := store[ch := plane];
      ch := ch + 1;
    }
    r := b.(store := store);
  }

  /** `Decoder::decode` as the source runs it, with the copy loop of FillPlanes. */
  method DecodePacket(a: Adapter, packet: seq<bv8>, reply: LibOpus.DecodeReply) returns (r: Outcome<Adapter>)
    requires Valid(a) && LibOpus.Fits(reply, a.channels)
    ensures r == Decode(a, packet, reply)
  {
    if reply.Rejected? {
      return Panic(DecodeRejected);
    }
    var libopus := LibOpus.Feed(a.libopus, packet);
    var dbuf := Clear(a.decoded);
    var reserved := RenderReserved(dbuf, reply.frames);
    if !reserved.Ok? {
      return Panic(CapacityExceeded);
    }
    dbuf := FillPlanes(reserved.value, reply.scratch, a.channels);
    r := Ok(a.(libopus := libopus, scratch := reply.scratch, decoded := dbuf));
  }
}
