/**
 Consequences of the model for particular streams: the channel layouts a
 stream may declare and what the first decodes of such a stream produce.
 */
module Scenarios {
  import opened Pcm
  import opened Outcomes
  import opened AudioBuffers
  import LibOpus
  import opened OpusAdapter
  import opened Session

  /** Front left and front right. */
  const StereoLayout := Channels(0x3)
  /** Front left only. */
  const MonoLayout := Channels(0x1)
  /** Six speaker positions (5.1). */
  const SurroundLayout := Channels(0x3F)

  function Stream(rate: u32, layout: Channels): CodecParameters
  {
    CodecParameters(0, Some(rate), Some(layout), [])
  }

  /** Six channels are refused before libopus is asked for anything. */
  lemma SixChannelsUnsupported()
    ensures TryNew(Stream(48000, SurroundLayout)) == Err(Unsupported(UnsupportedChannels))
  {
    assert SurroundLayout.Count() == 6;
  }

  /** Without a declared rate the adapter asks libopus for 0 Hz, which it refuses. */
  lemma MissingRatePanics(params: CodecParameters)
    requires params.channels.Some? && params.channels.value.Count() in {1, 2}
    requires params.sampleRate.None?
    ensures TryNew(params) == Panic(DecoderCreate)
  {
  }

  /** A decode shows only its own packet: the output does not depend on earlier output. */
  lemma DecodeIgnoresEarlierOutput(a: Adapter, b: Adapter, packet: seq<bv8>, reply: LibOpus.DecodeReply)
    requires Valid(a) && Valid(b) && a.channels == b.channels
    requires reply.Decoded? && LibOpus.Fits(reply, a.channels)
    ensures Decode(a, packet, reply).Ok? == Decode(b, packet, reply).Ok?
    ensures Decode(a, packet, reply).Ok? ==>
              LastDecoded(Decode(a, packet, reply).value) == LastDecoded(Decode(b, packet, reply).value)
  {
  }

  /**
   A 48 kHz stereo stream and a packet of 960 frames: two planes of 960
   samples, each starting with its channel's first interleaved sample.
   */
  lemma StereoPacket(packet: seq<bv8>, pcm: seq<i16>)
    requires |pcm| == ScratchLen
    ensures TryNew(Stream(48000, StereoLayout)).Ok?
    ensures var r := Decode(TryNew(Stream(48000, StereoLayout)).value, packet, LibOpus.Decoded(960, pcm));
            && r.Ok?
            && |LastDecoded(r.value)| == 2
            && |LastDecoded(r.value)[0]| == 960 && |LastDecoded(r.value)[1]| == 960
            && LastDecoded(r.value)[0][0] == pcm[0]
            && LastDecoded(r.value)[1][0] == pcm[1]
  {
    assert StereoLayout.Count() == 2;
    DeinterleaveAt(pcm, 2, 960, 0, 0);
    DeinterleaveAt(pcm, 2, 960, 1, 0);
  }

  /** Deinterleaving one channel is taking the first `frames` samples. */
  lemma {:induction false} MonoDeinterleave(pcm: seq<i16>, frames: nat)
    requires frames <= |pcm|
    ensures Deinterleave(pcm, 1, frames) == [pcm[..frames]]
  {
    var planes := Deinterleave(pcm, 1, frames);
    forall s | 0 <= s < frames
      ensures planes[0][s] == pcm[s]
    {
      DeinterleaveAt(pcm, 1, frames, 0, s);
    }
    assert planes[0] == pcm[..frames];
  }

  /**
   A 16 kHz mono stream decoding two packets: the output is the second
   packet's frames only; nothing of the first is kept or appended.
   */
  lemma MonoTwoPackets(p1: seq<bv8>, pcm1: seq<i16>, n1: nat, p2: seq<bv8>, pcm2: seq<i16>, n2: nat)
    requires |pcm1| == ScratchLen && |pcm2| == ScratchLen
    requires n1 <= MaxFrames && n2 <= MaxFrames
    ensures TryNew(Stream(16000, MonoLayout)).Ok?
    ensures var calls := [DecodeCall(p1, LibOpus.Decoded(n1, pcm1)), DecodeCall(p2, LibOpus.Decoded(n2, pcm2))];
            var a := TryNew(Stream(16000, MonoLayout)).value;
            && CallsFit(calls, a.channels)
            && Run(a, calls).Ok?
            && LastDecoded(Run(a, calls).value) == [pcm2[..n2]]
  {
    assert MonoLayout.Count() == 1;
    var calls := [DecodeCall(p1, LibOpus.Decoded(n1, pcm1)), DecodeCall(p2, LibOpus.Decoded(n2, pcm2))];
    var a := TryNew(Stream(16000, MonoLayout)).value;
    assert CallsFit(calls, a.channels);
    var b := Decode(a, p1, LibOpus.Decoded(n1, pcm1)).value;
    assert Run(a, calls) == Run(b, calls[1..]);
    var c := Decode(b, p2, LibOpus.Decoded(n2, pcm2)).value;
    assert Run(b, calls[1..]) == Run(c, calls[2..]);
    MonoDeinterleave(pcm2, n2);
  }

  /**
   On a stereo stream libopus is asked for at most 5760 frames, exactly the
   planar buffer's capacity, so only a rejected packet makes a decode panic.
   */
  lemma StereoNeverOverflows(a: Adapter, packet: seq<bv8>, reply: LibOpus.DecodeReply)
    requires Valid(a) && a.channels == 2 && LibOpus.Fits(reply, a.channels)
    ensures Decode(a, packet, reply).Panic? <==> reply.Rejected?
  {
  }

  /**
   On a mono stream libopus is handed room for 11520 frames, and when it
   returns that many (concealing a lost packet fills the whole room) the
   5760-frame planar buffer overflows and `render_reserved` panics.
   */
  lemma MonoOverflowPanics(packet: seq<bv8>, pcm: seq<i16>)
    requires |pcm| == ScratchLen
    ensures TryNew(Stream(48000, MonoLayout)).Ok?
    ensures var a := TryNew(Stream(48000, MonoLayout)).value;
            && LibOpus.Fits(LibOpus.Decoded(ScratchLen, pcm), a.channels)
            && Decode(a, packet, LibOpus.Decoded(ScratchLen, pcm)) == Panic(CapacityExceeded)
  {
    assert MonoLayout.Count() == 1;
  }

  /**
   A 16 kHz stream: libopus decodes at 16 kHz, but the planar buffer of
   `last_decoded` reports 48 kHz, before and after any decode.
   */
  lemma PlanarRateIgnoresStreamRate(calls: seq<Call>)
    ensures TryNew(Stream(16000, MonoLayout)).Ok?
    ensures var a := TryNew(Stream(16000, MonoLayout)).value;
            && a.libopus.rate == 16000
            && a.decoded.spec.rate == 48000
            && (CallsFit(calls, a.channels) && Run(a, calls).Ok? ==>
                  Run(a, calls).value.libopus.rate == 16000 && Run(a, calls).value.decoded.spec.rate == 48000)
  {
    assert MonoLayout.Count() == 1;
  }
}
