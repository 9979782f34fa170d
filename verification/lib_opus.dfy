/**
 The external libopus decoder, seen only through its documented interface.
 Its internal prediction state is abstracted as the packets fed to it since it
 was created or last reset; what it writes for a packet is not modelled and
 arrives as a `DecodeReply` chosen by the caller of the model. That reply is
 not tied to the packets fed so far: the dependence of libopus's output on
 its history is not modelled, only that `reset_state` clears the history.
 */
module LibOpus {
  import opened Pcm
  import opened Outcomes

  /** `opus::Channels`. */
  datatype Mode = Mono | Stereo

  function Count(mode: Mode): nat
  {
    match mode
    case Mono => 1
    case Stereo => 2
  }

  /** The output rates `opus_decoder_create` accepts. */
  predicate SupportedRate(rate: nat)
  {
    rate == 8000 || rate == 12000 || rate == 16000 || rate == 24000 || rate == 48000
  }

  datatype Decoder = Decoder(rate: nat, mode: Mode, fed: seq<seq<bv8>>)

  /** `opus::Decoder::new`: refused unless the rate is one libopus decodes at. */
  function Create(rate: nat, mode: Mode): (r: Option<Decoder>)
    ensures r.Some? <==> SupportedRate(rate)
    ensures r.Some? ==> r.value.rate == rate && r.value.mode == mode && r.value.fed == []
  {
    if SupportedRate(rate) then Some(Decoder(rate, mode, [])) else None
  }

  /**
   What one `opus::Decoder::decode` call leaves behind: the number of frames it
   decoded and the whole scratch array after the call, or a rejected packet.
   */
  datatype DecodeReply = Decoded(frames: nat, scratch: seq<i16>) | Rejected

  /**
   libopus's promise for a reply when it is handed the first `outputLen`
   samples of the scratch array: the array keeps its length and the decoded
   frames fit in the part handed over. The `opus` crate asks for
   `outputLen / channels` frames, and libopus may return that many (when it
   conceals a lost packet, for one).
   */
  predicate FitsOutput(reply: DecodeReply, channels: nat, outputLen: nat)
  {
    reply.Decoded? ==>
      && |reply.scratch| == ScratchLen
      && reply.frames * channels <= outputLen
  }

  /** libopus's promise when it is handed the whole scratch array, as the adapter does. */
  predicate Fits(reply: DecodeReply, channels: nat)
  {
    FitsOutput(reply, channels, ScratchLen)
  }

  function Feed(d: Decoder, packet: seq<bv8>): Decoder
  {
    d.(fed := d.fed + [packet])
  }

  /** `opus::Decoder::reset_state`: forgets every packet fed so far. */
  function ResetState(d: Decoder): Decoder
  {
    d.(fed := [])
  }
}
