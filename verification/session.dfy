/**
 A decoder's life as Symphonia drives it: `try_new`, then any sequence of
 `decode`, `reset` and `finalize` calls. libopus's answers are part of the
 calls, so a run is determined by its calls.
 */
module Session {
  import opened Pcm
  import opened Outcomes
  import opened AudioBuffers
  import LibOpus
  import opened OpusAdapter

  datatype Call =
    | DecodeCall(packet: seq<bv8>, reply: LibOpus.DecodeReply)
    | ResetCall(accepted: bool)
    | FinalizeCall

  /** libopus keeps its promises in the call's reply. */
  predicate CallFits(call: Call, channels: nat)
  {
    call.DecodeCall? ==> LibOpus.Fits(call.reply, channels)
  }

  predicate CallsFit(calls: seq<Call>, channels: nat)
  {
    forall i :: 0 <= i < |calls| ==> CallFits(calls[i], channels)
  }

  /** The calls that abort: a rejected packet, more frames than the planar buffer holds, a refused reset. */
  predicate Panics(call: Call)
  {
    match call
    case DecodeCall(_, reply) => reply.Rejected? || reply.frames > MaxFrames
    case ResetCall(accepted) => !accepted
    case FinalizeCall => false
  }

  /** Where a call that panics aborts. */
  function SiteOf(call: Call): PanicSite
    requires Panics(call)
  {
    match call
    case DecodeCall(_, reply) => if reply.Rejected? then DecodeRejected else CapacityExceeded
    case ResetCall(_) => ResetRejected
  }

  function Apply(a: Adapter, call: Call): (r: Outcome<Adapter>)
    requires Valid(a) && CallFits(call, a.channels)
    ensures r.Panic? <==> Panics(call)
    ensures r.Panic? ==> r.site == SiteOf(call)
    ensures !r.Err?
    ensures r.Ok? ==>
              && Valid(r.value) && r.value.params == a.params && r.value.channels == a.channels
              && r.value.libopus.rate == a.libopus.rate
  {
    match call
    case DecodeCall(packet, reply) => Decode(a, packet, reply)
    case ResetCall(accepted) => Reset(a, accepted)
    case FinalizeCall => Ok(Finalize(a).1)
  }

  /** The calls applied in order; the first panic ends the run. */
  function Run(a: Adapter, calls: seq<Call>): (r: Outcome<Adapter>)
    requires Valid(a) && CallsFit(calls, a.channels)
    ensures r.Ok? <==> forall i :: 0 <= i < |calls| ==> !Panics(calls[i])
    ensures !r.Err?
    ensures r.Ok? ==>
              && Valid(r.value) && r.value.params == a.params && r.value.channels == a.channels
              && r.value.libopus.rate == a.libopus.rate
    decreases |calls|
  {
    if calls == [] then Ok(a)
    else
      match Apply(a, calls[0])
      case Ok(next) => Run(next, calls[1..])
      case Err(e) => Err(e)
      case Panic(site) => Panic(site)
  }

  /** A run aborts at the first call that panics, at that call's site. */
  lemma {:induction false} RunStopsAtFirstPanic(a: Adapter, calls: seq<Call>, i: nat)
    requires Valid(a) && CallsFit(calls, a.channels)
    requires i < |calls| && Panics(calls[i])
    requires forall j :: 0 <= j < i ==> !Panics(calls[j])
    ensures Run(a, calls) == Panic(SiteOf(calls[i]))
    decreases i
  {
    if i > 0 {
      var next := Apply(a, calls[0]).value;
      assert Run(a, calls) == Run(next, calls[1..]);
      RunStopsAtFirstPanic(next, calls[1..], i - 1);
    }
  }

  /** The reply of the last call that decoded a packet, if any did. */
  function LatestDecode(calls: seq<Call>, channels: nat): (r: Option<LibOpus.DecodeReply>)
    requires CallsFit(calls, channels)
    ensures r.Some? ==> r.value.Decoded? && LibOpus.Fits(r.value, channels)
    decreases |calls|
  {
    if calls == [] then None
    else
      var later := LatestDecode(calls[1..], channels);
      if later.Some? then later
      else if calls[0].DecodeCall? && calls[0].reply.Decoded? then Some(calls[0].reply)
      else None
  }

  /**
   After any run, `last_decoded` shows the packet of the last decode,
   deinterleaved, and nothing of earlier ones; without a decode it shows what
   it showed before the run.
   */
  lemma {:induction false} RunShowsLatestDecode(a: Adapter, calls: seq<Call>)
    requires Valid(a) && CallsFit(calls, a.channels) && Run(a, calls).Ok?
    ensures LastDecoded(Run(a, calls).value) ==
              match LatestDecode(calls, a.channels)
              case None => LastDecoded(a)
              case Some(reply) => Deinterleave(reply.scratch, a.channels, reply.frames)
    decreases |calls|
  {
    if calls != [] {
      var next := Apply(a, calls[0]).value;
      assert Run(a, calls) == Run(next, calls[1..]);
      RunShowsLatestDecode(next, calls[1..]);
    }
  }

  /** Whatever the calls, `codec_params` keeps returning what `try_new` was given. */
  lemma ParamsSurviveRun(params: CodecParameters, calls: seq<Call>)
    requires TryNew(params).Ok?
    requires CallsFit(calls, TryNew(params).value.channels)
    requires Run(TryNew(params).value, calls).Ok?
    ensures CodecParams(Run(TryNew(params).value, calls).value) == params
  {
  }

  /** A fresh decoder with no decode among its calls shows no frames at all. */
  lemma NoDecodeNoFrames(params: CodecParameters, calls: seq<Call>)
    requires TryNew(params).Ok?
    requires CallsFit(calls, TryNew(params).value.channels)
    requires Run(TryNew(params).value, calls).Ok?
    requires LatestDecode(calls, TryNew(params).value.channels).None?
    ensures forall c :: 0 <= c < params.channels.value.Count() ==>
              LastDecoded(Run(TryNew(params).value, calls).value)[c] == []
  {
    RunShowsLatestDecode(TryNew(params).value, calls);
  }

  /**
   The adapter's invariant holds from `try_new` through any run: one or two
   channels, a scratch array of 5760 × 2 samples whatever the channel count,
   a planar buffer of 5760 frames at 48000 Hz with one plane per channel,
   and never more visible frames than that.
   */
  lemma InvariantHolds(params: CodecParameters, calls: seq<Call>)
    requires TryNew(params).Ok?
    requires CallsFit(calls, TryNew(params).value.channels)
    requires Run(TryNew(params).value, calls).Ok?
    ensures var b := Run(TryNew(params).value, calls).value;
            && Valid(b)
            && (b.channels == 1 || b.channels == 2)
            && b.channels == params.channels.value.Count()
            && |b.scratch| == ScratchLen
            && b.decoded.capacity == MaxFrames
            && b.decoded.frames <= MaxFrames
            && b.decoded.spec.rate == PlanarRate
            && |LastDecoded(b)| == b.channels
  {
  }
}
