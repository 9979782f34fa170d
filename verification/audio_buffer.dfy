/**
 The part of Symphonia's `AudioBuffer<i16>` the adapter relies on: a planar
 buffer with one region per channel, a fixed capacity in frames, and a logical
 length (`frames`) that `clear` and `render_reserved` move.
 */
module AudioBuffers {
  import opened Pcm
  import opened Outcomes

  type u32 = x: nat | x < 0x1_0000_0000

  /** Number of set bits. */
  function PopCount(bits: nat): nat
  {
    if bits == 0 then 0 else bits % 2 + PopCount(bits / 2)
  }

  /** Symphonia's channel set: one bit per speaker position. */
  datatype Channels = Channels(bits: u32)
  {
    /** `Channels::count`. */
    function Count(): nat
    {
      PopCount(bits)
    }
  }

  datatype SignalSpec = SignalSpec(rate: u32, channels: Channels)

  /**
   `store[c]` is the whole region of channel `c` (`capacity` samples); only its
   first `frames` samples are visible through `Planes`.
   */
  datatype AudioBuffer = AudioBuffer(spec: SignalSpec, capacity: nat, frames: nat, store: seq<seq<i16>>)

  predicate WellFormed(b: AudioBuffer)
  {
    && |b.store| == b.spec.channels.Count()
    && b.frames <= b.capacity
    && forall c :: 0 <= c < |b.store| ==> |b.store[c]| == b.capacity
  }

  /** `AudioBuffer::planes`: the visible part of every channel's region. */
  function Planes(b: AudioBuffer): (planes: seq<seq<i16>>)
    requires WellFormed(b)
    ensures |planes| == b.spec.channels.Count() && Rectangular(planes, b.frames)
  {
    seq(|b.store|, c requires 0 <= c < |b.store| => b.store[c][..b.frames])
  }

  /** `AudioBuffer::new(duration, spec)`: room for `duration` frames, none of them visible yet. */
  function New(duration: nat, spec: SignalSpec): (b: AudioBuffer)
    ensures WellFormed(b) && b.spec == spec && b.capacity == duration
    ensures |Planes(b)| == spec.channels.Count()
    ensures forall c :: 0 <= c < |Planes(b)| ==> Planes(b)[c] == []
  {
    AudioBuffer(spec, duration, 0, seq(spec.channels.Count(), _ => seq(duration, _ => 0 as i16)))
  }

  /** `AudioBuffer::clear`: nothing is visible any more; storage is kept. */
  function Clear(b: AudioBuffer): (r: AudioBuffer)
    requires WellFormed(b)
    ensures WellFormed(r) && r.frames == 0
    ensures r.spec == b.spec && r.capacity == b.capacity && r.store == b.store
  {
    b.(frames := 0)
  }

  /**
   `AudioBuffer::render_reserved(Some(n))`: `n` more frames become visible.
   Symphonia asserts that the capacity is not exceeded, and panics otherwise.
   */
  function RenderReserved(b: AudioBuffer, n: nat): (r: Outcome<AudioBuffer>)
    requires WellFormed(b)
    ensures r.Ok? <==> b.frames + n <= b.capacity
    ensures !r.Ok? ==> r == Panic(CapacityExceeded)
    ensures r.Ok? ==>
              && WellFormed(r.value) && r.value.frames == b.frames + n
              && r.value.spec == b.spec && r.value.capacity == b.capacity && r.value.store == b.store
  {
    if b.frames + n <= b.capacity then Ok(b.(frames := b.frames + n)) else Panic(CapacityExceeded)
  }

  /**
   Writing through `planes_mut`: the visible part of each channel becomes
   `planes[c]`; the samples past `frames` are left as they were.
   */
  function WritePlanes(b: AudioBuffer, planes: seq<seq<i16>>): (r: AudioBuffer)
    requires WellFormed(b) && |planes| == |b.store| && Rectangular(planes, b.frames)
    ensures WellFormed(r) && Planes(r) == planes
    ensures r.spec == b.spec && r.capacity == b.capacity && r.frames == b.frames
    ensures forall c :: 0 <= c < |r.store| ==> r.store[c][b.frames..] == b.store[c][b.frames..]
  {
    var r := b.(store := seq(|b.store|, c requires 0 <= c < |b.store| => planes[c] + b.store[c][b.frames..]));
    assert forall c :: 0 <= c < |planes| ==> Planes(r)[c] == planes[c];
    r
  }
}
