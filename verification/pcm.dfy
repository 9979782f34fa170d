/**
 Sample layouts. libopus writes interleaved frames (sample 0 of every channel,
 then sample 1 of every channel, ...); Symphonia keeps one plane per channel.
 `Deinterleave` is the reference definition of the translation between the two
 and `Interleave` its inverse.
 */
module Pcm {

  /** A signed 16-bit sample, Rust's `i16`. */
  newtype i16 = x: int | -0x8000 <= x < 0x8000

  /** The longest libopus frame: 120 ms at 48 kHz. */
  const MaxFrames: nat := 5760
  /** Opus decodes at most stereo. */
  const MaxChannels: nat := 2
  /** Length of the interleaved scratch array handed to libopus. */
  const ScratchLen: nat := MaxFrames * MaxChannels
  /** Sample rate written into the planar buffer's signal spec. */
  const PlanarRate: nat := 48000

  /** Every plane holds exactly `frames` samples. */
  predicate Rectangular(planes: seq<seq<i16>>, frames: nat)
  {
    forall c :: 0 <= c < |planes| ==> |planes[c]| == frames
  }

  /**
   Position of frame `s`, channel `c` in an interleaved sequence of `channels`
   channels: `s * channels + c` (see SlotIsProduct). Counting it frame by frame
   keeps the arithmetic of the proofs below linear.
   */
  function Slot(s: nat, c: nat, channels: nat): nat
  {
    if s == 0 then c else Slot(s - 1, c, channels) + channels
  }

  lemma {:induction false} SlotIsProduct(s: nat, c: nat, channels: nat)
    ensures Slot(s, c, channels) == s * channels + c
  {
    if s > 0 {
      SlotIsProduct(s - 1, c, channels);
    }
  }

  lemma {:induction false} SlotOffset(s: nat, c: nat, channels: nat)
    ensures Slot(s, c, channels) == Slot(s, 0, channels) + c
  {
    if s > 0 {
      SlotOffset(s - 1, c, channels);
    }
  }

  lemma {:induction false} SlotMonotonic(s: nat, t: nat, channels: nat)
    requires s <= t
    ensures Slot(s, 0, channels) <= Slot(t, 0, channels)
  {
    if s < t {
      SlotMonotonic(s, t - 1, channels);
    }
  }

  /** Frame `s`, channel `c` lies inside the first `frames` interleaved frames. */
  lemma SlotBelow(s: nat, c: nat, frames: nat, channels: nat)
    requires s < frames && c < channels
    ensures Slot(s, c, channels) < Slot(frames, 0, channels)
  {
    SlotOffset(s, c, channels);
    SlotMonotonic(s + 1, frames, channels);
  }

  lemma AllSlotsBelow(frames: nat, channels: nat)
    ensures forall s, c :: 0 <= s < frames && 0 <= c < channels ==>
              Slot(s, c, channels) < Slot(frames, 0, channels)
  {
    forall s, c | 0 <= s < frames && 0 <= c < channels
      ensures Slot(s, c, channels) < Slot(frames, 0, channels)
    {
      SlotBelow(s, c, frames, channels);
    }
  }

  /** Every position inside the first `frames` interleaved frames belongs to one frame and channel. */
  lemma {:induction false} SlotOf(i: nat, frames: nat, channels: nat) returns (s: nat, c: nat)
    requires i < Slot(frames, 0, channels)
    ensures s < frames && c < channels && Slot(s, c, channels) == i
  {
    if i < Slot(frames - 1, 0, channels) {
      s, c := SlotOf(i, frames - 1, channels);
    } else {
      s, c := frames - 1, i - Slot(frames - 1, 0, channels);
      SlotOffset(s, c, channels);
    }
  }

  /** Sample `s` of plane `c` is the interleaved sample at `Slot(s, c, channels)`. */
  function Plane(scratch: seq<i16>, channels: nat, frames: nat, c: nat): (plane: seq<i16>)
    requires Slot(frames, 0, channels) <= |scratch| && c < channels
    ensures |plane| == frames
    ensures forall s :: 0 <= s < frames ==>
              Slot(s, c, channels) < |scratch| && plane[s] == scratch[Slot(s, c, channels)]
  {
    AllSlotsBelow(frames, channels);
    seq(frames, s requires 0 <= s < frames => scratch[Slot(s, c, channels)])
  }

  /**
   The first `frames` interleaved frames of `scratch`, split into `channels` planes:
   sample `s` of plane `c` is `scratch[s * channels + c]`.
   */
  function Deinterleave(scratch: seq<i16>, channels: nat, frames: nat): (planes: seq<seq<i16>>)
    requires frames * channels <= |scratch|
    ensures |planes| == channels && Rectangular(planes, frames)
    ensures Slot(frames, 0, channels) == frames * channels
    ensures forall c, s :: 0 <= c < channels && 0 <= s < frames ==>
              Slot(s, c, channels) < |scratch| && planes[c][s] == scratch[Slot(s, c, channels)]
  {
    SlotIsProduct(frames, 0, channels);
    AllSlotsBelow(frames, channels);
    seq(channels, c requires 0 <= c < channels => Plane(scratch, channels, frames, c))
  }

  /** The index law of Deinterleave, with the interleaved position written out. */
  lemma DeinterleaveAt(scratch: seq<i16>, channels: nat, frames: nat, c: nat, s: nat)
    requires frames * channels <= |scratch|
    requires c < channels && s < frames
    ensures s * channels + c < frames * channels
    ensures Deinterleave(scratch, channels, frames)[c][s] == scratch[s * channels + c]
  {
    SlotIsProduct(s, c, channels);
    SlotBelow(s, c, frames, channels);
  }

  /** The first `frames` frames of the planes merged into one interleaved sequence. */
  function Interleave(planes: seq<seq<i16>>, frames: nat): (pcm: seq<i16>)
    requires forall c :: 0 <= c < |planes| ==> frames <= |planes[c]|
    ensures |pcm| == frames * |planes|
  {
    if frames == 0 then []
    else Interleave(planes, frames - 1) + seq(|planes|, c requires 0 <= c < |planes| => planes[c][frames - 1])
  }

  /** Interleaving puts sample `s` of plane `c` at `Slot(s, c, |planes|)`. */
  lemma {:induction false} InterleaveAt(planes: seq<seq<i16>>, frames: nat, s: nat, c: nat)
    requires forall c :: 0 <= c < |planes| ==> frames <= |planes[c]|
    requires s < frames && c < |planes|
    ensures Slot(s, c, |planes|) < |Interleave(planes, frames)|
    ensures Interleave(planes, frames)[Slot(s, c, |planes|)] == planes[c][s]
  {
    SlotBelow(s, c, frames, |planes|);
    SlotIsProduct(frames, 0, |planes|);
    SlotIsProduct(frames - 1, 0, |planes|);
    if s < frames - 1 {
      InterleaveAt(planes, frames - 1, s, c);
    } else {
      SlotOffset(s, c, |planes|);
    }
  }

  /** Interleaving planes and splitting them again loses and reorders nothing. */
  lemma DeinterleaveInterleave(planes: seq<seq<i16>>, frames: nat)
    requires Rectangular(planes, frames)
    ensures Deinterleave(Interleave(planes, frames), |planes|, frames) == planes
  {
    var channels := |planes|;
    var back := Deinterleave(Interleave(planes, frames), channels, frames);
    forall c | 0 <= c < channels
      ensures back[c] == planes[c]
    {
      forall s | 0 <= s < frames
        ensures back[c][s] == planes[c][s]
      {
        InterleaveAt(planes, frames, s, c);
      }
    }
  }

  /** Splitting the first `frames` interleaved frames and merging them again gives them back. */
  lemma InterleaveDeinterleave(scratch: seq<i16>, channels: nat, frames: nat)
    requires frames * channels <= |scratch|
    ensures Interleave(Deinterleave(scratch, channels, frames), frames) == scratch[..frames * channels]
  {
    var planes := Deinterleave(scratch, channels, frames);
    var pcm := Interleave(planes, frames);
    forall i | 0 <= i < frames * channels
      ensures pcm[i] == scratch[i]
    {
      var s, c := SlotOf(i, frames, channels);
      InterleaveAt(planes, frames, s, c);
    }
  }
}
