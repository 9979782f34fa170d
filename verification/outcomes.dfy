/**
 Outcomes of the adapter's operations. Rust's `Result` becomes `Ok`/`Err`; an
 `unwrap()` on a failed value aborts the program, which is kept apart from the
 recoverable errors as `Panic`, naming the call site that aborts.
 */
module Outcomes {

  datatype Option<+T> = None | Some(value: T)

  /** Symphonia's decoder error. Only the variant the adapter produces is modelled. */
  datatype Error = Unsupported(what: string)

  /** The places where decoding aborts instead of returning an error: `unwrap()` calls and one assert. */
  datatype PanicSite =
    | MissingChannels   // `params.channels.unwrap()` when the stream declares no channels
    | DecoderCreate     // `opus::Decoder::new(..).unwrap()` when libopus refuses the arguments
    | DecodeRejected    // `decode(..).unwrap()` when libopus rejects the packet
    | ResetRejected     // `reset_state().unwrap()` when libopus refuses the reset
    | CapacityExceeded  // Symphonia's assert in `render_reserved` when the frames do not fit

  datatype Outcome<+T> = Ok(value: T) | Err(error: Error) | Panic(site: PanicSite)
}
