/** Shared value types: optional values, results, and the errors the program can raise. */
module Common {

  datatype Option<T> = None | Some(value: T)

  /** Every way the program aborts (Python raises and the run stops). */
  datatype Error =
    | ZeroBinsize                      // range() with a step of zero
    | InvalidBoundSpec(spec: string)    // float() rejected what follows the first character
    | PercentileOutOfRange(spec: string) // numpy refuses a percentile outside [0, 100]
    | UnknownColormap(name: string)     // the palette registry has no such name
    | InvalidColorSpec(spec: string)    // a comma-separated part is not a colour

  datatype Result<T> = Ok(value: T) | Err(error: Error)
}
