/** Error kinds raised by the core and the Result type that carries them. */
module Results {

  /** The exceptions the core raises, one constructor per distinct failure. */
  datatype Error =
    | ZeroVector      // normalising a vector whose L2 norm is 0
    | LengthMismatch  // two statevectors of different lengths
    | NotPowerOfTwo   // a statevector length that is not 2^n
    | MathDomain      // math.log2 applied to 0 (an empty statevector)
    | DivisionByZero  // p0 computed with zero shots

  datatype Result<+T> = Ok(value: T) | Err(error: Error)
}
