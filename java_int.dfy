/**
 * Java's primitive `int`: a 32-bit two's-complement integer. The exercises only
 * store values in it and increment a counter, so the model keeps those values in
 * range and makes the verifier prove that every increment stays inside it.
 */
module JavaInt {

  const INT_MIN: int := -0x8000_0000
  const INT_MAX: int := 0x7fff_ffff

  newtype int32 = x: int | -0x8000_0000 <= x <= 0x7fff_ffff
}
