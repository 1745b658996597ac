/** The status codes the FFT routines return (`E_SUCCESS`, `E_INVALID_INPUT`
    from `error.h`, fft.h:8). Only which of the two is returned matters. */
module Errors {
  datatype Status = Success | InvalidInput
}
