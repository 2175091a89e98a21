/** What the routines return. */
module ReturnCodes {
  /** Return codes. `:-` plays the part of MBEDTLS_MPI_CHK. */
  datatype Status = Ok | Fail(code: int) {
    predicate IsFailure() { Fail? }
    function PropagateFailure(): Status
    {
      this
    }
  }

  const ERR_BAD_INPUT := -0x0004
  const ERR_INVALID_CHARACTER := -0x0006
  const ERR_BUFFER_TOO_SMALL := -0x0008
  const ERR_NEGATIVE_VALUE := -0x000A
  const ERR_DIVISION_BY_ZERO := -0x000C
  const ERR_NOT_ACCEPTABLE := -0x000E
  const ERR_ALLOC_FAILED := -0x0010

  const ERR_CORRUPTION_DETECTED := -0x006E
}
