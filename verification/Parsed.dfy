/** Outcome of a parse function of cJSON.c. */
module ParsedResult {
  import opened Bytes

  /** `Ok`: the function returned a cursor, standing at `rest`.
      `Fail`: it returned the null pointer.
      `Malformed`: what the C code does is not defined. A string literal makes
      it run over the NUL, use a variable nothing was stored in, or write past
      the end of the block. */
  datatype Parsed<+T> = Ok(value: T, rest: Text) | Fail | Malformed
}
