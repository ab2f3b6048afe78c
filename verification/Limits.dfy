/** Sizes that several parts of the server share. */
module Limits {
  /** The output buffer of a request, which the body of a POST request goes through, too. */
  const BUFFER_SIZE := 4096
  /** How many values an `unsigned long` has. */
  const WORD_SIZE := 0x1_0000_0000
}
