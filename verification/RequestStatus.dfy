/** enum REQ_STATUS of src/globals.h, in its order. */
module RequestStatus {

  datatype Status =
    | READ_HEADER | ONE_CR | ONE_LF | TWO_CR
    | BODY_READ | BODY_WRITE
    | WRITE
    | PIPE_READ | PIPE_WRITE
    | IOSHUFFLE
    | DONE
    | TIMED_OUT
    | DEAD

  /** status > DONE */
  predicate Over(s: Status) {
    s == TIMED_OUT || s == DEAD
  }

  /** What a read or a write comes back with: a short count, "try again", or an error. */
  datatype IoResult = Moved(count: nat) | Blocked | Failed

  /** What a read from the socket comes back with, and its bytes; nothing got is the end of the stream. */
  datatype ReadResult = Got(data: string) | WouldBlock | Interrupted | ReadError
}
