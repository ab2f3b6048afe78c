/**
  The order of the bytes on a socket that is written to in two ways: from the output buffer (src/buffer.c), and directly
  from a file (src/get.c, src/pipe.c).
  */
module WireOrder {

  /**
    Everything written so far, in the order of the program; and the places in it of the bytes that the socket has taken,
    in the order in which it took them, and of the bytes that wait in the buffer.
    */
  datatype Stream = Stream(made: string, taken: seq<nat>, waiting: seq<nat>)

  const NOTHING: Stream := Stream("", [], [])

  function Places(from: nat, n: nat): (p: seq<nat>)
    ensures |p| == n && forall i :: 0 <= i < n ==> p[i] == from + i
  {
    seq(n, i requires 0 <= i < n => from + i)
  }

  /** A text goes to the end of the buffer. */
  function Stored(x: Stream, text: string): Stream {
    Stream(x.made + text, x.taken, x.waiting + Places(|x.made|, |text|))
  }

  /** The socket takes `n` bytes from the front of the buffer. */
  function Flushed(x: Stream, n: nat): Stream
    requires n <= |x.waiting|
  {
    Stream(x.made, x.taken + x.waiting[..n], x.waiting[n..])
  }

  /** The socket takes a text that never was in the buffer. */
  function Direct(x: Stream, text: string): Stream {
    Stream(x.made + text, x.taken + Places(|x.made|, |text|), x.waiting)
  }

  /** The socket takes the bytes in the order in which they are written. */
  predicate InOrder(x: Stream) {
    x.taken + x.waiting == Places(0, |x.made|)
  }

  /** The socket has taken nothing but what was written. */
  predicate Genuine(x: Stream) {
    forall i :: 0 <= i < |x.taken| ==> x.taken[i] < |x.made|
  }

  /** The buffer holds the bytes that wait. */
  predicate Backs(x: Stream, pending: string) {
    && |x.waiting| == |pending|
    && (forall i :: 0 <= i < |pending| ==> x.waiting[i] < |x.made| && x.made[x.waiting[i]] == pending[i])
    && Genuine(x)
  }

  /** What the socket has got. */
  function Wire(x: Stream): (w: string)
    requires Genuine(x)
    ensures |w| == |x.taken| && forall i :: 0 <= i < |w| ==> w[i] == x.made[x.taken[i]]
  {
    seq(|x.taken|, i requires 0 <= i < |x.taken| => x.made[x.taken[i]])
  }

  lemma StoredKeeps(x: Stream, text: string, pending: string)
    requires Backs(x, pending)
    ensures Backs(Stored(x, text), pending + text)
    ensures InOrder(Stored(x, text)) <==> InOrder(x)
  {
    var y, n := Stored(x, text), |x.made|;
    assert y.taken + y.waiting == (x.taken + x.waiting) + Places(n, |text|);
    assert Places(0, |y.made|) == Places(0, n) + Places(n, |text|);
    if InOrder(y) {
      assert |x.taken + x.waiting| == n;
      assert x.taken + x.waiting == (y.taken + y.waiting)[..n];
    }
  }

  lemma FlushedKeeps(x: Stream, n: nat, pending: string)
    requires Backs(x, pending) && n <= |pending|
    ensures Backs(Flushed(x, n), pending[n..])
    ensures InOrder(Flushed(x, n)) <==> InOrder(x)
  {
    var y := Flushed(x, n);
    assert y.taken + y.waiting == x.taken + x.waiting;
  }

  /** A direct write keeps the order exactly when nothing waits in the buffer, or nothing is written. */
  lemma DirectKeeps(x: Stream, text: string, pending: string)
    requires Backs(x, pending)
    ensures Backs(Direct(x, text), pending)
    ensures InOrder(Direct(x, text)) <==> InOrder(x) && (text == "" || pending == "")
  {
    var y, n := Direct(x, text), |x.made|;
    if text == "" {
      assert y.taken + y.waiting == x.taken + x.waiting;
    } else if pending == "" {
      StoredKeeps(x, text, pending);
      assert y.taken + y.waiting == Stored(x, text).taken + Stored(x, text).waiting;
    } else {
      var all := y.taken + y.waiting;
      assert all[|x.taken|] == n && |all| == |x.taken| + |text| + |pending|;
    }
  }

  /** With the order kept, what the socket has got, followed by what waits, is what was written. */
  lemma OrderedWire(x: Stream, pending: string)
    requires Backs(x, pending) && InOrder(x)
    ensures Wire(x) + pending == x.made
  {
    var all := x.taken + x.waiting;
    assert |all| == |x.made|;
    forall i | 0 <= i < |x.made| ensures (Wire(x) + pending)[i] == x.made[i] {
      assert all[i] == i;
    }
  }
}
