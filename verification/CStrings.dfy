/** NUL-terminated strings in character buffers. */
module CStrings {

  datatype Option<+T> = None | Some(value: T)

  /** The C string at the front of a buffer: everything before the first NUL. */
  function CString(b: seq<char>): (s: string)
    ensures |s| <= |b| && forall i :: 0 <= i < |s| ==> s[i] == b[i] != '\0'
    ensures |s| < |b| ==> b[|s|] == '\0'
    ensures '\0' in b ==> |s| < |b|
  {
    if b == [] || b[0] == '\0' then [] else [b[0]] + CString(b[1..])
  }

  /** A text without NUL that is followed by a NUL is the C string of its buffer. */
  lemma {:induction false} CStringIs(b: seq<char>, n: nat)
    requires n < |b| && b[n] == '\0' && forall i :: 0 <= i < n ==> b[i] != '\0'
    ensures CString(b) == b[..n]
  {
    if n > 0 {
      CStringIs(b[1..], n - 1);
      assert b[..n] == [b[0]] + b[1..][..n - 1];
    }
  }

  /** A buffer in which `out` and a NUL replace the front of `before`. */
  lemma Assemble(now: seq<char>, out: string, before: seq<char>)
    requires |out| < |before| == |now| && now[|out|] == '\0'
    requires forall i :: 0 <= i < |out| ==> now[i] == out[i]
    requires forall i :: |out| < i < |before| ==> now[i] == before[i]
    ensures now == out + ['\0'] + before[|out| + 1..]
  {
  }

  /** A text without NUL, followed by a NUL, is the C string that starts there. */
  lemma HoldsCString(b: seq<char>, at: nat, t: string)
    requires at + |t| < |b| && b[at + |t|] == '\0'
    requires forall i :: at <= i < at + |t| ==> b[i] == t[i - at] != '\0'
    ensures CString(b[at..]) == t
  {
    CStringIs(b[at..], |t|);
    assert b[at..][..|t|] == t;
  }

  lemma Assoc<T>(a: seq<T>, b: seq<T>, c: seq<T>)
    ensures (a + b) + c == a + (b + c)
  {
  }

  function Concat(parts: seq<string>): string {
    if parts == [] then "" else parts[0] + Concat(parts[1..])
  }

  lemma {:induction false} ConcatAppend(a: seq<string>, b: seq<string>)
    ensures Concat(a + b) == Concat(a) + Concat(b)
  {
    if a == [] {
      assert a + b == b;
    } else {
      assert (a + b)[1..] == a[1..] + b;
      ConcatAppend(a[1..], b);
      Assoc(a[0], Concat(a[1..]), Concat(b));
    }
  }
}
