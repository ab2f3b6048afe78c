/**
  What a list of ranges asks for: the slices of the file, and the text of a response to several ranges, with a header in
  front of each part and a closing separator (src/response.c).
  */
module Layout {
  import opened CStrings
  import opened Limits
  import opened Decimal
  import opened RangeSyntax
  import opened RangeTable

  // ----- what a list of ranges asks for

  /** The range lies inside a file of `n` bytes and is not empty. */
  predicate Inside(r: RangeSpec, n: nat) {
    r.start <= r.stop < n
  }

  ghost predicate AllInside(rs: seq<RangeSpec>, n: nat) {
    forall i :: 0 <= i < |rs| ==> Inside(rs[i], n)
  }

  /** file[start..stop], both ends included */
  function Slice(file: string, r: RangeSpec): string {
    if Inside(r, |file|) then Part(file, r.start, r.stop + 1) else ""
  }

  /** The bytes of the file from `a` up to `b`. */
  function Part(file: string, a: nat, b: nat): (p: string)
    requires a <= b <= |file|
    ensures |p| == b - a
  {
    file[a..b]
  }

  function Slices(file: string, rs: seq<RangeSpec>): string {
    if rs == [] then "" else Slice(file, rs[0]) + Slices(file, rs[1..])
  }

  /** The ranges after `n` bytes of the first one have been taken. */
  function Rest(rs: seq<RangeSpec>, n: nat): seq<RangeSpec>
    requires rs != [] && rs[0].start + n <= rs[0].stop + 1 < WORD_SIZE
  {
    if rs[0].start + n == rs[0].stop + 1 then rs[1..] else [RangeSpec(rs[0].start + n, rs[0].stop)] + rs[1..]
  }

  /** The first `n` bytes of the first range. */
  function Leading(file: string, rs: seq<RangeSpec>, n: nat): (p: string)
    ensures rs != [] && rs[0].start + n <= |file| ==> |p| == n
  {
    if rs != [] && rs[0].start + n <= |file| then Part(file, rs[0].start, rs[0].start + n) else ""
  }

  /** How many bytes the first range has. */
  function Wanted(rs: seq<RangeSpec>): int {
    if rs == [] then 0 else rs[0].stop + 1 - rs[0].start
  }

  lemma RestInside(rs: seq<RangeSpec>, n: nat, size: nat)
    requires rs != [] && AllInside(rs, size) && rs[0].start + n <= rs[0].stop + 1 < WORD_SIZE
    ensures AllInside(Rest(rs, n), size)
  {
  }

  lemma FirstInside(rs: seq<RangeSpec>, size: nat)
    requires rs != [] && AllInside(rs, size)
    ensures Inside(rs[0], size)
  {
  }

  /** Taking `n` bytes off the first range. */
  lemma TakeBytes(file: string, rs: seq<RangeSpec>, n: nat)
    requires rs != [] && AllInside(rs, |file|) && rs[0].start + n <= rs[0].stop + 1 < WORD_SIZE
    ensures AllInside(Rest(rs, n), |file|)
    ensures Slices(file, rs) == Part(file, rs[0].start, rs[0].start + n) + Slices(file, Rest(rs, n))
  {
    hide Slices, AllInside, Slice, Rest, Part;
    FirstInside(rs, |file|);
    RestInside(rs, n, |file|);
    RestIs(rs, n);
    var m := rs[0].start + n;
    if m < rs[0].stop + 1 {
      SlicesStep(file, rs);
      TakePart(file, rs[0], n, rs[1..]);
    } else {
      assert m == rs[0].stop + 1;
      TakeWhole(file, rs);
    }
  }

  lemma RestIs(rs: seq<RangeSpec>, n: nat)
    requires rs != [] && rs[0].start + n <= rs[0].stop + 1 < WORD_SIZE
    ensures rs[0].start + n == rs[0].stop + 1 ==> Rest(rs, n) == rs[1..]
    ensures rs[0].start + n < rs[0].stop + 1 ==>
              Rest(rs, n) == [RangeSpec(rs[0].start + n, rs[0].stop)] + rs[1..]
  {
  }

  lemma TakeWhole(file: string, rs: seq<RangeSpec>)
    requires rs != [] && Inside(rs[0], |file|)
    ensures Slices(file, rs) == Part(file, rs[0].start, rs[0].stop + 1) + Slices(file, rs[1..])
  {
    hide Slices, Part;
    SlicesStep(file, rs);
    assert Slice(file, rs[0]) == Part(file, rs[0].start, rs[0].stop + 1);
  }

  lemma TakePart(file: string, r: RangeSpec, n: nat, more: seq<RangeSpec>)
    requires Inside(r, |file|) && r.start + n <= r.stop
    ensures Slice(file, r) + Slices(file, more) ==
              Part(file, r.start, r.start + n) + Slices(file, [RangeSpec(r.start + n, r.stop)] + more)
  {
    hide Slices;
    var front := RangeSpec(r.start + n, r.stop);
    assert ([front] + more)[1..] == more;
    SlicesStep(file, [front] + more);
    SplitSlice(file, r.start, r.start + n, r.stop + 1);
    Assoc(Part(file, r.start, r.start + n), Slice(file, front), Slices(file, more));
  }

  lemma SlicesStep(file: string, rs: seq<RangeSpec>)
    requires rs != []
    ensures Slices(file, rs) == Slice(file, rs[0]) + Slices(file, rs[1..])
  {
  }

  lemma SplitSlice(file: string, a: nat, m: nat, b: nat)
    requires a <= m <= b <= |file|
    ensures Part(file, a, b) == Part(file, a, m) + Part(file, m, b)
  {
  }

  lemma InsideTail(rs: seq<RangeSpec>, n: nat)
    requires rs != [] && AllInside(rs, n)
    ensures AllInside(rs[1..], n)
  {
  }

  /** What gets into the buffer of a row of messages, when the buffer ends at `end`. */
  function Fitting(texts: seq<string>, end: nat): string {
    if texts == [] then ""
    else if texts[0] != "" && end + |texts[0]| > BUFFER_SIZE then ""
    else texts[0] + Fitting(texts[1..], end + |texts[0]|)
  }

  predicate AllFit(texts: seq<string>, end: nat) {
    texts == [] || ((texts[0] == "" || end + |texts[0]| <= BUFFER_SIZE) && AllFit(texts[1..], end + |texts[0]|))
  }

  lemma FittingNone(end: nat)
    ensures Fitting([], end) == "" && AllFit([], end) && forall d: string :: d + "" == d && "" + d == d
  {
  }

  lemma FittingStep(texts: seq<string>, i: nat, end: nat, was: string, done: string)
    requires i < |texts|
    ensures var fits := texts[i] == "" || end + |texts[i]| <= BUFFER_SIZE;
      && Fitting(texts[i..], end) == (if fits then texts[i] + Fitting(texts[i + 1..], end + |texts[i]|) else "")
      && AllFit(texts[i..], end) == (fits && AllFit(texts[i + 1..], end + |texts[i]|))
      && was + done + texts[i] == was + (done + texts[i])
      && done + texts[i] + Fitting(texts[i + 1..], end + |texts[i]|)
         == done + (texts[i] + Fitting(texts[i + 1..], end + |texts[i]|))
      && done + "" == done
  {
    assert texts[i..][1..] == texts[i + 1..];
  }

  // ----- the response to several ranges

  lemma ClosingIs(end: nat)
    ensures ClosingPart(end) == if end + |CLOSING_SEPARATOR| <= BUFFER_SIZE then CLOSING_SEPARATOR else ""
  {
  }

  lemma SomethingCloses()
    ensures CLOSING_SEPARATOR != ""
  {
  }

  const SEPARATOR: string := "\r\n--THIS_STRING_SEPARATES\r\n"
  const CLOSING_SEPARATOR: string := "\r\n--THIS_STRING_SEPARATES--\r\n"

  /** The closing separator is written when it fits behind what the buffer has. */
  function ClosingPart(end: nat): string {
    if end + |CLOSING_SEPARATOR| <= BUFFER_SIZE then CLOSING_SEPARATOR else ""
  }

  /** print_partial_content_continue, and the empty line behind it: the messages in front of the bytes of a range. */
  function PartHeader(several: bool, contentType: seq<string>, r: RangeSpec, filesize: nat): seq<string> {
    (if several then [SEPARATOR] else []) + contentType
    + ["Content-Range: bytes ", Dec(r.start), "-", Dec(r.stop), "/", Dec(filesize), "\r\n", "\r\n"]
  }

  /** The messages in front of the first byte of a file: those of the response, and for a part those of the range. */
  function Opening(header: seq<string>, partial: bool, several: bool, contentType: seq<string>, r: RangeSpec,
                   filesize: nat): seq<string> {
    header + if partial then PartHeader(several, contentType, r, filesize) else []
  }

  /** What is written once the first range is done: for each further range its header and its bytes; then the end. */
  function Further(file: string, several: bool, contentType: seq<string>, rs: seq<RangeSpec>): string {
    if rs == [] then if several then CLOSING_SEPARATOR else ""
    else
      Concat(PartHeader(several, contentType, rs[0], |file|))
      + (Slice(file, rs[0]) + Further(file, several, contentType, rs[1..]))
  }

  /** What is still to be written when the header of the first range has been. */
  function Script(file: string, several: bool, contentType: seq<string>, rs: seq<RangeSpec>): string {
    if rs == [] then "" else Slice(file, rs[0]) + Further(file, several, contentType, rs[1..])
  }

  /** The next range's header opens what is still to be written. */
  lemma FurtherStep(file: string, several: bool, contentType: seq<string>, rs: seq<RangeSpec>)
    requires rs != []
    ensures Further(file, several, contentType, rs) ==
              Concat(PartHeader(several, contentType, rs[0], |file|)) + Script(file, several, contentType, rs)
  {
    hide PartHeader, Concat;
  }

  /** Writing `n` bytes of the first range. */
  lemma ScriptStep(file: string, several: bool, contentType: seq<string>, rs: seq<RangeSpec>, n: nat)
    requires rs != [] && AllInside(rs, |file|) && rs[0].start + n <= rs[0].stop + 1 < WORD_SIZE
    ensures Script(file, several, contentType, rs) ==
              Part(file, rs[0].start, rs[0].start + n) +
              if rs[0].start + n == rs[0].stop + 1 then Further(file, several, contentType, rs[1..])
              else Script(file, several, contentType, Rest(rs, n))
  {
    hide Further, Part, AllInside, Slices;
    FirstInside(rs, |file|);
    RestIs(rs, n);
    var m, more := rs[0].start + n, Further(file, several, contentType, rs[1..]);
    if m < rs[0].stop + 1 {
      var front := RangeSpec(m, rs[0].stop);
      assert ([front] + rs[1..])[1..] == rs[1..];
      SplitSlice(file, rs[0].start, m, rs[0].stop + 1);
      Assoc(Part(file, rs[0].start, m), Slice(file, front), more);
    }
  }

  /** The messages fit when all of them together do; then all of them are what gets into the buffer. */
  lemma {:induction false} AllFitMeans(texts: seq<string>, end: nat)
    requires end <= BUFFER_SIZE
    ensures AllFit(texts, end) <==> end + |Concat(texts)| <= BUFFER_SIZE
    ensures AllFit(texts, end) ==> Fitting(texts, end) == Concat(texts)
  {
    if texts != [] && end + |texts[0]| <= BUFFER_SIZE {
      AllFitMeans(texts[1..], end + |texts[0]|);
    }
  }

  /** The header of a part takes up to 84 characters besides its content type. */
  lemma HeaderLength(several: bool, contentType: seq<string>, r: RangeSpec, filesize: nat)
    requires filesize < LONG_MIN
    ensures |Concat(PartHeader(several, contentType, r, filesize))| <= |Concat(contentType)| + 84
  {
    hide Concat, Dec;
    var numbers := ["Content-Range: bytes ", Dec(r.start), "-", Dec(r.stop), "/", Dec(filesize), "\r\n", "\r\n"];
    var front := if several then [SEPARATOR] else [];
    ConcatAppend(front + contentType, numbers);
    ConcatAppend(front, contentType);
    ConcatFront(front);
    ConcatNumbers(Dec(r.start), Dec(r.stop), Dec(filesize));
    TenDigits(r.start);
    TenDigits(r.stop);
    TenDigits(filesize);
  }

  lemma HeaderIsThere(several: bool, contentType: seq<string>, r: RangeSpec, filesize: nat)
    ensures |Concat(PartHeader(several, contentType, r, filesize))| > 0
  {
    hide Concat, Dec;
    var numbers := ["Content-Range: bytes ", Dec(r.start), "-", Dec(r.stop), "/", Dec(filesize), "\r\n", "\r\n"];
    ConcatAppend((if several then [SEPARATOR] else []) + contentType, numbers);
    ConcatNumbers(Dec(r.start), Dec(r.stop), Dec(filesize));
  }

  lemma ConcatFront(front: seq<string>)
    requires front == [SEPARATOR] || front == []
    ensures |Concat(front)| <= 27
  {
    assert front != [] ==> Concat(front[1..]) == "";
  }

  lemma ConcatNumbers(a: string, b: string, c: string)
    ensures |Concat(["Content-Range: bytes ", a, "-", b, "/", c, "\r\n", "\r\n"])| == 27 + |a| + |b| + |c|
  {
    hide Concat;
    var t := ["Content-Range: bytes ", a, "-", b, "/", c, "\r\n", "\r\n"];
    ConcatStep(t);
    ConcatStep(t[1..]);
    ConcatStep(t[1..][1..]);
    ConcatStep(t[1..][1..][1..]);
    FourMore(t[1..][1..][1..][1..]);
  }

  lemma FourMore(t: seq<string>)
    requires |t| == 4
    ensures |Concat(t)| == |t[0]| + |t[1]| + |t[2]| + |t[3]|
  {
    hide Concat;
    ConcatStep(t);
    ConcatStep(t[1..]);
    ConcatStep(t[1..][1..]);
    ConcatStep(t[1..][1..][1..]);
    ConcatStep(t[1..][1..][1..][1..]);
  }

  lemma ConcatStep(t: seq<string>)
    ensures Concat(t) == if t == [] then "" else t[0] + Concat(t[1..])
  {
  }

  lemma TenDigits(n: nat)
    requires n < WORD_SIZE
    ensures |Dec(n)| <= 10
  {
    DecLength(n, 10) by { SmallPowers(); }
  }
}
