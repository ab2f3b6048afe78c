/**
  What a client reads in a partial response: the Content-Range header of section 14.16 of RFC 2616 and the
  multipart/byteranges body of its section 19.2. The messages of src/response.c are read back with it.
  */
module PartReader {
  import opened CStrings
  import opened Decimal
  import opened RangeSyntax
  import opened RangeTable
  import opened RangeStandard
  import opened Layout

  // ----- reading

  /** The boundary that the header of the whole response names. */
  const BOUNDARY: string := "THIS_STRING_SEPARATES"
  const DELIMITER: string := "\r\n--" + BOUNDARY + "\r\n"
  const CLOSE_DELIMITER: string := "\r\n--" + BOUNDARY + "--\r\n"

  /** The text behind a word. */
  function After(word: string, s: string): (rest: Option<string>)
    ensures rest.Some? ==> |rest.value| + |word| == |s|
  {
    if word <= s then Some(s[|word|..]) else None
  }

  datatype PartHead = NotAPart | PartHead(first: nat, last: nat, size: nat, rest: string)

  /** byte-content-range-spec, with a known length, and the empty line behind it; one that is not valid is refused. */
  function ReadContentRange(s: string): (p: PartHead)
    ensures p.PartHead? ==> p.first <= p.last < p.size && |p.rest| < |s|
  {
    var a := After("Content-Range: bytes ", s);
    if a == None || !DigitAhead(a.value) then NotAPart
    else
      var b := After("-", SkipDigits(a.value));
      if b == None || !DigitAhead(b.value) then NotAPart
      else
        var c := After("/", SkipDigits(b.value));
        if c == None || !DigitAhead(c.value) then NotAPart
        else
          var end := After("\r\n\r\n", SkipDigits(c.value));
          var first, last, size := Value(a.value, 0), Value(b.value, 0), Value(c.value, 0);
          if end == None || !(first <= last < size) then NotAPart else PartHead(first, last, size, end.value)
  }

  /** The header of a part with that content type; of several parts, each begins with a delimiter. */
  function ReadHead(several: bool, contentType: string, s: string): (p: PartHead)
    ensures p.PartHead? ==> p.first <= p.last < p.size && |p.rest| < |s|
  {
    var a := if several then After(DELIMITER, s) else Some(s);
    var b := if a == None then None else After(contentType, a.value);
    if b == None then NotAPart else ReadContentRange(b.value)
  }

  /** A part as the client gets it. */
  datatype SentPart = SentPart(first: nat, last: nat, size: nat, bytes: string)

  function ConsPart(p: SentPart, rest: Option<seq<SentPart>>): Option<seq<SentPart>> {
    if rest == None then None else Some([p] + rest.value)
  }

  /** The parts up to the closing delimiter. */
  function ReadParts(contentType: string, s: string): Option<seq<SentPart>>
    decreases |s|
  {
    var p := ReadHead(true, contentType, s);
    if s == CLOSE_DELIMITER then Some([])
    else if p == NotAPart || |p.rest| < p.last + 1 - p.first then None
    else
      var n := p.last + 1 - p.first;
      ConsPart(SentPart(p.first, p.last, p.size, p.rest[..n]), ReadParts(contentType, p.rest[n..]))
  }

  /** A partial response: several parts, or one with the rest of the response as its bytes. */
  function ReadPartial(several: bool, contentType: string, s: string): Option<seq<SentPart>> {
    var p := ReadHead(false, contentType, s);
    if several then ReadParts(contentType, s)
    else if p == NotAPart || |p.rest| != p.last + 1 - p.first then None
    else Some([SentPart(p.first, p.last, p.size, p.rest)])
  }

  // ----- what is written is read back

  lemma AfterIs(word: string, w: string)
    ensures After(word, word + w) == Some(w)
  {
  }

  /** A number and what follows. */
  lemma NumberRead(n: nat, w: string)
    requires w != "" && !IsDigit(w[0])
    ensures DigitAhead(Dec(n) + w) && Value(Dec(n) + w, 0) == n && SkipDigits(Dec(n) + w) == w
  {
    hide Dec, Value, SkipDigits;
    ValueAhead(n, w);
  }

  /** The bytes that print_content_range writes, and the empty line. */
  function RangeLine(a: nat, b: nat, n: nat, w: string): string {
    "Content-Range: bytes " + (Dec(a) + ("-" + (Dec(b) + ("/" + (Dec(n) + ("\r\n\r\n" + w))))))
  }

  lemma RangeLineRead(a: nat, b: nat, n: nat, w: string)
    requires a <= b < n
    ensures ReadContentRange(RangeLine(a, b, n, w)) == PartHead(a, b, n, w)
  {
    hide Dec, Value, SkipDigits, After, DigitAhead;
    var end := "\r\n\r\n" + w;
    var c := "/" + (Dec(n) + end);
    var second := "-" + (Dec(b) + c);
    AfterIs("Content-Range: bytes ", Dec(a) + second);
    NumberRead(a, second);
    AfterIs("-", Dec(b) + c);
    NumberRead(b, c);
    AfterIs("/", Dec(n) + end);
    NumberRead(n, end);
    AfterIs("\r\n\r\n", w);
  }

  lemma NumbersAre(r: RangeSpec, filesize: nat, w: string)
    ensures Concat(["Content-Range: bytes ", Dec(r.start), "-", Dec(r.stop), "/", Dec(filesize), "\r\n", "\r\n"]) + w ==
              RangeLine(r.start, r.stop, filesize, w)
  {
    hide Concat, Dec;
    var t := ["Content-Range: bytes ", Dec(r.start), "-", Dec(r.stop), "/", Dec(filesize), "\r\n", "\r\n"];
    var end := t[1..][1..][1..][1..][1..];
    assert t[1..][0] == Dec(r.start) && t[1..][1..][0] == "-" && t[1..][1..][1..][0] == Dec(r.stop);
    assert t[1..][1..][1..][1..][0] == "/" && end == [Dec(filesize), "\r\n", "\r\n"];
    EndIs(Dec(filesize), w);
    StepBehind(t[1..][1..][1..][1..], w);
    StepBehind(t[1..][1..][1..], w);
    StepBehind(t[1..][1..], w);
    StepBehind(t[1..], w);
    StepBehind(t, w);
  }

  lemma EndIs(d: string, w: string)
    ensures Concat([d, "\r\n", "\r\n"]) + w == d + ("\r\n\r\n" + w)
  {
    hide Concat;
    var t := [d, "\r\n", "\r\n"];
    LineEnds();
    assert t[1..] == ["\r\n", "\r\n"];
    StepBehind(t, w);
  }

  lemma LineEnds()
    ensures Concat(["\r\n", "\r\n"]) == "\r\n\r\n"
  {
    assert ["\r\n", "\r\n"][1..] == ["\r\n"] && Concat(["\r\n"]) == "\r\n";
  }

  lemma StepBehind(t: seq<string>, w: string)
    requires t != []
    ensures Concat(t) + w == t[0] + (Concat(t[1..]) + w)
  {
    ConcatStep(t);
    Assoc(t[0], Concat(t[1..]), w);
  }

  /** The header of a part reads as its range; it begins with a delimiter if and only if there are several. */
  lemma HeaderIsRead(several: bool, contentType: seq<string>, r: RangeSpec, filesize: nat, w: string)
    requires r.start <= r.stop < filesize
    ensures ReadHead(several, Concat(contentType), Concat(PartHeader(several, contentType, r, filesize)) + w) ==
              PartHead(r.start, r.stop, filesize, w)
    ensures DELIMITER <= Concat(PartHeader(true, contentType, r, filesize))
    ensures Concat(PartHeader(true, contentType, r, filesize)) ==
              DELIMITER + Concat(PartHeader(false, contentType, r, filesize))
  {
    hide Concat, ReadContentRange, After, RangeLine;
    var line := RangeLine(r.start, r.stop, filesize, w);
    HeaderIs(contentType, r, filesize, w);
    RangeLineRead(r.start, r.stop, filesize, w);
    AfterIs(Concat(contentType), line);
    AfterIs(DELIMITER, Concat(contentType) + line);
    Assoc(DELIMITER, Concat(PartHeader(false, contentType, r, filesize)), w);
  }

  lemma HeaderIs(contentType: seq<string>, r: RangeSpec, filesize: nat, w: string)
    ensures var one := Concat(PartHeader(false, contentType, r, filesize));
      && one + w == Concat(contentType) + RangeLine(r.start, r.stop, filesize, w)
      && Concat(PartHeader(true, contentType, r, filesize)) == DELIMITER + one
  {
    hide Concat, RangeLine, Dec, PartHeader;
    var numbers := ["Content-Range: bytes ", Dec(r.start), "-", Dec(r.stop), "/", Dec(filesize), "\r\n", "\r\n"];
    HeaderMessages(contentType, r, filesize);
    ConcatAppend(contentType, numbers);
    Assoc(Concat(contentType), Concat(numbers), w);
    NumbersAre(r, filesize, w);
    ConcatFirst(DELIMITER, PartHeader(false, contentType, r, filesize));
  }

  lemma HeaderMessages(contentType: seq<string>, r: RangeSpec, filesize: nat)
    ensures var one := PartHeader(false, contentType, r, filesize);
      && one == contentType
                + ["Content-Range: bytes ", Dec(r.start), "-", Dec(r.stop), "/", Dec(filesize), "\r\n", "\r\n"]
      && PartHeader(true, contentType, r, filesize) == [DELIMITER] + one
  {
    hide Dec;
    var none: seq<string> := [];
    assert none + contentType == contentType;
    assert SEPARATOR == DELIMITER;
    Assoc([SEPARATOR], contentType,
          ["Content-Range: bytes ", Dec(r.start), "-", Dec(r.stop), "/", Dec(filesize), "\r\n", "\r\n"]);
  }

  lemma ConcatFirst(d: string, t: seq<string>)
    ensures Concat([d] + t) == d + Concat(t)
  {
    ConcatStep([d] + t);
    assert ([d] + t)[1..] == t;
  }

  /** The parts that a list of ranges asks for. */
  function SentParts(file: string, rs: seq<RangeSpec>): seq<SentPart> {
    if rs == [] then []
    else [SentPart(rs[0].start, rs[0].stop, |file|, Slice(file, rs[0]))] + SentParts(file, rs[1..])
  }

  /** The part says truly which bytes of the file it has. */
  predicate Truthful(file: string, p: SentPart) {
    p.first <= p.last < p.size == |file| && p.bytes == file[p.first..p.last + 1]
  }

  function BytesOf(parts: seq<SentPart>): seq<string> {
    if parts == [] then [] else [parts[0].bytes] + BytesOf(parts[1..])
  }

  lemma {:induction false} SentPartsAre(file: string, rs: seq<RangeSpec>)
    requires AllInside(rs, |file|)
    ensures var ps := SentParts(file, rs);
      && |ps| == |rs|
      && forall i :: 0 <= i < |rs| ==>
           ps[i].first == rs[i].start && ps[i].last == rs[i].stop && Truthful(file, ps[i])
  {
    if rs != [] {
      SentPartsAre(file, rs[1..]);
    }
  }

  lemma {:induction false} FurtherIsRead(file: string, contentType: seq<string>, rs: seq<RangeSpec>)
    requires AllInside(rs, |file|)
    ensures ReadParts(Concat(contentType), Further(file, true, contentType, rs)) == Some(SentParts(file, rs))
  {
    hide ReadHead, PartHeader, Concat, Further;
    if rs == [] {
      ClosingRead(file, contentType);
    } else {
      InsideTail(rs, |file|);
      FurtherIsRead(file, contentType, rs[1..]);
      PartIsRead(file, contentType, rs);
    }
  }

  lemma ClosingRead(file: string, contentType: seq<string>)
    ensures ReadParts(Concat(contentType), Further(file, true, contentType, [])) == Some([])
  {
    hide ReadHead, Concat;
    assert CLOSING_SEPARATOR == CLOSE_DELIMITER;
  }

  /** The first part is read, and the others behind it. */
  lemma PartIsRead(file: string, contentType: seq<string>, rs: seq<RangeSpec>)
    requires rs != [] && AllInside(rs, |file|)
    ensures ReadParts(Concat(contentType), Further(file, true, contentType, rs)) ==
      ConsPart(SentPart(rs[0].start, rs[0].stop, |file|, Slice(file, rs[0])),
               ReadParts(Concat(contentType), Further(file, true, contentType, rs[1..])))
  {
    hide ReadHead, PartHeader, Concat, Further, CLOSE_DELIMITER;
    FirstInside(rs, |file|);
    var s, more := Further(file, true, contentType, rs), Further(file, true, contentType, rs[1..]);
    var w := Slice(file, rs[0]) + more;
    FurtherIs(file, contentType, rs);
    HeaderIsRead(true, contentType, rs[0], |file|, w);
    NotClosed(contentType, rs[0], |file|, w);
    assert w[..|Slice(file, rs[0])|] == Slice(file, rs[0]) && w[|Slice(file, rs[0])|..] == more;
    ReadPartsStep(Concat(contentType), s);
  }

  lemma FurtherIs(file: string, contentType: seq<string>, rs: seq<RangeSpec>)
    requires rs != []
    ensures Further(file, true, contentType, rs) ==
      Concat(PartHeader(true, contentType, rs[0], |file|))
      + (Slice(file, rs[0]) + Further(file, true, contentType, rs[1..]))
  {
    hide PartHeader, Concat, Slice;
  }

  lemma ReadPartsStep(contentType: string, s: string)
    ensures ReadParts(contentType, s) ==
      var p := ReadHead(true, contentType, s);
      if s == CLOSE_DELIMITER then Some([])
      else if p == NotAPart || |p.rest| < p.last + 1 - p.first then None
      else
        var n := p.last + 1 - p.first;
        ConsPart(SentPart(p.first, p.last, p.size, p.rest[..n]), ReadParts(contentType, p.rest[n..]))
  {
    hide ReadHead, CLOSE_DELIMITER;
  }

  lemma NotClosed(contentType: seq<string>, r: RangeSpec, filesize: nat, w: string)
    requires r.start <= r.stop < filesize
    ensures Concat(PartHeader(true, contentType, r, filesize)) + w != CLOSE_DELIMITER
  {
    hide PartHeader, Concat;
    HeaderIsRead(true, contentType, r, filesize, w);
    var s := Concat(PartHeader(true, contentType, r, filesize)) + w;
    assert s[25] == DELIMITER[25] == '\r' && CLOSE_DELIMITER[25] == '-';
  }

  /** A partial response as it is written is read as the parts that the ranges ask for. */
  lemma PartialIsRead(file: string, several: bool, contentType: seq<string>, rs: seq<RangeSpec>)
    requires rs != [] && AllInside(rs, |file|) && (several || |rs| == 1)
    ensures var opening := Concat(PartHeader(several, contentType, rs[0], |file|));
      ReadPartial(several, Concat(contentType), opening + Script(file, several, contentType, rs)) ==
        Some(SentParts(file, rs))
  {
    hide ReadHead, PartHeader, Concat, Further;
    FirstInside(rs, |file|);
    if several {
      FurtherIs(file, contentType, rs);
      FurtherIsRead(file, contentType, rs);
    } else {
      OneIsRead(file, contentType, rs);
    }
  }

  lemma OneIsRead(file: string, contentType: seq<string>, rs: seq<RangeSpec>)
    requires |rs| == 1 && Inside(rs[0], |file|)
    ensures ReadPartial(false, Concat(contentType),
                        Concat(PartHeader(false, contentType, rs[0], |file|)) + Script(file, false, contentType, rs))
              == Some(SentParts(file, rs))
  {
    hide ReadHead, PartHeader, Concat, Further;
    NothingFurther(file, contentType);
    assert rs[1..] == [] && Slice(file, rs[0]) + "" == Slice(file, rs[0]);
    HeaderIsRead(false, contentType, rs[0], |file|, Slice(file, rs[0]));
    assert SentParts(file, rs[1..]) == [];
    assert SentParts(file, rs) == [SentPart(rs[0].start, rs[0].stop, |file|, Slice(file, rs[0]))];
  }

  lemma NothingFurther(file: string, contentType: seq<string>)
    ensures Further(file, false, contentType, []) == ""
  {
  }
}
