/**
  A request for ranges, from the text of its header to the bytes that are delivered: the answer that section 14.35.1
  of RFC 2616 asks for, the answer that is given, and exactly when they are the same.
  */
module RangeService {
  import opened CStrings
  import opened Limits
  import opened RequestStatus
  import opened Decimal
  import opened RangeSyntax
  import opened RangeTable
  import opened RangeStandard
  import opened WireOrder
  import opened OutputBuffer
  import opened Layout
  import opened PartReader
  import opened Delivery
  import opened Turns

  /** Status 200 with the whole file, 206 with parts of it, or 416. */
  datatype Answer = Whole(body: string) | Partial(parts: seq<string>) | Unsatisfiable

  /** The bytes of the file in an answer. */
  function Body(a: Answer): string {
    match a
    case Whole(body) => body
    case Partial(parts) => Concat(parts)
    case Unsatisfiable => ""
  }

  // ----- what the RFC asks for

  predicate Satisfiable(r: ByteRange, filesize: nat) {
    match r
    case Closed(a, _) => a < filesize
    case From(a) => a < filesize
    case LastBytes(n) => n > 0
  }

  /** The bytes among the first `n` of the file that a range denotes. */
  function Chosen(file: string, r: ByteRange, n: nat): string
    requires n <= |file|
  {
    if n == 0 then ""
    else Chosen(file, r, n - 1) + if Denotes(r, |file|, n - 1) then [file[n - 1]] else ""
  }

  /** One part for each range that is satisfiable. */
  function DueParts(file: string, rs: seq<ByteRange>): seq<string> {
    if rs == [] then []
    else (if Satisfiable(rs[0], |file|) then [Chosen(file, rs[0], |file|)] else []) + DueParts(file, rs[1..])
  }

  predicate SomeInverted(rs: seq<ByteRange>) {
    exists i :: 0 <= i < |rs| && Inverted(rs[i])
  }

  /** A list that is empty or has an inverted range is no byte-range-set: the header is ignored. */
  function RfcAnswer(file: string, rs: seq<ByteRange>): Answer {
    if rs == [] || SomeInverted(rs) then Whole(file)
    else if DueParts(file, rs) == [] then Unsatisfiable
    else Partial(DueParts(file, rs))
  }

  // ----- what the server answers

  /** What range_parse makes of a header value. */
  function Understood(value: string): Option<seq<RangeSpec>> {
    if StartsWithBytes(value) then ParseSet(value[6..]) else None
  }

  function Pieces(file: string, rs: seq<RangeSpec>): seq<string> {
    if rs == [] then [] else [Slice(file, rs[0])] + Pieces(file, rs[1..])
  }

  /** A value that is not understood gets 416; an empty file is answered before its ranges are looked at. */
  function CodeAnswer(file: string, asked: Option<seq<RangeSpec>>): Answer
    requires |file| < WORD_SIZE
  {
    if asked == None then Unsatisfiable
    else if file == "" || asked.value == [] then Whole(file)
    else if FixList(asked.value, |file|) == [] then Unsatisfiable
    else Partial(Pieces(file, FixList(asked.value, |file|)))
  }

  // ----- one range

  function Min(a: nat, b: nat): nat {
    if a <= b then a else b
  }

  /** The chosen bytes are those of an interval that covers the same positions. */
  lemma {:induction false} ChosenIsInterval(file: string, r: ByteRange, a: nat, b: nat, n: nat)
    requires n <= |file| && a <= b <= |file|
    requires forall pos: nat :: pos < |file| ==> (Denotes(r, |file|, pos) <==> a <= pos < b)
    ensures Chosen(file, r, n) == file[Min(a, n)..Min(b, n)]
  {
    if n > 0 {
      ChosenIsInterval(file, r, a, b, n - 1);
      assert Denotes(r, |file|, n - 1) ==> file[a..n] == file[a..n - 1] + [file[n - 1]];
    }
  }

  lemma AllDenoted(r: ByteRange, filesize: nat)
    requires TooLong(r, filesize)
    ensures forall pos: nat :: pos < filesize ==> Denotes(r, filesize, pos)
  {
  }

  /** The part that the fixed range gives, if it is still there. */
  function Sent(file: string, f: Option<RangeSpec>): seq<string> {
    if f.Some? then [Slice(file, f.value)] else []
  }

  /** A valid range gives the part that is due, or, when it is too long, one byte less than is due. */
  lemma OneServed(file: string, r: ByteRange)
    requires BelowMarker(r) && !Inverted(r) && 0 < |file| < LONG_MIN
    ensures var sent := Sent(file, Fix(Denoted(r), |file|));
            var due := if Satisfiable(r, |file|) then [Chosen(file, r, |file|)] else [];
            if TooLong(r, |file|) then |Concat(due)| == |Concat(sent)| + 1 else sent == due
  {
    hide Chosen, Fix, Denotes, Concat;
    FixMeaning(r, |file|);
    var f := Fix(Denoted(r), |file|);
    ConcatOne(Chosen(file, r, |file|));
    if TooLong(r, |file|) {
      AllDenoted(r, |file|);
      ChosenIsInterval(file, r, 0, |file|, |file|);
      ConcatOne(Part(file, 1, |file|));
    } else if f.Some? {
      assert forall pos: nat :: Covers(f, pos) <==> f.value.start <= pos < f.value.stop + 1;
      ChosenIsInterval(file, r, f.value.start, f.value.stop + 1, |file|);
      FirstPosition(r, |file|, f.value.start);
    } else {
      NoPosition(r, |file|);
    }
  }

  lemma ConcatOne(part: string)
    ensures Concat([part]) == part && Concat([]) == ""
  {
    assert Concat([part][1..]) == "";
  }

  lemma FirstPosition(r: ByteRange, filesize: nat, pos: nat)
    requires Denotes(r, filesize, pos)
    ensures Satisfiable(r, filesize)
  {
  }

  /** A satisfiable range denotes some position. */
  lemma NoPosition(r: ByteRange, filesize: nat)
    requires !Inverted(r) && filesize > 0 && forall pos: nat :: !Denotes(r, filesize, pos)
    ensures !Satisfiable(r, filesize)
  {
    if r.LastBytes? {
      assert !Denotes(r, filesize, filesize - 1);
    } else {
      assert !Denotes(r, filesize, r.first);
    }
  }

  // ----- lists of ranges

  function LongOnes(rs: seq<ByteRange>, filesize: nat): nat {
    if rs == [] then 0 else (if TooLong(rs[0], filesize) then 1 else 0) + LongOnes(rs[1..], filesize)
  }

  lemma {:induction false} NoLongOnes(rs: seq<ByteRange>, filesize: nat)
    ensures LongOnes(rs, filesize) == 0 <==> forall i :: 0 <= i < |rs| ==> !TooLong(rs[i], filesize)
  {
    if rs != [] {
      NoLongOnes(rs[1..], filesize);
      assert forall i :: 0 < i < |rs| ==> rs[i] == rs[1..][i - 1];
    }
  }

  lemma PartsStep(file: string, r: RangeSpec, rs: seq<RangeSpec>)
    requires 0 < |file| < WORD_SIZE
    ensures Pieces(file, FixList([r] + rs, |file|)) == Sent(file, Fix(r, |file|)) + Pieces(file, FixList(rs, |file|))
  {
    hide Fix, Slice;
    var f, rest := Fix(r, |file|), FixList(rs, |file|);
    assert ([r] + rs)[1..] == rs;
    if f.Some? {
      assert ([f.value] + rest)[0] == f.value && ([f.value] + rest)[1..] == rest;
    } else {
      assert [] + rest == rest;
    }
  }

  /** Every range that is too long costs one byte; without one, the parts that are sent are the parts that are due. */
  lemma {:induction false} AllServed(file: string, rs: seq<ByteRange>)
    requires AllBelowMarker(rs) && !SomeInverted(rs) && 0 < |file| < LONG_MIN
    ensures var sent := Pieces(file, FixList(DenotedList(rs), |file|));
      && |Concat(DueParts(file, rs))| == |Concat(sent)| + LongOnes(rs, |file|)
      && (LongOnes(rs, |file|) == 0 ==> sent == DueParts(file, rs))
  {
    hide Slice, Fix, BelowMarker, Chosen, Concat, Sent, Satisfiable, TooLong, Inverted;
    if rs != [] {
      TailToo(rs);
      AllServed(file, rs[1..]);
      OneServed(file, rs[0]);
      PartsStep(file, Denoted(rs[0]), DenotedList(rs[1..]));
      ConcatAppend(Sent(file, Fix(Denoted(rs[0]), |file|)), Pieces(file, FixList(DenotedList(rs[1..]), |file|)));
      ConcatAppend(if Satisfiable(rs[0], |file|) then [Chosen(file, rs[0], |file|)] else [], DueParts(file, rs[1..]));
    }
  }

  lemma TailToo(rs: seq<ByteRange>)
    requires rs != [] && AllBelowMarker(rs) && !SomeInverted(rs)
    ensures AllBelowMarker(rs[1..]) && !SomeInverted(rs[1..]) && BelowMarker(rs[0]) && !Inverted(rs[0])
  {
    hide BelowMarker, Inverted;
    assert forall i :: 0 <= i < |rs[1..]| ==> rs[1..][i] == rs[i + 1];
  }

  /** When the answer is right: with a file that is not empty, no range is inverted, and none is too long. */
  predicate Right(rs: seq<ByteRange>, filesize: nat) {
    || rs == []
    || if filesize == 0 then SomeInverted(rs)
       else !SomeInverted(rs) && forall i :: 0 <= i < |rs| ==> !TooLong(rs[i], filesize)
  }

  /** Two answers are the same when they have the same status, and the same bytes in all. */
  predicate SameInAll(a: Answer, b: Answer) {
    Body(a) == Body(b) && a.Partial? == b.Partial? && a.Whole? == b.Whole?
  }

  /** The answer to a list of ranges is the answer of the RFC exactly when Right holds of it. */
  lemma ListServed(file: string, rs: seq<ByteRange>)
    requires AllBelowMarker(rs) && |file| < LONG_MIN
    ensures CodeAnswer(file, Some(DenotedList(rs))) == RfcAnswer(file, rs) <==> Right(rs, |file|)
    ensures SameInAll(CodeAnswer(file, Some(DenotedList(rs))), RfcAnswer(file, rs)) <==> Right(rs, |file|)
  {
    hide DueParts, Pieces, FixList, Concat, ParseSet, PrintList, BelowMarker, TooLong, Inverted;
    PrintedIsUnderstood(rs);
    NoLongOnes(rs, |file|);
    if rs != [] && file != "" && !SomeInverted(rs) {
      AllServed(file, rs);
      NoPiece(file, FixList(DenotedList(rs), |file|));
      ConcatNone();
    }
  }

  /** The same for the header that prints the list. */
  lemma RangesServed(file: string, rs: seq<ByteRange>)
    requires AllBelowMarker(rs) && |file| < LONG_MIN
    ensures CodeAnswer(file, Understood("bytes=" + PrintList(rs))) == RfcAnswer(file, rs) <==> Right(rs, |file|)
  {
    hide CodeAnswer, RfcAnswer, Right, PrintList, AllBelowMarker;
    PrintedIsUnderstood(rs);
    AllBelow(rs);
    ListServed(file, rs);
  }

  // ----- header values

  /** What the RFC has a server answer to a header value; a value that is no byte-ranges-specifier is ignored. */
  function DueAnswer(file: string, value: string, lws: bool): Answer {
    var ranges := RfcSet(value, lws);
    if ranges == None then Whole(file) else RfcAnswer(file, ranges.value)
  }

  predicate NoneSatisfiable(rs: seq<ByteRange>, filesize: nat) {
    !SomeInverted(rs) && forall i :: 0 <= i < |rs| ==> !Satisfiable(rs[i], filesize)
  }

  /**
    When the answer to a header value is the one that is due. A value that the RFC defines must have its '=' right
    behind "bytes", or have nothing that can be satisfied. Any other value must be understood, and as no ranges.
    */
  predicate AsDue(value: string, filesize: nat, lws: bool) {
    var ranges, understood := RfcSet(value, lws), Understood(value);
    if ranges == None then understood.Some? && (filesize == 0 || understood.value == [])
    else if StartsWithBytes(value) then Right(ranges.value, filesize)
    else NoneSatisfiable(ranges.value, filesize)
  }

  predicate NumbersBelowMarker(value: string, lws: bool) {
    RfcSet(value, lws).Some? ==> AllBelowMarker(RfcSet(value, lws).value)
  }

  /** The answer to a header value is the one that is due exactly when AsDue holds of the value. */
  lemma AnsweredAsDue(file: string, value: string, lws: bool)
    requires |file| < LONG_MIN && NumbersBelowMarker(value, lws)
    ensures CodeAnswer(file, Understood(value)) == DueAnswer(file, value, lws) <==> AsDue(value, |file|, lws)
    ensures SameInAll(CodeAnswer(file, Understood(value)), DueAnswer(file, value, lws)) <==> AsDue(value, |file|, lws)
  {
    hide RfcSet, Right, StartsWithBytes, ParseSet, FixList, Pieces, DueParts, Satisfiable, Inverted, Concat;
    hide AllBelowMarker;
    var ranges := RfcSet(value, lws);
    if ranges.Some? {
      RfcIsParsed(value, lws);
      if StartsWithBytes(value) {
        AllBelow(ranges.value);
        ListServed(file, ranges.value);
      } else {
        NoPartDue(file, ranges.value);
      }
    }
  }

  /** A value that the RFC defines has ranges; with its '=' right behind "bytes", it is understood as they denote. */
  lemma RfcIsParsed(value: string, lws: bool)
    requires RfcSet(value, lws).Some?
    ensures var rs := RfcSet(value, lws).value;
      && rs != []
      && (StartsWithBytes(value) ==> Understood(value) == if AllReadable(rs) then Some(DenotedList(rs)) else None)
  {
    hide ParseSet, Elements;
    if StartsWithBytes(value) {
      assert value[5..][0] == '=' && value[5..][1..] == value[6..];
      ElementsAreParsed(value[6..], lws);
    }
  }

  lemma {:induction false} NoPartDue(file: string, rs: seq<ByteRange>)
    ensures DueParts(file, rs) == [] <==> forall i :: 0 <= i < |rs| ==> !Satisfiable(rs[i], |file|)
  {
    hide Satisfiable, Chosen;
    if rs != [] {
      NoPartDue(file, rs[1..]);
      assert forall i :: 0 < i < |rs| ==> rs[i] == rs[1..][i - 1];
    }
  }

  lemma ConcatNone()
    ensures Concat([]) == ""
  {
  }

  lemma NoPiece(file: string, rs: seq<RangeSpec>)
    ensures Pieces(file, rs) == [] <==> rs == []
  {
  }

  lemma PrintedIsUnderstood(rs: seq<ByteRange>)
    ensures Understood("bytes=" + PrintList(rs)) == if AllReadable(rs) then Some(DenotedList(rs)) else None
    ensures DenotedList(rs) == [] <==> rs == []
  {
    hide PrintList, ParseSet;
    ParsePrintedList(rs);
    assert ("bytes=" + PrintList(rs))[6..] == PrintList(rs);
  }

  // ----- where the answers differ

  /** An inverted range is dropped, and the others are served; by the RFC the whole file was to be sent. */
  lemma InvertedIsDropped()
    ensures var rs, file := [Closed(5, 2), Closed(0, 1)], "0123456789";
      && "bytes=" + PrintList(rs) == "bytes=5-2,0-1"
      && CodeAnswer(file, Understood("bytes=" + PrintList(rs))) == Partial(["01"])
      && RfcAnswer(file, rs) == Whole(file)
  {
    hide PrintList, Print, Slice, Fix;
    var rs, file := [Closed(5, 2), Closed(0, 1)], "0123456789";
    PrintedExample();
    FixExample();
    assert Inverted(rs[0]);
    FirstDropped(file, rs[0], rs[1]);
  }

  lemma PrintedExample()
    ensures PrintList([Closed(5, 2), Closed(0, 1)]) == "5-2,0-1"
  {
    PrintTwo(Closed(5, 2), Closed(0, 1));
  }

  lemma FixExample()
    ensures Fix(Denoted(Closed(5, 2)), 10) == None
    ensures Fix(Denoted(Closed(0, 1)), 10) == Some(RangeSpec(0, 1)) && Slice("0123456789", RangeSpec(0, 1)) == "01"
  {
  }

  lemma FirstDropped(file: string, r: ByteRange, s: ByteRange)
    requires 0 < |file| < LONG_MIN && Readable(r) && Readable(s)
    requires Fix(Denoted(r), |file|) == None && Fix(Denoted(s), |file|).Some?
    ensures CodeAnswer(file, Understood("bytes=" + PrintList([r, s]))) ==
              Partial([Slice(file, Fix(Denoted(s), |file|).value)])
  {
    hide PrintList, Readable, Fix, FixList, Slice, DenotedList;
    var f := Fix(Denoted(s), |file|).value;
    FixTwo(r, s, |file|);
    assert [] + [f] == [f];
    assert AllReadable([r, s]);
    PrintedIsUnderstood([r, s]);
    OnePart(file, f);
  }

  lemma OnePart(file: string, r: RangeSpec)
    ensures Pieces(file, [r]) == [Slice(file, r)]
  {
    assert Pieces(file, [r][1..]) == [];
  }

  lemma PrintTwo(r: ByteRange, s: ByteRange)
    ensures PrintList([r, s]) == Print(r) + ("," + Print(s))
  {
    hide Print;
    assert [r, s][1..] == [s];
    assert [s][1..] == [];
    assert Print(s) + "" == Print(s);
    assert "," + Print(s) == PrintMore([s]);
  }

  lemma FixTwo(r: ByteRange, s: ByteRange, filesize: word)
    requires filesize > 0
    ensures FixList(DenotedList([r, s]), filesize) ==
              (if Fix(Denoted(r), filesize).Some? then [Fix(Denoted(r), filesize).value] else []) +
              (if Fix(Denoted(s), filesize).Some? then [Fix(Denoted(s), filesize).value] else [])
  {
    hide Fix;
    assert [r, s][1..] == [s];
    OneDenoted(s);
    FixListAppend([Denoted(r)], [Denoted(s)], filesize);
  }

  /** A number of 2^32 is taken for 0: the whole file is sent as a part, where there is nothing to send. */
  lemma WrappedIsServed(file: string)
    requires 0 < |file| < LONG_MIN
    ensures var rs := [From(WORD_SIZE)];
      && CodeAnswer(file, Understood("bytes=" + PrintList(rs))) == Partial([file])
      && RfcAnswer(file, rs) == Unsatisfiable
  {
    hide PrintList, Denotes;
    var rs := [From(WORD_SIZE)];
    PrintedIsUnderstood(rs);
    OneDenoted(rs[0]);
    WholeIsFixed(|file|);
    OnePart(file, RangeSpec(0, |file| - 1));
    assert Slice(file, RangeSpec(0, |file| - 1)) == file;
    assert DueParts(file, rs[1..]) == [];
  }

  /** Two ranges without a comma are both served; by the RFC they are no list, and the whole file was to be sent. */
  lemma NoCommaIsServed(lws: bool)
    ensures var value, file := "bytes=0-1 3-4", "0123456789";
      && CodeAnswer(file, Understood(value)) == Partial(["01", "34"])
      && DueAnswer(file, value, lws) == Whole(file)
  {
    hide Print, ParseSet, RfcSet, Fix, Slice, FixList;
    var r, s, file := Closed(0, 1), Closed(3, 4), "0123456789";
    NoComma(0, 1, 3, 4, lws);
    TwoPrinted();
    assert "0-1 3-4" == "0-1" + (" " + "3-4") && "bytes=0-1 3-4" == "bytes=" + "0-1 3-4";
    assert "bytes=0-1 3-4"[6..] == "0-1 3-4";
    FixTwo(r, s, |file|);
    TwoFixed();
    TwoDenoted(r, s);
    TwoPieces(file, RangeSpec(0, 1), RangeSpec(3, 4));
  }

  lemma TwoPrinted()
    ensures Print(Closed(0, 1)) == "0-1" && Print(Closed(3, 4)) == "3-4"
    ensures Readable(Closed(0, 1)) && Readable(Closed(3, 4))
  {
  }

  lemma TwoFixed()
    ensures Fix(Denoted(Closed(0, 1)), 10) == Some(RangeSpec(0, 1)) && Slice("0123456789", RangeSpec(0, 1)) == "01"
    ensures Fix(Denoted(Closed(3, 4)), 10) == Some(RangeSpec(3, 4)) && Slice("0123456789", RangeSpec(3, 4)) == "34"
  {
  }

  lemma TwoDenoted(r: ByteRange, s: ByteRange)
    ensures DenotedList([r, s]) == [Denoted(r), Denoted(s)]
  {
    assert [r, s][1..] == [s];
    OneDenoted(s);
  }

  lemma TwoPieces(file: string, r: RangeSpec, s: RangeSpec)
    ensures Pieces(file, [r, s]) == [Slice(file, r), Slice(file, s)]
  {
    assert [r, s][1..] == [s];
    OnePart(file, s);
  }

  /** A hyphen alone gets 416; by the RFC it was to be ignored. */
  lemma LoneHyphenIsRefused(file: string, lws: bool)
    requires |file| < LONG_MIN
    ensures CodeAnswer(file, Understood("bytes=-")) == Unsatisfiable && DueAnswer(file, "bytes=-", lws) == Whole(file)
  {
    hide ParseSet, RfcSet;
    LoneHyphen(lws);
    assert "bytes=-"[6..] == "-";
  }

  /** A blank in front of the '=' gets 416; by the RFC the ranges were to be served. */
  lemma BlankIsRefused(file: string, rs: seq<ByteRange>, lws: bool)
    requires |file| < LONG_MIN && rs != []
    ensures var value := "bytes =" + PrintList(rs);
      CodeAnswer(file, Understood(value)) == Unsatisfiable && DueAnswer(file, value, lws) == RfcAnswer(file, rs)
  {
    hide ParseSet, RfcSet, PrintList;
    BlankBeforeEquals(rs, lws);
  }

  // ----- the run of a request

  /** What is delivered of a plan is what the answer holds. */
  lemma PlanIsBody(file: string, asked: seq<RangeSpec>)
    requires 0 < |file| < LONG_MIN
    ensures Slices(file, FixList(Requested(asked), |file|)) == Body(CodeAnswer(file, Some(asked)))
    ensures FixList(Requested(asked), |file|) == [] <==> CodeAnswer(file, Some(asked)) == Unsatisfiable
  {
    hide FixList, Slices, Pieces, Concat;
    if asked == [] {
      WholeIsFixed(|file|);
      WholeSlice(file);
    } else {
      PartsAreSlices(file, FixList(asked, |file|));
      NoPiece(file, FixList(asked, |file|));
      ConcatNone();
    }
  }

  lemma WholeSlice(file: string)
    requires 0 < |file| < WORD_SIZE
    ensures Slices(file, [RangeSpec(0, |file| - 1)]) == file
  {
    var r := RangeSpec(0, |file| - 1);
    assert Slices(file, [r][1..]) == "";
    assert Slice(file, r) == file && file + "" == file;
  }

  lemma WholeIsFixed(filesize: word)
    requires 0 < filesize < LONG_MIN
    ensures FixList([RangeSpec(0, NONE)], filesize) == [RangeSpec(0, filesize - 1)]
  {
    assert FixList([RangeSpec(0, NONE)][1..], filesize) == [];
  }

  lemma {:induction false} PartsAreSlices(file: string, rs: seq<RangeSpec>)
    ensures Concat(Pieces(file, rs)) == Slices(file, rs)
  {
    if rs != [] {
      PartsAreSlices(file, rs[1..]);
      assert Pieces(file, rs)[1..] == Pieces(file, rs[1..]);
    }
  }

  lemma OneHasNoNul(r: ByteRange)
    ensures NoNul(Print(r))
  {
    hide Dec;
  }

  lemma {:induction false} PrintedHasNoNul(rs: seq<ByteRange>)
    ensures NoNul(PrintMore(rs)) && NoNul(PrintList(rs)) && NoNul("bytes=" + PrintList(rs))
  {
    hide Dec, Print;
    if rs != [] {
      PrintedHasNoNul(rs[1..]);
      assert NoNul(Print(rs[0])) by { OneHasNoNul(rs[0]); }
    }
  }

  lemma AnswerOf(file: string, asked: Option<seq<RangeSpec>>)
    requires |file| < LONG_MIN
    ensures asked == None ==> CodeAnswer(file, asked) == Unsatisfiable
    ensures asked.Some? ==> (CodeAnswer(file, asked).Whole? <==> file == "" || asked.value == [])
    ensures file == "" && asked.Some? ==> CodeAnswer(file, asked) == Whole("")
    ensures Body(Unsatisfiable) == "" && Body(Whole("")) == ""
  {
  }

  /** range_parse on a request that has no ranges yet. */
  method ReadRanges(store: RangeStore, value: string) returns (ok: bool)
    requires NoNul(value) && store.Valid() && store.list == []
    modifies store, store.free
    ensures store.Valid() && (ok <==> Understood(value).Some?)
    ensures ok ==> Specs(store.list) == Understood(value).value && |store.list| <= store.numranges
    ensures forall i :: 0 <= i < |store.list| ==> store.list[i] in old(store.free) || fresh(store.list[i])
    ensures forall i :: 0 <= i < |store.free| ==> store.free[i] in old(store.free) || fresh(store.free[i])
  {
    hide Specs, Chain, NodeSet, ParseSet;
    KnownNodes(store.free, store.list);
    ok := store.RangeParse(value);
    KnownNodes(store.free, store.list);
    assert forall i :: 0 <= i < |store.free| ==> store.free[i] in store.Nodes();
    assert forall i :: 0 <= i < |store.list| ==> store.list[i] in store.Nodes();
  }

  /** The bytes and headers behind the opening of a response. */
  ghost function ScriptOf(t: Transfer, rs: seq<RangeSpec>): string
    reads t`partial, t.store`numranges
  {
    Script(t.file, t.partial && t.store.numranges > 1, t.contentType, rs)
  }

  /** The opening of a response. */
  ghost function OpeningOf(t: Transfer, header: seq<string>, rs: seq<RangeSpec>): string
    requires rs != []
    reads t`partial, t.store`numranges
  {
    Concat(Opening(header, t.partial, t.store.numranges > 1, t.contentType, rs[0], |t.file|))
  }

  /** Every header finds room: the opening behind `end`, and those of further ranges where they are written. */
  ghost predicate Roomy(t: Transfer, rs: seq<RangeSpec>, direct: bool, end: int)
    reads t`mapped, t.store`numranges
  {
    HeadersFit(t, rs, Room(direct)) && (t.mapped ==> t.CopyFits(rs, end))
  }

  /** How the connection stood when the response began. */
  datatype Before = Before(made: string, end: nat, ordered: bool, crossed: nat)

  /**
    What has become of the response, once its opening fits into the buffer. While the request is alive, exactly the
    response has been written or is owed, and the socket gets it in order if and only if no direct write has overtaken
    bytes in the buffer. When everything goes well, the request gets done if the headers find room, and for direct
    writes only if; and then the socket has got all of the response, but for a closing separator that found no room.
    */
  ghost predicate Replied(t: Transfer, header: seq<string>, rs: seq<RangeSpec>, direct: bool, well: bool, b: Before)
    requires rs != []
    reads t, t.store, t.store.list, t.out
  {
    var end := b.end + |OpeningOf(t, header, rs)|;
    end <= BUFFER_SIZE ==>
      && (!Over(t.out.status) ==>
            && t.Whole() == b.made + OpeningOf(t, header, rs) + ScriptOf(t, rs)
            && (InOrder(t.out.stream) <==> b.ordered && t.out.crossed == b.crossed))
      && (well ==>
            && (Roomy(t, rs, direct, end) ==> t.out.status == DONE)
            && (direct && t.out.status == DONE ==> Roomy(t, rs, direct, end))
            && (t.out.status == DONE && b.ordered ==>
                  && Genuine(t.out.stream)
                  && Wire(t.out.stream) + (if t.mapped && t.CopyCloses(rs, end) then CLOSING_SEPARATOR else "") ==
                       b.made + OpeningOf(t, header, rs) + ScriptOf(t, rs)))
  }

  // ----- what the client reads

  /** The text behind the header of the response reads as the answer, and each part says truly which bytes it has. */
  ghost predicate ClientGets(t: Transfer, text: string, answer: Answer)
    reads t`partial, t.store`numranges
  {
    match answer
    case Whole(body) => !t.partial && text == body
    case Partial(parts) =>
      var got := ReadPartial(t.store.numranges > 1, Concat(t.contentType), text);
      t.partial && got.Some? && BytesOf(got.value) == parts && AllTruthful(t.file, got.value)
    case Unsatisfiable => false
  }

  ghost predicate AllTruthful(file: string, parts: seq<SentPart>) {
    forall i :: 0 <= i < |parts| ==> Truthful(file, parts[i])
  }

  /** The response as it is laid out: its header, and a text that reads as the answer. */
  ghost predicate Reads(t: Transfer, header: seq<string>, rs: seq<RangeSpec>, answer: Answer)
    requires rs != []
    reads t`partial, t.store`numranges
  {
    var whole := OpeningOf(t, header, rs) + ScriptOf(t, rs);
    Concat(header) <= whole && ClientGets(t, whole[|Concat(header)|..], answer)
  }

  /** The socket has got the header, and a text that reads as the answer; a closing separator may be missing. */
  ghost predicate SocketHas(t: Transfer, header: seq<string>, rs: seq<RangeSpec>, answer: Answer, b: Before)
    requires rs != []
    reads t`partial, t`mapped, t.store`numranges, t.out`stream
  {
    Genuine(t.out.stream) &&
    var lost := t.mapped && t.CopyCloses(rs, b.end + |OpeningOf(t, header, rs)|);
    var sent := Wire(t.out.stream) + if lost then CLOSING_SEPARATOR else "";
    var front := b.made + Concat(header);
    front <= sent && ClientGets(t, sent[|front|..], answer)
  }

  lemma {:induction false} BytesAreSlices(file: string, rs: seq<RangeSpec>)
    ensures BytesOf(SentParts(file, rs)) == Pieces(file, rs)
  {
    hide Slice;
    if rs != [] {
      BytesAreSlices(file, rs[1..]);
      assert SentParts(file, rs)[1..] == SentParts(file, rs[1..]);
    }
  }

  lemma OpeningSplits(t: Transfer, header: seq<string>, rs: seq<RangeSpec>)
    requires rs != []
    ensures OpeningOf(t, header, rs) ==
      Concat(header) +
      if t.partial then Concat(PartHeader(t.store.numranges > 1, t.contentType, rs[0], |t.file|)) else ""
  {
    hide Concat, PartHeader;
    var more := if t.partial then PartHeader(t.store.numranges > 1, t.contentType, rs[0], |t.file|) else [];
    ConcatAppend(header, more);
    ConcatNone();
  }

  lemma Behind(a: string, b: string, c: string)
    ensures a <= a + b + c && (a + b + c)[|a|..] == b + c
  {
  }

  lemma WholeIsRead(t: Transfer, rs: seq<RangeSpec>)
    requires 0 < |t.file| < LONG_MIN && !t.partial && rs == [RangeSpec(0, |t.file| - 1)]
    ensures ClientGets(t, "" + ScriptOf(t, rs), Whole(t.file))
  {
    assert rs[1..] == [];
    assert Further(t.file, false, t.contentType, []) == "";
    assert Slice(t.file, rs[0]) == t.file && t.file + "" == t.file && "" + t.file == t.file;
  }

  /** The response to what was asked for reads as the answer to it. */
  lemma ResponseIsRead(t: Transfer, header: seq<string>, asked: seq<RangeSpec>, rs: seq<RangeSpec>)
    requires 0 < |t.file| < LONG_MIN && rs == FixList(Requested(asked), |t.file|) != []
    requires (t.partial <==> asked != []) && |asked| <= t.store.numranges
    ensures Reads(t, header, rs, CodeAnswer(t.file, Some(asked)))
  {
    hide FixList, Pieces, Concat, PartHeader, Opening, Script, ReadPartial, ScriptOf, OpeningOf;
    OpeningSplits(t, header, rs);
    if asked == [] {
      WholeIsFixed(|t.file|);
      Behind(Concat(header), "", ScriptOf(t, rs));
      WholeIsRead(t, rs);
    } else {
      var several := t.store.numranges > 1;
      var opening := Concat(PartHeader(several, t.contentType, rs[0], |t.file|));
      FixListInside(asked, |t.file|);
      Behind(Concat(header), opening, ScriptOf(t, rs));
      PartialIsRead(t.file, several, t.contentType, rs);
      SentPartsAre(t.file, rs);
      BytesAreSlices(t.file, rs);
      ScriptIs(t, rs);
    }
  }

  lemma ScriptIs(t: Transfer, rs: seq<RangeSpec>)
    ensures ScriptOf(t, rs) == Script(t.file, t.partial && t.store.numranges > 1, t.contentType, rs)
  {
  }

  /** When all of a response that reads as the answer has got to the socket. */
  lemma SocketHasAnswer(t: Transfer, header: seq<string>, rs: seq<RangeSpec>, answer: Answer, direct: bool, well: bool,
                        b: Before)
    requires rs != [] && Replied(t, header, rs, direct, well, b) && Reads(t, header, rs, answer)
    ensures well && t.out.status == DONE && b.ordered && b.end + |OpeningOf(t, header, rs)| <= BUFFER_SIZE ==>
              SocketHas(t, header, rs, answer, b)
  {
    hide ClientGets, OpeningOf, ScriptOf, Genuine, Wire, Roomy, Transfer.Whole, InOrder, Concat, Transfer.CopyCloses;
    var opening, script := OpeningOf(t, header, rs), ScriptOf(t, rs);
    BehindFront(b.made, Concat(header), opening + script);
    Assoc(b.made, opening, script);
  }

  lemma BehindFront(made: string, header: string, whole: string)
    requires header <= whole
    ensures made + header <= made + whole && (made + whole)[|made + header|..] == whole[|header|..]
  {
  }

  /** How the response stands after init_get. */
  datatype Middle = Middle(whole: string, ordered: bool, left: seq<RangeSpec>, alive: bool, lost: bool)

  ghost predicate BegunAs(t: Transfer, header: seq<string>, rs: seq<RangeSpec>, w': IoResult, b: Before, m: Middle)
    requires rs != []
    reads t`partial, t`mapped, t.store`numranges
  {
    var end := b.end + |OpeningOf(t, header, rs)|;
    && (m.alive ==> m.whole == b.made + OpeningOf(t, header, rs) + ScriptOf(t, rs) && (m.ordered <==> b.ordered))
    && (w' != Failed && (t.mapped ==> t.CopyFits(rs, end)) ==> m.alive)
    && (t.mapped && !t.CopyFits(rs, end) ==> !m.alive)
    && Onward(m.left, rs)
    && (m.alive && |m.left| < |rs| ==> |t.NextHeader(rs)| <= BUFFER_SIZE)
    && (m.lost <==> t.mapped && t.CopyCloses(rs, end))
  }

  lemma BegunMeans(t: Transfer, header: seq<string>, rs: seq<RangeSpec>, w': IoResult, b: Before, m: Middle)
    requires rs != [] && t.Begun(b.made, OpeningOf(t, header, rs), rs, w', b.end, b.ordered)
    requires m == Middle(t.Whole(), InOrder(t.out.stream), Specs(t.store.list), !Over(t.out.status), t.lost)
    ensures BegunAs(t, header, rs, w', b, m)
  {
    hide Transfer.NextHeader, Transfer.CopyFits, Transfer.CopyCloses, Specs, Opening, Concat, Shrinks;
  }

  lemma RepliedFrom(t: Transfer, header: seq<string>, rs: seq<RangeSpec>, direct: bool, well: bool, w': IoResult,
                    b: Before, m: Middle, gone: bool)
    requires rs != [] && (well ==> w' != Failed)
    requires b.end + |OpeningOf(t, header, rs)| <= BUFFER_SIZE ==> BegunAs(t, header, rs, w', b, m)
    requires !m.alive ==> Over(t.out.status)
    requires !Over(t.out.status) ==>
               t.Whole() == m.whole && (InOrder(t.out.stream) <==> m.ordered && t.out.crossed == b.crossed)
    requires well && m.alive ==> Finished(t, gone, direct, m.left, m.lost, m.whole, m.ordered)
    requires t.mapped ==> direct
    ensures Replied(t, header, rs, direct, well, b)
  {
    hide Transfer.NextHeader, Transfer.CopyFits, Transfer.CopyCloses, HeadersFit, Onward, OpeningOf, ScriptOf, Genuine;
    hide Transfer.Whole, InOrder;
    if b.end + |OpeningOf(t, header, rs)| <= BUFFER_SIZE {
      HeadersOn(t, m.left, rs, Room(direct));
    }
  }

  /** The same, when no range is left. */
  lemma FinishedAnyway(t: Transfer, gone: bool, d: bool, direct: bool, lost: bool, whole: string, ordered: bool)
    requires Finished(t, gone, d, [], lost, whole, ordered)
    ensures Finished(t, gone, direct, [], lost, whole, ordered)
  {
    hide Genuine;
  }

  lemma WritingRuns(t: Transfer)
    ensures t.out.status == WRITE ==> t.Running() && !Over(t.out.status)
    ensures t.Running() ==> t.out.status == WRITE || t.out.status == IOSHUFFLE
    ensures t.out.status == WRITE ==> t.PastBuffer(true) && t.PastBuffer(false)
  {
  }

  lemma DirectIs(t: Transfer, haveSendfile: bool)
    requires t.Running() && (t.mapped <==> t.out.status == WRITE)
    ensures t.PastBuffer(haveSendfile) <==> t.mapped || haveSendfile
  {
  }

  lemma OpeningIs(t: Transfer, header: seq<string>, rs: seq<RangeSpec>)
    requires rs != []
    ensures OpeningOf(t, header, rs) ==
              Concat(Opening(header, t.partial, t.store.numranges > 1, t.contentType, rs[0], |t.file|))
  {
  }

  lemma SmallFile(n: nat)
    requires n < LONG_MIN
    ensures n < WORD_SIZE
  {
  }

  lemma LessGood(freed: IoResult, schedule: seq<Step>, n: nat, m: nat)
    ensures AllGood(freed, schedule, n) ==> AllGood(freed, schedule, n - m)
  {
  }

  /** What follows on init_get. */
  method Finish(t: Transfer, r: int, haveSendfile: bool, ghost header: seq<string>, ghost w': IoResult,
                freed: IoResult, schedule: seq<Step>, ghost rs: seq<RangeSpec>, ghost b: Before)
    requires t.Valid() && !t.isHead && t.systemBufsize > 0 && (r == 0 ==> !t.Running()) && rs != []
    requires (t.Running() ==> (t.mapped <==> t.out.status == WRITE)) && t.dataFd == !t.mapped
    requires t.out.crossed == b.crossed
    requires b.end + |OpeningOf(t, header, rs)| <= BUFFER_SIZE ==>
               t.Begun(b.made, OpeningOf(t, header, rs), rs, w', b.end, b.ordered)
    modifies t`bytesWritten, t`delivered, t`dataFd, t`lost
    modifies t.store`pool, t.store`free, t.store`freeBase, t.store`ranges, t.store`list, t.store`listBase
    modifies t.store.list, t.out, t.out.buffer
    ensures t.delivered <= t.plan && (t.out.status == DONE ==> t.delivered == t.plan)
    ensures Replied(t, header, rs, t.mapped || haveSendfile, w' != Failed && AllGood(freed, schedule, |t.plan|), b)
  {
    hide *;
    ghost var m := Middle(t.Whole(), InOrder(t.out.stream), Specs(t.store.list), !Over(t.out.status), t.lost);
    ghost var running, d, direct := t.Running(), t.PastBuffer(haveSendfile), t.mapped || haveSendfile;
    ghost var well := w' != Failed && AllGood(freed, schedule, |t.plan|);
    if running {
      DirectIs(t, haveSendfile);
    }
    StatusIs(t);
    LessGood(freed, schedule, |t.plan|, |t.delivered|);
    if b.end + |OpeningOf(t, header, rs)| <= BUFFER_SIZE {
      BegunMeans(t, header, rs, w', b, m);
    }
    var gone := GoOn(t, r, freed, schedule, haveSendfile);
    if well && m.alive && !running {
      FinishedAnyway(t, gone, d, direct, m.lost, m.whole, m.ordered);
    }
    RepliedFrom(t, header, rs, direct, well, w', b, m, gone);
  }

  /** init_get and what follows, on a request whose ranges have been read; tells whether any range was left. */
  method Serve(t: Transfer, mmapOk: bool, haveSendfile: bool, header: seq<string>, w': IoResult, freed: IoResult,
               schedule: seq<Step>) returns (ok: bool)
    requires 0 < |t.file| < LONG_MIN && !t.isHead && t.systemBufsize > 0 && !t.lost
    requires t.store.Valid() && |t.store.list| <= t.store.numranges && t.out.Consistent() && t.out.status == WRITE
    requires t.delivered == "" && t.bytesWritten == 0
    modifies t, t.store, t.store.free, t.store.list, t.out, t.out.buffer
    ensures t.partial <==> old(t.store.list) != []
    ensures ok ==> (t.mapped <==> |t.file| <= MAX_FILE_MMAP && mmapOk)
    ensures var rs := FixList(Requested(old(Specs(t.store.list))), |t.file|);
      && (ok <==> rs != []) && t.delivered <= Slices(t.file, rs)
      && (t.out.status == DONE ==> ok && t.delivered == Slices(t.file, rs))
      && (ok ==> Replied(t, header, rs, t.mapped || haveSendfile,
                         w' != Failed && AllGood(freed, schedule, |Slices(t.file, rs)|),
                         Before(old(t.out.stream.made), old(t.out.bufferEnd), old(InOrder(t.out.stream)),
                                old(t.out.crossed))))
      && (ok ==> Reads(t, header, rs, CodeAnswer(t.file, Some(old(Specs(t.store.list))))))
  {
    hide *;
    SmallFile(|t.file|);
    ghost var asked := Specs(t.store.list);
    ghost var rs := FixList(Requested(asked), |t.file|);
    ghost var b := Before(t.out.stream.made, t.out.bufferEnd, InOrder(t.out.stream), t.out.crossed);
    var r := t.InitGet(mmapOk, header, w');
    WritingRuns(t);
    if r == 0 && t.out.status == WRITE {
      return false;
    }
    OpeningIs(t, header, rs);
    ok := true;
    Finish(t, r, haveSendfile, header, w', freed, schedule, rs, b);
    ResponseIsRead(t, header, asked, rs);
  }

  /** The ranges that are left of a header value that is understood; without any, the whole file. */
  function RangesLeft(file: string, value: string): seq<RangeSpec>
    requires |file| < WORD_SIZE
  {
    if Understood(value) == None then [] else FixList(Requested(Understood(value).value), |file|)
  }

  /** With one range, no header but the opening has to find room. */
  lemma OneIsRoomy(t: Transfer, rs: seq<RangeSpec>, direct: bool, end: nat)
    requires |rs| == 1 && end <= BUFFER_SIZE
    ensures Roomy(t, rs, direct, end)
  {
  }

  /**
    A request for a file, from the value of its Range header on: range_parse, init_get, and the turns that follow, under
    every schedule of reads and writes. What is delivered is a front of the answer's bytes, and all of them when the
    request is done. For a single part whose opening fits, it gets done when everything goes well.
    */
  method Respond(t: Transfer, value: string, mmapOk: bool, haveSendfile: bool, header: seq<string>, w': IoResult,
                 freed: IoResult, schedule: seq<Step>) returns (ok: bool)
    requires NoNul(value) && |t.file| < LONG_MIN && !t.isHead && t.systemBufsize > 0
    requires t.store.Valid() && t.store.list == [] && t.store.numranges == 0
    requires t.out.Consistent() && t.out.status == WRITE
    requires t.delivered == "" && t.bytesWritten == 0 && !t.partial && !t.lost
    modifies t, t.store, t.store.free, t.out, t.out.buffer
    ensures var answer := CodeAnswer(t.file, Understood(value));
      && (ok <==> answer != Unsatisfiable)
      && t.delivered <= Body(answer)
      && (ok ==> (t.partial <==> answer.Partial?))
      && (ok && t.file != "" && t.out.status == DONE ==> t.delivered == Body(answer))
    ensures ok && t.file != "" ==>
      var rs := RangesLeft(t.file, value);
      var well := w' != Failed && AllGood(freed, schedule, |Body(CodeAnswer(t.file, Understood(value)))|);
      rs != [] &&
      var b := Before(old(t.out.stream.made), old(t.out.bufferEnd), old(InOrder(t.out.stream)), old(t.out.crossed));
      var fits := b.end + |OpeningOf(t, header, rs)| <= BUFFER_SIZE;
      && Reads(t, header, rs, CodeAnswer(t.file, Understood(value)))
      && Replied(t, header, rs, t.mapped || haveSendfile, well, b)
      && (well && |rs| == 1 && fits ==> t.out.status == DONE)
      && (well && fits && b.ordered && t.out.status == DONE ==>
            SocketHas(t, header, rs, CodeAnswer(t.file, Understood(value)), b))
  {
    hide *;
    AnswerOf(t.file, Understood(value));
    ok := ReadRanges(t.store, value);
    if !ok {
      return;
    }
    ghost var asked, end := Specs(t.store.list), t.out.bufferEnd;
    ghost var b := Before(t.out.stream.made, end, InOrder(t.out.stream), t.out.crossed);
    if t.file == "" {
      var _ := t.InitGet(mmapOk, header, w');
      return true;
    }
    SmallFile(|t.file|);
    PlanIsBody(t.file, asked);
    LeftIs(t.file, value);
    ok := Serve(t, mmapOk, haveSendfile, header, w', freed, schedule);
    if ok {
      ghost var rs := RangesLeft(t.file, value);
      ghost var well := w' != Failed && AllGood(freed, schedule, |Slices(t.file, rs)|);
      SocketHasAnswer(t, header, rs, CodeAnswer(t.file, Some(asked)), t.mapped || haveSendfile, well, b);
      if |rs| == 1 {
        OneIsDone(t, header, rs, t.mapped || haveSendfile, well, b);
      }
    }
  }

  lemma LeftIs(file: string, value: string)
    requires |file| < WORD_SIZE && Understood(value).Some?
    ensures RangesLeft(file, value) == FixList(Requested(Understood(value).value), |file|)
  {
  }

  lemma OneIsDone(t: Transfer, header: seq<string>, rs: seq<RangeSpec>, direct: bool, well: bool, b: Before)
    requires |rs| == 1 && Replied(t, header, rs, direct, well, b)
    ensures well && b.end + |OpeningOf(t, header, rs)| <= BUFFER_SIZE ==> t.out.status == DONE
  {
    hide Genuine, Transfer.Whole, InOrder, OpeningOf, ScriptOf;
    if b.end + |OpeningOf(t, header, rs)| <= BUFFER_SIZE {
      OneIsRoomy(t, rs, direct, b.end + |OpeningOf(t, header, rs)|);
    }
  }

  /**
    The same, against the answer that is due: a request that gets done has delivered what the RFC asks for, as a part
    or as the whole, if and only if AsDue holds of the value; and then 416 is the answer exactly where the RFC wants it.
    */
  method RespondAsDue(t: Transfer, value: string, ghost lws: bool, mmapOk: bool, haveSendfile: bool,
                      header: seq<string>, w': IoResult, freed: IoResult, schedule: seq<Step>) returns (ok: bool)
    requires NumbersBelowMarker(value, lws)
    requires NoNul(value) && |t.file| < LONG_MIN && !t.isHead && t.systemBufsize > 0
    requires t.store.Valid() && t.store.list == [] && t.store.numranges == 0
    requires t.out.Consistent() && t.out.status == WRITE
    requires t.delivered == "" && t.bytesWritten == 0 && !t.partial && !t.lost
    modifies t, t.store, t.store.free, t.out, t.out.buffer
    ensures var due := DueAnswer(t.file, value, lws);
      && (ok && t.file != "" && t.out.status == DONE ==>
            (t.delivered == Body(due) && (t.partial <==> due.Partial?) <==> AsDue(value, |t.file|, lws)))
      && (AsDue(value, |t.file|, lws) ==> (ok <==> due != Unsatisfiable))
    ensures ok && t.file != "" && AsDue(value, |t.file|, lws) && |RangesLeft(t.file, value)| == 1 ==>
      var body := Body(DueAnswer(t.file, value, lws));
      w' != Failed && AllGood(freed, schedule, |body|) &&
      old(t.out.bufferEnd) + |OpeningOf(t, header, RangesLeft(t.file, value))| <= BUFFER_SIZE ==>
        t.out.status == DONE && t.delivered == body
    ensures ok && t.file != "" && AsDue(value, |t.file|, lws) && t.out.status == DONE && old(InOrder(t.out.stream)) ==>
      var due, rs := DueAnswer(t.file, value, lws), RangesLeft(t.file, value);
      rs != [] &&
      var b := Before(old(t.out.stream.made), old(t.out.bufferEnd), true, old(t.out.crossed));
      w' != Failed && AllGood(freed, schedule, |Body(due)|) && b.end + |OpeningOf(t, header, rs)| <= BUFFER_SIZE ==>
        SocketHas(t, header, rs, due, b)
  {
    hide *;
    SmallFile(|t.file|);
    AnsweredAsDue(t.file, value, lws);
    NoneIsWhole(t.file, value, lws);
    ok := Respond(t, value, mmapOk, haveSendfile, header, w', freed, schedule);
  }

  /** An answer with the bytes that are due, and a part where one is due, is the answer that is due. */
  lemma NoneIsWhole(file: string, value: string, lws: bool)
    requires |file| < LONG_MIN
    ensures var given, due := CodeAnswer(file, Understood(value)), DueAnswer(file, value, lws);
      && (given == due ==> SameInAll(given, due))
      && (given != Unsatisfiable && file != "" && Body(given) == Body(due) && given.Partial? == due.Partial? ==>
            SameInAll(given, due))
  {
    hide FixList, ParseSet, Pieces, RfcSet, DueParts;
  }
}
