/**
  The syntax of a Range header value (section 14.35.1 of RFC 2616) as src/range.c reads it:
  the transition table of range_parse, and a recursive grammar that it is proved to agree with.
  Numbers are `unsigned long` words of 32 bits.
  */
module RangeSyntax {
  import opened CStrings
  import opened Limits
  import opened Decimal

  /** The marker for "not given": (unsigned) -1. */
  const NONE: word := 0xFFFF_FFFF

  type word = x: int | 0 <= x < WORD_SIZE

  datatype RangeSpec = RangeSpec(start: word, stop: word)

  // ----- the automaton

  datatype Mode = Initial | StartNum | Gap1 | Gap2 | StopNum
  datatype CharCode = Digit | White | Comma | Hyphen | Null | Other

  /** The number part of a table entry: push a digit to, or disable, the beginning or the end. */
  datatype NumberAction = Leave | PB | DB | PE | DE
  /** The range part of a table entry: abort or submit the range. */
  datatype RangeAction = Go | AR | SR
  datatype Entry = Entry(num: NumberAction, act: RangeAction, next: Mode)

  predicate IsWhite(c: char) {
    c == ' ' || c == '\t' || c == '\n' || c == '\r' || c == 11 as char || c == 12 as char
  }

  function CodeOf(c: char): CharCode {
    if IsDigit(c) then Digit
    else if IsWhite(c) then White
    else if c == ',' then Comma
    else if c == '-' then Hyphen
    else if c == '\0' then Null
    else Other
  }

  const ABORT: Entry := Entry(Leave, AR, Initial)

  /** The table `stable`, one row per mode, in the order digit, white, comma, hyphen, null, other. */
  function Table(mode: Mode, code: CharCode): Entry {
    match mode
    case Initial =>
      (match code
       case Digit => Entry(PB, Go, StartNum)
       case White => Entry(Leave, Go, Initial)
       case Comma => Entry(Leave, Go, Initial)
       case Hyphen => Entry(DB, Go, Gap2)
       case Null => Entry(Leave, Go, Initial)
       case Other => ABORT)
    case StartNum =>
      (match code
       case Digit => Entry(PB, Go, StartNum)
       case White => Entry(Leave, Go, Gap1)
       case Hyphen => Entry(Leave, Go, Gap2)
       case _ => ABORT)
    case Gap1 =>
      (match code
       case White => Entry(Leave, Go, Gap1)
       case Hyphen => Entry(Leave, Go, Gap2)
       case _ => ABORT)
    case Gap2 =>
      (match code
       case Digit => Entry(PE, Go, StopNum)
       case White => Entry(Leave, Go, Gap2)
       case Comma => Entry(DE, SR, Initial)
       case Null => Entry(DE, SR, Initial)
       case _ => ABORT)
    case StopNum =>
      (match code
       case Digit => Entry(PE, Go, StopNum)
       case White => Entry(Leave, SR, Initial)
       case Comma => Entry(Leave, SR, Initial)
       case Null => Entry(Leave, SR, Initial)
       case _ => ABORT)
  }

  /** `n * 10 + (c - '0')` in a 32-bit word */
  function PushDigit(n: word, c: char): word {
    (n * 10 + ValueOf(c)) % WORD_SIZE
  }

  function NewStart(a: NumberAction, start: word, c: char): word {
    if a == PB then PushDigit(start, c) else if a == DB then NONE else start
  }

  function NewStop(a: NumberAction, stop: word, c: char): word {
    if a == PE then PushDigit(stop, c) else if a == DE then NONE else stop
  }

  /** The ranges that the automaton submits from a mode on; None when it aborts. */
  function Run(s: string, mode: Mode, start: word, stop: word): Option<seq<RangeSpec>> {
    var c := if s == "" then '\0' else s[0];
    var code := CodeOf(c);
    var e := Table(mode, code);
    var start', stop' := NewStart(e.num, start, c), NewStop(e.num, stop, c);
    if e.act == AR then None
    else if e.act == SR && start' == stop' == NONE then None
    else
      var rest := if s == "" || code == Null then Some([])
                  else if e.act == SR then Run(s[1..], e.next, 0, 0)
                  else Run(s[1..], e.next, start', stop');
      if e.act == SR then Cons(RangeSpec(start', stop'), rest) else rest
  }

  function Cons(r: RangeSpec, rest: Option<seq<RangeSpec>>): Option<seq<RangeSpec>> {
    if rest == None then None else Some([r] + rest.value)
  }

  // ----- the grammar

  /** The text behind the blanks, and behind the digits, at the front of `s`. */
  function SkipBlanks(s: string): (r: string)
    ensures |r| <= |s| && (r != "" ==> !IsWhite(r[0]))
    ensures NoNul(s) ==> NoNul(r)
  {
    if s == "" || !IsWhite(s[0]) then s else SkipBlanks(s[1..])
  }

  function SkipDigits(s: string): (r: string)
    ensures |r| <= |s| && (r != "" ==> !IsDigit(r[0]))
    ensures NoNul(s) ==> NoNul(r)
  {
    if s == "" || !IsDigit(s[0]) then s else SkipDigits(s[1..])
  }

  predicate DigitAhead(s: string) {
    s != "" && IsDigit(s[0])
  }

  /** The number at the front of `s`, as a word, continuing from `n`. */
  function WordAt(s: string, n: word): word {
    if DigitAhead(s) then WordAt(s[1..], PushDigit(n, s[0])) else n
  }

  function OptionalNumber(s: string): Option<word> {
    if DigitAhead(s) then Some(WordAt(s, 0)) else None
  }

  /** One range: its two numbers, where they are given, and the text behind it. */
  datatype SpecParse = NoSpec | Spec(first: Option<word>, last: Option<word>, rest: string)

  /** `[digits blanks] "-" blanks [digits]` */
  function ParseSpec(s: string): (p: SpecParse)
    ensures p.Spec? ==> |p.rest| < |s| && (NoNul(s) ==> NoNul(p.rest))
  {
    var hyphen := if DigitAhead(s) then SkipBlanks(SkipDigits(s)) else s;
    if hyphen == "" || hyphen[0] != '-' then NoSpec
    else
      var end := SkipBlanks(hyphen[1..]);
      Spec(OptionalNumber(s), OptionalNumber(end), SkipDigits(end))
  }

  /** A range must be followed by a comma or the end; after a last number a blank will do, too. */
  predicate Ends(p: SpecParse)
    requires p.Spec?
  {
    p.rest == "" || p.rest[0] == ',' || (p.last.Some? && IsWhite(p.rest[0]))
  }

  function OrNone(n: Option<word>): word {
    if n.Some? then n.value else NONE
  }

  /** Ranges set apart by any number of blanks and commas. */
  function ParseSet(s: string): Option<seq<RangeSpec>>
    decreases |s|
  {
    if s == "" then Some([])
    else if IsWhite(s[0]) || s[0] == ',' then ParseSet(s[1..])
    else
      var p := ParseSpec(s);
      if p == NoSpec || !Ends(p) || OrNone(p.first) == OrNone(p.last) == NONE then None
      else Cons(RangeSpec(OrNone(p.first), OrNone(p.last)), ParseSet(p.rest))
  }

  predicate NoNul(s: string) {
    forall i :: 0 <= i < |s| ==> s[i] != '\0'
  }

  // ----- the automaton accepts the grammar, and submits what it denotes

  lemma {:induction false} RunStop(s: string, start: word, stop: word)
    requires NoNul(s)
    ensures var rest := SkipDigits(s);
      Run(s, StopNum, start, stop) ==
        if !(rest == "" || rest[0] == ',' || IsWhite(rest[0])) || start == WordAt(s, stop) == NONE then None
        else Cons(RangeSpec(start, WordAt(s, stop)), Run(rest, Initial, 0, 0))
    decreases |s|
  {
    if DigitAhead(s) {
      RunStop(s[1..], start, PushDigit(stop, s[0]));
    }
  }

  /** What the automaton does once the beginning is settled and the hyphen has been read. */
  function AfterHyphen(s: string, start: word): Option<seq<RangeSpec>> {
    var end := SkipBlanks(s);
    var rest := SkipDigits(end);
    var last := if DigitAhead(end) then WordAt(end, 0) else NONE;
    if !(rest == "" || rest[0] == ',' || (DigitAhead(end) && IsWhite(rest[0]))) || start == last == NONE then None
    else Cons(RangeSpec(start, last), Run(rest, Initial, 0, 0))
  }

  lemma {:induction false} RunGap2(s: string, start: word)
    requires NoNul(s)
    ensures Run(s, Gap2, start, 0) == AfterHyphen(s, start)
    decreases |s|
  {
    if s != "" && IsWhite(s[0]) {
      RunGap2(s[1..], start);
    } else if DigitAhead(s) {
      RunStop(s[1..], start, PushDigit(0, s[0]));
    }
  }

  /** What the automaton does once the digits of the beginning have been read. */
  function BeforeHyphen(s: string, start: word): Option<seq<RangeSpec>> {
    var hyphen := SkipBlanks(s);
    if hyphen == "" || hyphen[0] != '-' then None else AfterHyphen(hyphen[1..], start)
  }

  lemma {:induction false} RunGap1(s: string, start: word)
    requires NoNul(s)
    ensures Run(s, Gap1, start, 0) == BeforeHyphen(s, start)
    decreases |s|
  {
    hide AfterHyphen;
    if s != "" && IsWhite(s[0]) {
      RunGap1(s[1..], start);
    } else if s != "" && s[0] == '-' {
      RunGap2(s[1..], start);
    }
  }

  lemma {:induction false} RunStart(s: string, start: word)
    requires NoNul(s)
    ensures Run(s, StartNum, start, 0) == BeforeHyphen(SkipDigits(s), WordAt(s, start))
    decreases |s|
  {
    hide AfterHyphen;
    if DigitAhead(s) {
      RunStart(s[1..], PushDigit(start, s[0]));
    } else if s != "" && IsWhite(s[0]) {
      RunGap1(s[1..], start);
    } else if s != "" && s[0] == '-' {
      RunGap2(s[1..], start);
    }
  }

  /** One range read by the grammar and by the automaton. */
  lemma RunSpec(s: string)
    requires NoNul(s) && s != "" && !IsWhite(s[0]) && s[0] != ','
    ensures var p := ParseSpec(s);
      Run(s, Initial, 0, 0) ==
        if p == NoSpec || !Ends(p) || OrNone(p.first) == OrNone(p.last) == NONE then None
        else Cons(RangeSpec(OrNone(p.first), OrNone(p.last)), Run(p.rest, Initial, 0, 0))
  {
    if DigitAhead(s) {
      RunStart(s[1..], PushDigit(0, s[0]));
    } else if s[0] == '-' {
      RunGap2(s[1..], NONE);
    }
  }

  /** range_parse accepts exactly the sentences of the grammar, with exactly the ranges they denote. */
  lemma {:induction false} RunIsGrammar(s: string)
    requires NoNul(s)
    ensures Run(s, Initial, 0, 0) == ParseSet(s)
    decreases |s|
  {
    hide ParseSpec, Ends;
    if s != "" {
      if IsWhite(s[0]) || s[0] == ',' {
        RunIsGrammar(s[1..]);
      } else {
        RunSpec(s);
        if ParseSpec(s).Spec? {
          RunIsGrammar(ParseSpec(s).rest);
        }
      }
    }
  }

  // ----- printing a list of ranges and parsing it back

  /** The three forms of a range: first to last byte, from a byte on, and the last bytes. */
  datatype ByteRange = Closed(first: nat, last: nat) | From(first: nat) | LastBytes(count: nat)

  /** A number as a word, which wraps around. */
  function Word(n: nat): word {
    n % WORD_SIZE
  }

  function Denoted(r: ByteRange): RangeSpec {
    match r
    case Closed(a, b) => RangeSpec(Word(a), Word(b))
    case From(a) => RangeSpec(Word(a), NONE)
    case LastBytes(n) => RangeSpec(NONE, Word(n))
  }

  function Print(r: ByteRange): string {
    match r
    case Closed(a, b) => Dec(a) + ("-" + Dec(b))
    case From(a) => Dec(a) + "-"
    case LastBytes(n) => "-" + Dec(n)
  }

  function PrintList(rs: seq<ByteRange>): string {
    if rs == [] then "" else Print(rs[0]) + PrintMore(rs[1..])
  }

  function PrintMore(rs: seq<ByteRange>): string {
    if rs == [] then "" else "," + (Print(rs[0]) + PrintMore(rs[1..]))
  }

  function DenotedList(rs: seq<ByteRange>): seq<RangeSpec> {
    if rs == [] then [] else [Denoted(rs[0])] + DenotedList(rs[1..])
  }

  /** Not both ends of the denoted range are the marker. */
  predicate Readable(r: ByteRange) {
    Denoted(r) != RangeSpec(NONE, NONE)
  }

  ghost predicate AllReadable(rs: seq<ByteRange>) {
    forall i :: 0 <= i < |rs| ==> Readable(rs[i])
  }

  /** Every number given is below the marker. */
  predicate BelowMarker(r: ByteRange) {
    match r
    case Closed(a, b) => a < NONE && b < NONE
    case From(a) => a < NONE
    case LastBytes(n) => n < NONE
  }

  predicate AllBelowMarker(rs: seq<ByteRange>) {
    forall i :: 0 <= i < |rs| ==> BelowMarker(rs[i])
  }

  /** A number of 2^32 or more is not told apart from a small one. */
  lemma NumberWraps()
    ensures ParseSet(PrintList([From(WORD_SIZE)])) == Some([RangeSpec(0, NONE)])
  {
    hide ParseSet, PrintList;
    OneDenoted(From(WORD_SIZE));
    ParsePrintedList([From(WORD_SIZE)]);
  }

  lemma OneDenoted(r: ByteRange)
    ensures DenotedList([r]) == [Denoted(r)]
  {
    assert DenotedList([r][1..]) == [];
  }

  /** With numbers below the marker, the denoted pair tells the three forms and their numbers apart. */
  lemma {:induction false} DenotedInjective(rs: seq<ByteRange>, ts: seq<ByteRange>)
    requires AllBelowMarker(rs)
    requires AllBelowMarker(ts)
    requires DenotedList(rs) == DenotedList(ts)
    ensures rs == ts
  {
    if rs != [] && ts != [] {
      assert DenotedList(rs)[0] == Denoted(rs[0]) && DenotedList(ts)[0] == Denoted(ts[0]);
      assert DenotedList(rs)[1..] == DenotedList(rs[1..]) && DenotedList(ts)[1..] == DenotedList(ts[1..]);
      DenotedInjective(rs[1..], ts[1..]);
    }
  }

  lemma RemainderIs(x: nat, k: nat, r: nat)
    requires x == k * WORD_SIZE + r && r < WORD_SIZE
    ensures x % WORD_SIZE == r
  {
  }

  /** Adding a digit wraps around as the number itself does. */
  lemma PushWraps(n: nat, d: nat)
    requires d < 10
    ensures (Word(n) * 10 + d) % WORD_SIZE == Word(n * 10 + d)
  {
    var y := Word(n) * 10 + d;
    RemainderIs(n * 10 + d, 10 * (n / WORD_SIZE) + y / WORD_SIZE, y % WORD_SIZE);
  }

  lemma PushLast(n: nat)
    ensures PushDigit(Word(n / 10), DigitOf(n % 10)) == Word(n) && IsDigit(DigitOf(n % 10))
    ensures n < 10 ==> Word(n / 10) == 0
  {
    hide Word;
    PushWraps(n / 10, n % 10);
    if n < 10 {
      ZeroWord();
    }
  }

  lemma ZeroWord()
    ensures Word(0) == 0
  {
  }

  /** Reading the decimal form of a number gives the number, modulo the size of a word. */
  lemma {:induction false} WordAtDec(n: nat, w: string)
    ensures DigitAhead(Dec(n) + w) && WordAt(Dec(n) + w, 0) == WordAt(w, Word(n))
  {
    hide Dec, PushDigit, Word;
    DecStep(n);
    var digit := [DigitOf(n % 10)];
    assert (digit + w)[1..] == w;
    PushLast(n);
    if n < 10 {
      assert Dec(n) + w == digit + w;
    } else {
      WordAtDec(n / 10, digit + w);
      Assoc(Dec(n / 10), digit, w);
    }
  }

  lemma {:induction false} SkipDigitsOver(d: string, w: string)
    requires AllDigits(d) && !DigitAhead(w)
    ensures SkipDigits(d + w) == w
  {
    if d == "" {
      assert d + w == w;
    } else {
      assert (d + w)[1..] == d[1..] + w;
      SkipDigitsOver(d[1..], w);
    }
  }

  /** A number in front of a text that starts with no digit. */
  lemma NumberAhead(n: nat, w: string)
    requires !DigitAhead(w)
    ensures OptionalNumber(Dec(n) + w) == Some(Word(n)) && SkipDigits(Dec(n) + w) == w && SkipDigits(w) == w
    ensures DigitAhead(Dec(n) + w) && OptionalNumber(w) == None
  {
    hide Dec, WordAt, Word;
    WordAtDec(n, w);
    SkipDigitsOver(Dec(n), w);
    WordAtNone(w, Word(n));
  }

  /** A printed range, followed by a comma or by nothing, is read back; a closed one in front of anything but digits. */
  lemma ParsePrinted(r: ByteRange, w: string)
    requires w == "" || w[0] == ',' || (r.Closed? && !DigitAhead(w))
    ensures var p := ParseSpec(Print(r) + w);
            p.Spec? && p.rest == w && RangeSpec(OrNone(p.first), OrNone(p.last)) == Denoted(r)
            && (r.Closed? ==> p.last.Some?)
    ensures var s := Print(r) + w; s != "" && !IsWhite(s[0]) && s[0] != ','
  {
    hide Dec, WordAt, SkipDigits, Word, OptionalNumber;
    match r
    case Closed(a, b) =>
      var tail := "-" + (Dec(b) + w);
      assert Print(r) + w == Dec(a) + tail by { Regroup4(Dec(a), "-", Dec(b), w); }
      assert tail[1..] == Dec(b) + w;
      NumberAhead(a, tail);
      NumberAhead(b, w);
    case From(a) =>
      var tail := "-" + w;
      assert Print(r) + w == Dec(a) + tail by { Assoc(Dec(a), "-", w); }
      assert tail[1..] == w;
      NumberAhead(a, tail);
      NumberAhead(0, w);
    case LastBytes(n) =>
      var s := "-" + (Dec(n) + w);
      assert Print(r) + w == s by { Assoc("-", Dec(n), w); }
      assert s[1..] == Dec(n) + w;
      NumberAhead(n, w);
      assert OptionalNumber(s) == None by { NumberAhead(n, s); }
  }

  lemma WordAtNone(s: string, n: word)
    requires !DigitAhead(s)
    ensures WordAt(s, n) == n
  {
  }

  lemma Regroup4(a: string, b: string, c: string, d: string)
    ensures a + (b + c) + d == a + (b + (c + d))
  {
    Assoc(a, b + c, d);
    Assoc(b, c, d);
  }

  lemma {:induction false} ParsePrintedMore(rs: seq<ByteRange>)
    ensures ParseSet(PrintMore(rs)) == if AllReadable(rs) then Some(DenotedList(rs)) else None
    ensures PrintMore(rs) == "" || PrintMore(rs)[0] == ','
  {
    hide Print, ParseSpec;
    if rs != [] {
      var body := Print(rs[0]) + PrintMore(rs[1..]);
      ParsePrintedMore(rs[1..]);
      ParsePrinted(rs[0], PrintMore(rs[1..]));
      assert PrintMore(rs)[1..] == body;
      ReadableStep(rs);
    }
  }

  lemma ReadableStep(rs: seq<ByteRange>)
    requires rs != []
    ensures AllReadable(rs) <==> Readable(rs[0]) && AllReadable(rs[1..])
  {
    if Readable(rs[0]) && AllReadable(rs[1..]) {
      forall i | 0 <= i < |rs| ensures Readable(rs[i]) {
        assert i > 0 ==> rs[i] == rs[1..][i - 1];
      }
    }
  }

  /** The printed form of a list of ranges is parsed back to that list exactly when no range is (-1, -1). */
  lemma ParsePrintedList(rs: seq<ByteRange>)
    ensures ParseSet(PrintList(rs)) == if AllReadable(rs) then Some(DenotedList(rs)) else None
  {
    hide Print, ParseSpec;
    if rs != [] {
      ParsePrintedMore(rs[1..]);
      ParsePrinted(rs[0], PrintMore(rs[1..]));
      ReadableStep(rs);
    }
  }

  lemma AllBelow(rs: seq<ByteRange>)
    requires AllBelowMarker(rs)
    ensures AllReadable(rs)
  {
    forall i | 0 <= i < |rs| ensures Readable(rs[i]) {
      assert BelowMarker(rs[i]);
    }
  }

  /** Two lists with numbers below 2^32 - 1 that print to the same header value are the same list. */
  lemma PrintListInjective(rs: seq<ByteRange>, ts: seq<ByteRange>)
    requires AllBelowMarker(rs)
    requires AllBelowMarker(ts)
    requires PrintList(rs) == PrintList(ts)
    ensures rs == ts
  {
    hide *;
    AllBelow(rs);
    AllBelow(ts);
    ParsePrintedList(rs);
    ParsePrintedList(ts);
    DenotedInjective(rs, ts);
  }
}
