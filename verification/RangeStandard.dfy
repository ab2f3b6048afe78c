/**
  The Range header as section 14.35.1 of RFC 2616 defines it, with the rules of its section 2.1 for lists and for white
  space; and what src/range.c makes of the values that it defines.
  */
module RangeStandard {
  import opened CStrings
  import opened Limits
  import opened Decimal
  import opened RangeSyntax
  import opened RangeTable

  predicate Blank(c: char) {
    c == ' ' || c == '\t'
  }

  /** The text behind linear white space: blanks, tabs, and line ends that a blank or a tab follows. */
  function SkipLws(s: string): (r: string)
    ensures |r| <= |s|
  {
    if s != "" && Blank(s[0]) then SkipLws(s[1..])
    else if |s| >= 3 && s[0] == '\r' && s[1] == '\n' && Blank(s[2]) then SkipLws(s[3..])
    else s
  }

  /** The number at the front of `s`, continuing from `n`. */
  function Value(s: string, n: nat): nat {
    if DigitAhead(s) then Value(s[1..], n * 10 + ValueOf(s[0])) else n
  }

  /**
    The text behind the white space that may stand next to a hyphen. Section 2.1 implies white space between words and
    separators; `lws` says whether a hyphen is taken to be one, which the grammar leaves open.
    */
  function Gap(s: string, lws: bool): (r: string)
    ensures |r| <= |s|
  {
    if lws then SkipLws(s) else s
  }

  datatype Element = NoElement | Element(range: ByteRange, rest: string)

  /** byte-range-spec | suffix-byte-range-spec, with numbers of any size */
  function ParseElement(s: string, lws: bool): (e: Element)
    ensures e.Element? ==> |e.rest| < |s|
  {
    var hyphen := if DigitAhead(s) then Gap(SkipDigits(s), lws) else s;
    if hyphen == "" || hyphen[0] != '-' then NoElement
    else
      var end := Gap(hyphen[1..], lws);
      if DigitAhead(s) && DigitAhead(end) then Element(Closed(Value(s, 0), Value(end, 0)), SkipDigits(end))
      else if DigitAhead(s) then Element(From(Value(s, 0)), hyphen[1..])
      else if DigitAhead(end) then Element(LastBytes(Value(end, 0)), SkipDigits(end))
      else NoElement
  }

  function ConsRange(r: ByteRange, rest: Option<seq<ByteRange>>): Option<seq<ByteRange>> {
    if rest == None then None else Some([r] + rest.value)
  }

  predicate AtComma(s: string) {
    s == "" || s[0] == ','
  }

  /** Elements set apart by commas; null elements do not count. */
  function Elements(s: string, lws: bool): Option<seq<ByteRange>>
    decreases |s|
  {
    var t := SkipLws(s);
    if t == "" then Some([])
    else if t[0] == ',' then Elements(t[1..], lws)
    else
      var e := ParseElement(t, lws);
      if e == NoElement || !AtComma(SkipLws(e.rest)) then None
      else ConsRange(e.range, Elements(SkipLws(e.rest), lws))
  }

  /** The token "bytes", in any case. */
  predicate IsBytes(s: string) {
    |s| == 5 && forall k :: 0 <= k < 5 ==> s[k] == "bytes"[k] || s[k] == "BYTES"[k]
  }

  /** That is what range_parse looks for, with the '=' right behind it. */
  lemma BytesIs(s: string)
    ensures |s| >= 6 ==> (StartsWithBytes(s) <==> IsBytes(s[..5]) && s[5] == '=')
    ensures StartsWithBytes(s) ==> |s| >= 6
  {
    var t := s[..if |s| < 5 then |s| else 5];
    if |s| >= 6 {
      assert forall k :: 0 <= k < 5 ==> t[k] == s[k];
      Letters(t);
    }
  }

  lemma Letters(t: string)
    requires |t| == 5
    ensures IsBytes(t) <==>
      && (t[0] == 'b' || t[0] == 'B') && (t[1] == 'y' || t[1] == 'Y') && (t[2] == 't' || t[2] == 'T')
      && (t[3] == 'e' || t[3] == 'E') && (t[4] == 's' || t[4] == 'S')
  {
    var low, up := "bytes", "BYTES";
    assert low[0] == 'b' && low[1] == 'y' && low[2] == 't' && low[3] == 'e' && low[4] == 's';
    assert up[0] == 'B' && up[1] == 'Y' && up[2] == 'T' && up[3] == 'E' && up[4] == 'S';
  }

  /** byte-ranges-specifier: the ranges of a header value; None when it is not one. */
  function RfcSet(value: string, lws: bool): Option<seq<ByteRange>> {
    var s := SkipLws(value);
    if |s| < 5 || !IsBytes(s[..5]) then None
    else
      var t := SkipLws(s[5..]);
      if t == "" || t[0] != '=' || Elements(t[1..], lws) == Some([]) then None else Elements(t[1..], lws)
  }

  // ----- a value that the RFC defines is understood

  lemma WhiteIsSkipped(s: string)
    requires s != "" && IsWhite(s[0])
    ensures ParseSet(s) == ParseSet(s[1..]) && SkipBlanks(s) == SkipBlanks(s[1..])
  {
  }

  lemma {:induction false} LwsIsSkipped(s: string)
    ensures ParseSet(SkipLws(s)) == ParseSet(s)
    ensures SkipBlanks(SkipLws(s)) == SkipBlanks(s)
    decreases |s|
  {
    hide ParseSet, SkipBlanks;
    if s != "" && Blank(s[0]) {
      WhiteIsSkipped(s);
      LwsIsSkipped(s[1..]);
    } else if |s| >= 3 && s[0] == '\r' && s[1] == '\n' && Blank(s[2]) {
      assert s[1..][1..] == s[2..] && s[2..][1..] == s[3..];
      WhiteIsSkipped(s);
      WhiteIsSkipped(s[1..]);
      WhiteIsSkipped(s[2..]);
      LwsIsSkipped(s[3..]);
    }
  }

  /** The words of range_parse hold the numbers modulo the size of a word. */
  lemma {:induction false} WordOfValue(s: string, n: nat)
    ensures WordAt(s, Word(n)) == Word(Value(s, n))
    decreases |s|
  {
    if DigitAhead(s) {
      PushWraps(n, ValueOf(s[0]));
      WordOfValue(s[1..], n * 10 + ValueOf(s[0]));
    }
  }

  /** White space of the RFC in front of a hyphen, a digit, a comma or the end is white space of range_parse. */
  lemma GapIsBlanks(s: string, lws: bool)
    ensures var g := Gap(s, lws); g != "" && !IsWhite(g[0]) ==> SkipBlanks(s) == g
    ensures AtComma(SkipLws(s)) ==> SkipBlanks(s) == SkipLws(s)
    ensures AtComma(SkipLws(s)) ==> AtComma(s) || IsWhite(s[0])
  {
    LwsIsSkipped(s);
  }

  /** One element, followed by a comma or by nothing, is what range_parse reads as one range. */
  lemma ElementIsSpec(s: string, lws: bool)
    requires ParseElement(s, lws).Element? && AtComma(SkipLws(ParseElement(s, lws).rest))
    ensures var e, p := ParseElement(s, lws), ParseSpec(s);
      && p.Spec? && Ends(p) && RangeSpec(OrNone(p.first), OrNone(p.last)) == Denoted(e.range)
      && ParseSet(p.rest) == ParseSet(SkipLws(e.rest))
    ensures !IsWhite(s[0]) && s[0] != ','
  {
    hide Value, WordAt, ParseSet, SkipLws, SkipBlanks, Gap, Word;
    var e := ParseElement(s, lws);
    var hyphen := if DigitAhead(s) then Gap(SkipDigits(s), lws) else s;
    var end := Gap(hyphen[1..], lws);
    GapIsBlanks(SkipDigits(s), lws);
    GapIsBlanks(hyphen[1..], lws);
    GapIsBlanks(e.rest, lws);
    LwsIsSkipped(e.rest);
    NumberAt(s);
    NumberAt(end);
  }

  lemma NumberAt(s: string)
    ensures OptionalNumber(s) == if DigitAhead(s) then Some(Word(Value(s, 0))) else None
  {
    WordOfValue(s, 0);
    assert Word(0) == 0;
  }

  /** A list of elements is understood, each number modulo the size of a word, unless one of them gets lost by that. */
  lemma {:induction false} ElementsAreParsed(s: string, lws: bool)
    requires Elements(s, lws).Some?
    ensures var rs := Elements(s, lws).value; ParseSet(s) == if AllReadable(rs) then Some(DenotedList(rs)) else None
    decreases |s|
  {
    hide ParseElement, ParseSpec, SkipLws, AtComma, Ends;
    var t := SkipLws(s);
    LwsIsSkipped(s);
    if t != "" {
      if t[0] == ',' {
        ElementsAreParsed(t[1..], lws);
      } else {
        var e := ParseElement(t, lws);
        ElementIsSpec(t, lws);
        ElementsAreParsed(SkipLws(e.rest), lws);
        ReadableStep(Elements(s, lws).value);
      }
    }
  }

  // ----- a printed list is such a value

  lemma {:induction false} ValueOfDec(n: nat, w: string)
    ensures Value(Dec(n) + w, 0) == Value(w, n)
  {
    hide Dec, Value;
    DecStep(n);
    var digit := [DigitOf(n % 10)];
    assert (digit + w)[1..] == w;
    ValueStep(digit + w, n / 10);
    if n < 10 {
      assert Dec(n) + w == digit + w;
    } else {
      ValueOfDec(n / 10, digit + w);
      Assoc(Dec(n / 10), digit, w);
    }
  }

  lemma ValueStep(s: string, n: nat)
    ensures Value(s, n) == if DigitAhead(s) then Value(s[1..], n * 10 + ValueOf(s[0])) else n
  {
  }

  lemma ElementPrinted(r: ByteRange, w: string, lws: bool)
    requires AtComma(w) || (r.Closed? && !DigitAhead(w))
    ensures ParseElement(Print(r) + w, lws) == Element(r, w) && (AtComma(w) ==> SkipLws(w) == w)
    ensures var s := Print(r) + w; s != "" && s[0] != ',' && SkipLws(s) == s
  {
    hide Dec, Value, SkipDigits, WordAt, SkipLws;
    Stands(w);
    Stands(Print(r) + w);
    match r
    case Closed(a, b) =>
      var tail := "-" + (Dec(b) + w);
      assert Print(r) + w == Dec(a) + tail by { Regroup4(Dec(a), "-", Dec(b), w); }
      assert tail[1..] == Dec(b) + w;
      ValueAhead(a, tail);
      Stands(tail);
      ValueAhead(b, w);
      Stands(tail[1..]);
    case From(a) =>
      var tail := "-" + w;
      assert Print(r) + w == Dec(a) + tail by { Assoc(Dec(a), "-", w); }
      assert tail[1..] == w;
      ValueAhead(a, tail);
      Stands(tail);
    case LastBytes(n) =>
      var s := "-" + (Dec(n) + w);
      assert Print(r) + w == s by { Assoc("-", Dec(n), w); }
      assert s[1..] == Dec(n) + w;
      ValueAhead(n, w);
      Stands(s[1..]);
  }

  /** Nothing to skip. */
  lemma Stands(s: string)
    ensures s == "" || (!Blank(s[0]) && s[0] != '\r') ==> SkipLws(s) == s
  {
  }

  lemma ValueAhead(n: nat, w: string)
    requires !DigitAhead(w)
    ensures DigitAhead(Dec(n) + w) && Value(Dec(n) + w, 0) == n && SkipDigits(Dec(n) + w) == w
    ensures SkipLws(Dec(n) + w) == Dec(n) + w
  {
    hide Dec, WordAt;
    ValueOfDec(n, w);
    NumberAhead(n, w);
  }

  lemma ElementsNext(s: string, lws: bool, r: ByteRange, w: string)
    requires s != "" && s[0] != ',' && SkipLws(s) == s
    requires ParseElement(s, lws) == Element(r, w) && SkipLws(w) == w && AtComma(w)
    ensures Elements(s, lws) == ConsRange(r, Elements(w, lws))
  {
  }

  lemma {:induction false} MorePrinted(rs: seq<ByteRange>, lws: bool)
    ensures Elements(PrintMore(rs), lws) == Some(rs) && AtComma(PrintMore(rs))
  {
    hide Print, ParseElement, Elements, SkipLws;
    if rs == [] {
      ElementsEmpty(lws);
    } else {
      var w := PrintMore(rs[1..]);
      MorePrinted(rs[1..], lws);
      ElementPrinted(rs[0], w, lws);
      ElementsNext(Print(rs[0]) + w, lws, rs[0], w);
      ElementsStep(PrintMore(rs), lws);
      assert PrintMore(rs)[1..] == Print(rs[0]) + w;
      assert rs == [rs[0]] + rs[1..];
    }
  }

  lemma ElementsEmpty(lws: bool)
    ensures Elements("", lws) == Some([])
  {
  }

  /** A printed list that is not empty is the value of a Range header. */
  lemma PrintedIsRfc(rs: seq<ByteRange>, lws: bool)
    requires rs != []
    ensures RfcSet("bytes=" + PrintList(rs), lws) == Some(rs)
  {
    hide Print, ParseElement, Elements;
    var value := "bytes=" + PrintList(rs);
    assert value[..5] == "bytes" && value[..5] + "=" == "bytes=";
    assert value[5..][0] == '=' && value[5..][1..] == PrintList(rs);
    MorePrinted(rs, lws);
    assert PrintMore(rs)[1..] == PrintList(rs);
    ElementsStep(PrintMore(rs), lws);
  }

  lemma ElementsStep(s: string, lws: bool)
    requires s != "" && s[0] == ','
    ensures Elements(s, lws) == Elements(s[1..], lws)
  {
  }

  // ----- values that are not what range_parse takes them for

  /** Two ranges with a blank and no comma between them are no list, but range_parse takes both. */
  lemma NoComma(a: nat, b: nat, c: nat, d: nat, lws: bool)
    requires Readable(Closed(a, b)) && Readable(Closed(c, d))
    ensures var s := Print(Closed(a, b)) + (" " + Print(Closed(c, d)));
      && ParseSet(s) == Some([Denoted(Closed(a, b)), Denoted(Closed(c, d))])
      && RfcSet("bytes=" + s, lws) == None
  {
    hide Print, ParseSpec, ParseElement, ParseSet, Denoted;
    var r, t := Closed(a, b), Closed(c, d);
    var w := " " + Print(t);
    var s, value := Print(r) + w, "bytes=" + (Print(r) + w);
    ParsePrinted(r, w);
    ParsePrinted(t, "");
    assert Print(t) + "" == Print(t) && w[1..] == Print(t);
    SpecFirst(s);
    SpecFirst(Print(t));
    WhiteIsSkipped(w);
    EmptySet();
    assert ParseSet(Print(t)) == Some([Denoted(t)]) by { assert [Denoted(t)] + [] == [Denoted(t)]; }
    assert [Denoted(r)] + [Denoted(t)] == [Denoted(r), Denoted(t)];
    ElementPrinted(r, w, lws);
    ElementPrinted(t, "", lws);
    NoLwsAhead(Print(t));
    assert value[..5] + "=" == "bytes=" && value[5..][0] == '=' && value[5..][1..] == s;
  }

  lemma NoLwsAhead(s: string)
    requires s != "" && s[0] != ',' && SkipLws(s) == s
    ensures !AtComma(SkipLws(" " + s))
  {
    assert (" " + s)[1..] == s;
  }

  lemma SpecFirst(s: string)
    requires s != "" && !IsWhite(s[0]) && s[0] != ','
    ensures var p := ParseSpec(s);
      ParseSet(s) ==
        if p == NoSpec || !Ends(p) || OrNone(p.first) == OrNone(p.last) == NONE then None
        else Cons(RangeSpec(OrNone(p.first), OrNone(p.last)), ParseSet(p.rest))
  {
  }

  lemma EmptySet()
    ensures ParseSet("") == Some([])
  {
  }

  /** A hyphen is no range. */
  lemma LoneHyphen(lws: bool)
    ensures ParseSet("-") == None && RfcSet("bytes=-", lws) == None
  {
  }

  /** White space may stand in front of the '='. */
  lemma BlankBeforeEquals(rs: seq<ByteRange>, lws: bool)
    requires rs != []
    ensures RfcSet("bytes =" + PrintList(rs), lws) == Some(rs) && !StartsWithBytes("bytes =" + PrintList(rs))
  {
    hide Elements, PrintList;
    var value, t := "bytes =" + PrintList(rs), "=" + PrintList(rs);
    PrintedIsRfc(rs, lws);
    assert ("bytes" + t)[..5] == "bytes" && ("bytes" + t)[5..] == t && "bytes" + t == "bytes=" + PrintList(rs);
    assert value[..5] == "bytes" && value[5..][1..] == t && t[1..] == PrintList(rs);
    assert SkipLws(t) == t && SkipLws(value[5..]) == SkipLws(t);
  }
}
