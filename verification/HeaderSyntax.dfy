/** What a request header is, as a text: the lines that read_header (src/read.c) delivers, and where it ends. */
module HeaderSyntax {
  import opened CStrings

  const MAX_HEADER_LENGTH := 1024

  /** The answer of process_logline and process_option_line to a line; Simple is an HTTP/0.9 request line. */
  datatype Ruling = Reject | Accept | Simple

  type Judge = seq<string> -> Ruling

  /** How a text ends a header: not yet, by an error, or with so much text left over. */
  datatype End = More | Refused | Complete(rest: string)
  datatype Parsed = Parsed(lines: seq<string>, end: End)

  /** CR, LF, TAB and everything from 32 to 127 may occur in a header. */
  predicate IsLegal(c: char) {
    c == '\r' || c == '\n' || c == '\t' || 32 <= c as int <= 127
  }

  /** The length of the text up to the first LF. */
  function LineLength(s: string): (k: nat)
    ensures k <= |s| && (k < |s| ==> s[k] == '\n')
    ensures forall i :: 0 <= i < k ==> s[i] != '\n'
  {
    if s == "" || s[0] == '\n' then 0 else 1 + LineLength(s[1..])
  }

  /** A line without the CRs at its end. */
  function StripCr(t: string): (r: string)
    ensures r <= t
  {
    if t == "" || t[|t| - 1] != '\r' then t else StripCr(t[..|t| - 1])
  }

  ghost predicate AllLegal(t: string) {
    forall i :: 0 <= i < |t| ==> IsLegal(t[i])
  }

  /**
    Cut at LF, strip the CRs before it, stop at the first empty line behind the request line; an illegal character,
    a line that is too long, or a rejected line ends it earlier.
    */
  ghost function Split(s: string, lines: seq<string>, judge: Judge): (p: Parsed)
    ensures p.end.Complete? ==> |p.end.rest| < |s|
  {
    var k := LineLength(s);
    if !AllLegal(s[..k]) then Parsed(lines, Refused)
    else if k == |s| then Parsed(lines, More)
    else
      var line := StripCr(s[..k]);
      if lines != [] && line == "" then Parsed(lines, Complete(s[k + 1..]))
      else if |line| >= MAX_HEADER_LENGTH then Parsed(lines, Refused)
      else
        var now := lines + [line];
        if judge(now) == Reject then Parsed(now, Refused)
        else if judge(now) == Simple && lines == [] then Parsed(now, Complete(s[k + 1..]))
        else Split(s[k + 1..], now, judge)
  }

  /** All requests that a stream of bytes holds, one behind the other. */
  ghost function Requests(wire: string, judge: Judge): seq<seq<string>>
    decreases |wire|
  {
    var p := Split(wire, [], judge);
    if p.end.Complete? then [p.lines] + Requests(p.end.rest, judge) else []
  }

  // ----- more text does not change what has been decided

  lemma {:induction false} LineLengthOf(t: string, x: string)
    requires forall i :: 0 <= i < |t| ==> t[i] != '\n'
    ensures LineLength(t + ['\n'] + x) == |t|
    ensures LineLength(t) == |t|
  {
    if t == "" {
      assert (t + ['\n'] + x)[0] == '\n';
    } else {
      assert (t + ['\n'] + x)[1..] == t[1..] + ['\n'] + x;
      LineLengthOf(t[1..], x);
    }
  }

  /** One line of the splitter. */
  lemma SplitLine(t: string, x: string, lines: seq<string>, judge: Judge)
    requires AllLegal(t) && forall i :: 0 <= i < |t| ==> t[i] != '\n'
    ensures var line := StripCr(t); var now := lines + [line];
      Split(t + ['\n'] + x, lines, judge) ==
        if lines != [] && line == "" then Parsed(lines, Complete(x))
        else if |line| >= MAX_HEADER_LENGTH then Parsed(lines, Refused)
        else if judge(now) == Reject then Parsed(now, Refused)
        else if judge(now) == Simple && lines == [] then Parsed(now, Complete(x))
        else Split(x, now, judge)
  {
    LineLengthOf(t, x);
    var s := t + ['\n'] + x;
    assert s[..|t|] == t && s[|t| + 1..] == x;
  }

  /** Text without LF that is legal so far. */
  lemma SplitMore(t: string, lines: seq<string>, judge: Judge)
    requires AllLegal(t) && forall i :: 0 <= i < |t| ==> t[i] != '\n'
    ensures Split(t, lines, judge) == Parsed(lines, More)
  {
    LineLengthOf(t, "");
    assert t[..|t|] == t;
  }

  /** An illegal character in the current line. */
  lemma SplitIllegal(t: string, c: char, x: string, lines: seq<string>, judge: Judge)
    requires !IsLegal(c) && forall i :: 0 <= i < |t| ==> t[i] != '\n'
    ensures Split(t + [c] + x, lines, judge) == Parsed(lines, Refused)
  {
    var s := t + [c] + x;
    var k := LineLength(s);
    assert s[|t|] == c;
    assert forall i :: 0 <= i <= |t| ==> s[i] != '\n';
    assert s[..k][|t|] == c;
  }

  lemma {:induction false} SplitExtends(s: string, x: string, lines: seq<string>, judge: Judge)
    ensures var p := Split(s, lines, judge);
      && (p.end == Refused ==> Split(s + x, lines, judge) == p)
      && (p.end.Complete? ==> Split(s + x, lines, judge) == Parsed(p.lines, Complete(p.end.rest + x)))
    decreases |s|
  {
    var k := LineLength(s);
    var t := s[..k];
    if !AllLegal(t) {
      var i :| 0 <= i < k && !IsLegal(t[i]);
      assert s + x == s[..i] + [s[i]] + (s[i + 1..] + x);
      SplitIllegal(s[..i], s[i], s[i + 1..] + x, lines, judge);
    } else if k < |s| {
      assert s == t + ['\n'] + s[k + 1..];
      assert s + x == t + ['\n'] + (s[k + 1..] + x);
      SplitLine(t, s[k + 1..], lines, judge);
      SplitLine(t, s[k + 1..] + x, lines, judge);
      SplitExtends(s[k + 1..], x, lines + [StripCr(t)], judge);
    }
  }
}
