/** Percent-decoding of request URIs (src/util.c) and the escaping that it undoes (src/buffer.c). */
module UriText {
  import opened CStrings
  import opened Escape
  import PathText

  // ----- decoding

  /** What unescape_uri makes of a URI: the decoded path and, after a '?', the raw query. */
  datatype Decoded = Decoded(ok: bool, path: string, query: Option<string>)

  /** `(c) & 0xdf` on a byte */
  function ClearCaseBit(x: int): int {
    var y := x % 256;
    if (y / 32) % 2 == 1 then y - 32 else y
  }

  function HexDigitValue(c: char): int {
    if c >= 'A' then ClearCaseBit(c as int) - 'A' as int + 10 else c as int - '0' as int
  }

  /** The macro HEX_TO_DECIMAL, stored into a byte. */
  function HexToByte(c: char, d: char): (v: int)
    ensures 0 <= v < 256
  {
    (HexDigitValue(c) * 16 + HexDigitValue(d)) % 256
  }

  /** The raw text after the first '?', if there is one. */
  function AfterQuestionMark(s: string): Option<string> {
    if s == "" then None else if s[0] == '?' then Some(s[1..]) else AfterQuestionMark(s[1..])
  }

  function Unescape(s: string): Decoded {
    if s == "" then Decoded(true, "", None)
    else if s[0] == '%' then
      if |s| < 3 || !(32 <= HexToByte(s[1], s[2]) <= 126) then Decoded(false, "", None)
      else Prepend(HexToByte(s[1], s[2]) as char, Unescape(s[3..]))
    else if s[0] == '?' then Decoded(true, "", Some(s[1..]))
    else if s[0] == '#' then Decoded(true, "", AfterQuestionMark(s[1..]))
    else Prepend(s[0], Unescape(s[1..]))
  }

  function Prepend(c: char, d: Decoded): Decoded {
    d.(path := [c] + d.path)
  }

  /** The position `i` of a decoding pass over `s` with the decoded path written up to `w`. */
  ghost predicate DecodingAt(s: string, i: nat, w: nat) {
    var all, rest := Unescape(s), if i <= |s| then Unescape(s[i..]) else Unescape("");
    && w <= i <= |s| && w <= |all.path|
    && all.path[w..] == rest.path && all.ok == rest.ok && all.query == rest.query
  }

  lemma DecodeStep(s: string, i: nat, w: nat)
    requires i < |s| && DecodingAt(s, i, w)
    ensures var c := s[i]; var all := Unescape(s);
      if c == '%' then
        if i + 2 >= |s| || !(32 <= HexToByte(s[i + 1], s[i + 2]) <= 126)
        then !all.ok && |all.path| == w && all.query == None
        else w < |all.path| && all.path[w] == HexToByte(s[i + 1], s[i + 2]) as char && DecodingAt(s, i + 3, w + 1)
      else if c == '?' then all.ok && |all.path| == w && all.query == Some(s[i + 1..])
      else if c == '#' then all.ok && |all.path| == w && all.query == AfterQuestionMark(s[i + 1..])
      else w < |all.path| && all.path[w] == c && DecodingAt(s, i + 1, w + 1)
  {
    var all, rest := Unescape(s), Unescape(s[i..]);
    assert s[i..][1..] == s[i + 1..];
    if s[i] == '%' && i + 2 < |s| {
      assert s[i..][3..] == s[i + 3..];
    }
    if rest.path != "" {
      assert all.path[w + 1..] == all.path[w..][1..];
      assert rest.path[1..] == (if s[i] == '%' then Unescape(s[i + 3..]) else Unescape(s[i + 1..])).path;
    }
  }

  /** The query text, when there is one, lies behind everything the decoded path can occupy. */
  lemma {:induction false} QueryBehindPath(s: string)
    ensures |Unescape(s).path| <= |s|
    ensures var d := Unescape(s);
            d.query.Some? ==> |d.path| + 1 + |d.query.value| <= |s| && d.query.value == s[|s| - |d.query.value|..]
  {
    if s != "" && s[0] == '%' {
      if |s| >= 3 { QueryBehindPath(s[3..]); }
    } else if s != "" && s[0] == '#' {
      AfterIsSuffix(s[1..]);
    } else if s != "" && s[0] != '?' {
      QueryBehindPath(s[1..]);
    }
  }

  lemma {:induction false} AfterIsSuffix(s: string)
    ensures var q := AfterQuestionMark(s);
            q.Some? ==> |q.value| < |s| && q.value == s[|s| - |q.value|..]
  {
    if s != "" && s[0] != '?' { AfterIsSuffix(s[1..]); }
  }

  /** unescape_uri on the C string `s` at the front of the buffer; a query is a position in the buffer. */
  method UnescapeUri(uri: array<char>, wantQuery: bool, ghost s: string) returns (ok: bool, query: Option<nat>)
    requires |s| < uri.Length && uri[|s|] == '\0'
    requires forall i :: 0 <= i < |s| ==> uri[i] == s[i] != '\0'
    modifies uri
    ensures ok == Unescape(s).ok
    ensures |Unescape(s).path| <= |s| && uri[|Unescape(s).path|] == '\0'
    ensures forall i :: 0 <= i < |Unescape(s).path| ==> uri[i] == Unescape(s).path[i]
    ensures forall i :: |Unescape(s).path| < i < uri.Length ==> uri[i] == old(uri[i])
    ensures query.Some? <==> wantQuery && Unescape(s).query.Some?
    ensures query.Some? ==> |Unescape(s).path| < query.value <= |s| && s[query.value..] == Unescape(s).query.value
  {
    hide Unescape, HexToByte;
    ghost var all := Unescape(s);
    QueryBehindPath(s);
    assert s[0..] == s && all.path[0..] == all.path;
    query := None;
    var read, write := 0, 0;
    while uri[read] != '\0'
      invariant DecodingAt(s, read, write)
      invariant query == None
      invariant forall i :: 0 <= i < write ==> uri[i] == all.path[i]
      invariant forall i :: write <= i < uri.Length ==> uri[i] == old(uri[i])
      decreases |s| - read
    {
      DecodeStep(s, read, write);
      var c := uri[read];
      if c == '%' {
        if uri[read + 1] == '\0' || uri[read + 2] == '\0' {
          uri[write] := '\0';
          return false, None;
        }
        var byte := HexToByte(uri[read + 1], uri[read + 2]);
        read := read + 3;
        uri[write] := byte as char;
        if byte < 32 || byte > 126 {
          uri[write] := '\0';
          return false, None;
        }
        write := write + 1;
      } else if c == '?' {
        read := read + 1;
        if wantQuery {
          query := Some(read);
        }
        uri[write] := '\0';
        return true, query;
      } else if c == '#' {
        if wantQuery {
          query := FindQuery(uri, read + 1, s);
        }
        uri[write] := '\0';
        return true, query;
      } else {
        uri[write] := c;
        write := write + 1;
        read := read + 1;
      }
    }
    DecodeEnd(s, read, write);
    uri[write] := '\0';
    return true, None;
  }

  lemma DecodeEnd(s: string, i: nat, w: nat)
    requires i == |s| && DecodingAt(s, i, w)
    ensures var all := Unescape(s); all.ok && |all.path| == w && all.query == None
  {
    assert s[i..] == "";
  }

  /** The scan for a '?' behind a fragment mark. */
  method FindQuery(uri: array<char>, start: nat, ghost s: string) returns (query: Option<nat>)
    requires start <= |s| < uri.Length && uri[|s|] == '\0'
    requires forall i :: start <= i < |s| ==> uri[i] == s[i] != '\0'
    ensures query.Some? <==> AfterQuestionMark(s[start..]).Some?
    ensures query.Some? ==> start < query.value <= |s| && s[query.value..] == AfterQuestionMark(s[start..]).value
  {
    var read := start;
    while uri[read] != '\0'
      invariant start <= read <= |s|
      invariant AfterQuestionMark(s[read..]) == AfterQuestionMark(s[start..])
      decreases |s| - read
    {
      assert s[read..][1..] == s[read + 1..];
      if uri[read] == '?' {
        return Some(read + 1);
      }
      read := read + 1;
    }
    assert s[read..] == "";
    return None;
  }

  /**
    The text part of process_header_end: decode the request URI, clean it, and insist on a leading slash.
    Both passes work in the one buffer, and the query keeps pointing at the raw bytes behind them.
    */
  method DecodeAndClean(uri: array<char>) returns (ok: bool, query: Option<nat>)
    requires '\0' in uri[..]
    modifies uri
    ensures
      var d := Unescape(CString(old(uri[..])));
            && (ok <==> d.ok && "/" <= PathText.Clean(d.path))
            && (ok ==> CString(uri[..]) == PathText.Clean(d.path) && PathText.Normal(CString(uri[..])))
            && (ok ==> (query.Some? <==> d.query.Some?))
            && (ok && query.Some? ==> query.value <= uri.Length && CString(uri[query.value..]) == d.query.value)
  {
    hide Unescape, PathText.Clean, PathText.Normal, CString, AfterQuestionMark;
    ghost var before := uri[..];
    ghost var s := CString(before);
    ghost var d := Unescape(s);
    ok, query := UnescapeUri(uri, true, s);
    if !ok {
      return;
    }
    NoNulInPath(s);
    PathText.CompactInPlace(uri, d.path);
    ghost var c := PathText.Clean(d.path);
    ok := uri[0] == '/';
    PathText.CleanIsNormal(d.path);
    NoNulInClean(d.path);
    HoldsCString(uri[..], 0, c);
    assert uri[..][0..] == uri[..];
    if query.Some? {
      HoldsCString(uri[..], query.value, s[query.value..]);
      assert uri[..][query.value..] == uri[query.value..];
    }
  }

  lemma NoNulInClean(p: string)
    requires forall i :: 0 <= i < |p| ==> p[i] != '\0'
    ensures forall i :: 0 <= i < |PathText.Clean(p)| ==> PathText.Clean(p)[i] != '\0'
  {
    hide PathText.Clean;
    PathText.CleanKeepsCharacters(p);
    assert forall i :: 0 <= i < |PathText.Clean(p)| ==> PathText.Clean(p)[i] in PathText.Clean(p);
  }

  lemma {:induction false} NoNulInPath(s: string)
    requires forall i :: 0 <= i < |s| ==> s[i] != '\0'
    ensures forall i :: 0 <= i < |Unescape(s).path| ==> Unescape(s).path[i] != '\0'
  {
    if s != "" && s[0] == '%' && |s| >= 3 {
      NoNulInPath(s[3..]);
    } else if s != "" && s[0] != '%' && s[0] != '?' && s[0] != '#' {
      NoNulInPath(s[1..]);
    }
  }

  // ----- escaping

  /** The macro INT_TO_HEX */
  function HexDigit(x: int): char
    requires 0 <= x < 16
  {
    if x > 9 then ('a' as int - 10 + x) as char else ('0' as int + x) as char
  }

  /** What one character is written as. */
  function EscapeChar(c: char): (e: string)
    ensures 1 <= |e| <= 3
  {
    if NeedsEscape(c) then ['%', HexDigit(c as int / 16 % 16), HexDigit(c as int % 16)] else [c]
  }

  function EscapeText(t: string): (e: string)
    ensures |t| <= |e| <= 3 * |t|
  {
    if t == "" then "" else EscapeChar(t[0]) + EscapeText(t[1..])
  }

  lemma {:induction false} EscapeAppend(t: string, c: char)
    ensures EscapeText(t + [c]) == EscapeText(t) + EscapeChar(c)
  {
    if t == "" {
      assert EscapeText([c]) == EscapeChar(c) + EscapeText([]);
    } else {
      assert (t + [c])[1..] == t[1..] + [c];
      EscapeAppend(t[1..], c);
    }
  }

  /** The three bytes, or the one byte, that a character is written as. */
  lemma EscapedForm(c: char)
    requires c != '\0'
    ensures var e := EscapeChar(c);
            && (NeedsEscape(c) ==> e == ['%', HexDigit(c as int / 16 % 16), HexDigit(c as int % 16)])
            && (!NeedsEscape(c) ==> e == [c])
            && forall k :: 0 <= k < |e| ==> e[k] != '\0'
  {
  }

  lemma EmptyText()
    ensures EscapeText("") == ""
  {
  }

  /**
    escape_string: the escaped text in `buf`, or in a new buffer when there is none;
    no result at all without a buffer when the text is empty or malloc fails.
    */
  method EscapeString(inp: string, buf: array?<char>, mallocOk: bool, table: EscapeTable) returns (r: array?<char>)
    requires table.Built() && buf as object? != table.words
    requires forall i :: 0 <= i < |inp| ==> inp[i] != '\0'
    requires buf != null ==> 3 * |inp| < buf.Length
    modifies buf
    ensures r == null <==> buf == null && (inp == "" || !mallocOk)
    ensures if buf != null then r == buf else r != null ==> fresh(r)
    ensures r != null ==> CString(r[..]) == EscapeText(inp)
  {
    hide EscapeText, EscapeChar, NeedsEscape, HexDigit, BitOf, Marks, SPECIAL;
    var max := 3 * |inp|;
    r := buf;
    if r == null {
      if max == 0 || !mallocOk {
        return;
      }
      r := new char[max + 1];
    }
    ghost var words, out := table.words[..], "";
    var ix := 0;
    EmptyText();
    assert inp[..0] == "";
    for i := 0 to |inp|
      invariant r as object != table.words && table.words.Length == WORDS && table.words[..] == words
      invariant out == EscapeText(inp[..i]) && ix == |out| <= 3 * i
      invariant forall k :: 0 <= k < ix ==> r[k] == out[k] != '\0'
    {
      var c := inp[i];
      assert inp[..i + 1] == inp[..i] + [c];
      EscapeAppend(inp[..i], c);
      MarkedIsNeeded(table.words[..], c);
      EscapedForm(c);
      if table.Test(c) {
        r[ix] := '%';
        r[ix + 1] := HexDigit(c as int / 16 % 16);
        r[ix + 2] := HexDigit(c as int % 16);
        ix := ix + 3;
      } else {
        r[ix] := c;
        ix := ix + 1;
      }
      out := out + EscapeChar(c);
    }
    assert inp[..|inp|] == inp;
    r[ix] := '\0';
    HoldsCString(r[..], 0, out);
    assert r[..][0..] == r[..];
  }

  // ----- decoding undoes escaping

  /** The characters that survive the trip: printable ASCII, and not the query mark. */
  predicate Survives(c: char) {
    ' ' <= c <= '~' && c != '?'
  }

  lemma HexRoundTrip(c: char)
    requires (c as int) < 256
    ensures HexToByte(HexDigit(c as int / 16 % 16), HexDigit(c as int % 16)) == c as int
  {
    hide HexDigit, HexDigitValue;
    var x := c as int;
    assert x / 16 % 16 == x / 16;
    DigitValue(x / 16);
    DigitValue(x % 16);
  }

  lemma DigitValue(x: int)
    requires 0 <= x < 16
    ensures HexDigitValue(HexDigit(x)) == x
  {
  }

  const LOWER_HEX: string := "0123456789abcdef"
  const UPPER_HEX: string := "0123456789ABCDEF"

  /** Section 2.4.1 of RFC 2396: the hex digit for `v`, in lower or in upper case. */
  predicate IsHex(c: char, v: nat) {
    v < 16 && (c == LOWER_HEX[v] || c == UPPER_HEX[v])
  }

  lemma HexIsDecoded(c: char, v: nat)
    requires IsHex(c, v)
    ensures HexDigitValue(c) == v
  {
  }

  /** A percent sign and two hex digits, in any case, stand for the byte with that number if it is printable ASCII. */
  lemma TripletIsDecoded(c: char, x: nat, d: char, y: nat, w: string)
    requires IsHex(c, x) && IsHex(d, y)
    ensures Unescape(['%', c, d] + w) ==
      if 32 <= 16 * x + y <= 126 then Prepend((16 * x + y) as char, Unescape(w)) else Decoded(false, "", None)
  {
    hide HexToByte;
    var s := ['%', c, d] + w;
    assert s[0] == '%' && s[1] == c && s[2] == d && s[3..] == w;
    HexByte(c, x, d, y);
  }

  lemma HexByte(c: char, x: nat, d: char, y: nat)
    requires IsHex(c, x) && IsHex(d, y)
    ensures HexToByte(c, d) == 16 * x + y
  {
    hide HexDigitValue, IsHex;
    HexIsDecoded(c, x);
    HexIsDecoded(d, y);
    HexBound(c, x);
    HexBound(d, y);
  }

  lemma HexBound(c: char, v: nat)
    requires IsHex(c, v)
    ensures v < 16
  {
  }

  /** An escaped byte is written as a percent sign and the two hex digits of its number. */
  lemma TripletIsWritten(c: char)
    requires (c as int) < 256
    ensures var e := EscapeChar(c);
      if NeedsEscape(c) then |e| == 3 && e[0] == '%' && IsHex(e[1], c as int / 16) && IsHex(e[2], c as int % 16)
      else e == [c]
  {
    hide NeedsEscape;
  }

  /** The tilde's usual spelling; and two characters behind a percent sign that are not hex digits. */
  lemma TildeIsDecoded()
    ensures Unescape("/%7Ebob") == Unescape("/%7ebob") == Decoded(true, "/~bob", None)
    ensures (forall v: nat :: !IsHex('G', v)) && Unescape("/%4G") == Decoded(true, "/P", None)
  {
    hide Unescape, HexToByte;
    BobIsPlain();
    TripletIsDecoded('7', 7, 'E', 14, "bob");
    TripletIsDecoded('7', 7, 'e', 14, "bob");
    NotHex();
    assert ['%', '7', 'E'] + "bob" == "%7Ebob" && ['%', '7', 'e'] + "bob" == "%7ebob";
    PlainStep('/', "%7Ebob");
    PlainStep('/', "%7ebob");
    PlainStep('/', "%4G");
    assert ['/'] + "%7Ebob" == "/%7Ebob" && ['/'] + "%7ebob" == "/%7ebob" && ['/'] + "%4G" == "/%4G";
    assert ['/'] + (['~'] + "bob") == "/~bob" && ['/'] + "P" == "/P";
  }

  lemma BobIsPlain()
    ensures Unescape("bob") == Decoded(true, "bob", None)
  {
    hide Unescape;
    PlainStep('b', "ob");
    PlainStep('o', "b");
    PlainStep('b', "");
    UnescapeEmpty();
    assert ['b'] + "ob" == "bob" && ['o'] + "b" == "ob" && ['b'] + "" == "b";
  }

  lemma NotHex()
    ensures forall v: nat :: !IsHex('G', v)
    ensures Unescape("%4G") == Decoded(true, "P", None)
  {
    assert HexToByte('4', 'G') == 80;
    assert "%4G"[3..] == "";
  }

  lemma PlainStep(c: char, w: string)
    requires c != '%' && c != '?' && c != '#'
    ensures Unescape([c] + w) == Prepend(c, Unescape(w))
  {
    assert ([c] + w)[1..] == w;
  }

  /** Decoding meets the escaped form of one character. */
  lemma UnescapeEscaped(c: char, w: string)
    requires (c as int) < 256
    ensures Unescape(EscapeChar(c) + w) ==
      if c == '?' then Decoded(true, "", Some(w))
      else if Survives(c) then Prepend(c, Unescape(w))
      else Decoded(false, "", None)
  {
    var e := EscapeChar(c);
    var s := e + w;
    SpecialIsPlain(c);
    if NeedsEscape(c) {
      HexRoundTrip(c);
      assert s[0] == '%' && s[1] == e[1] && s[2] == e[2] && s[3..] == w;
    } else {
      assert s[0] == c && s[1..] == w;
    }
  }

  lemma EscapeStep(t: string)
    requires t != ""
    ensures EscapeText(t) == EscapeChar(t[0]) + EscapeText(t[1..])
  {
  }

  /** Decoding an escaped text gives back the characters that survive, up to the first one that does not. */
  lemma {:induction false} UnescapePrefix(a: string, w: string)
    requires forall i :: 0 <= i < |a| ==> Survives(a[i])
    ensures var d := Unescape(w);
            Unescape(EscapeText(a) + w) == Decoded(d.ok, a + d.path, d.query)
  {
    hide EscapeText, EscapeChar, Unescape;
    if a == "" {
      EmptyText();
      assert "" + w == w && "" + Unescape(w).path == Unescape(w).path;
    } else {
      EscapeStep(a);
      Assoc(EscapeChar(a[0]), EscapeText(a[1..]), w);
      UnescapeEscaped(a[0], EscapeText(a[1..]) + w);
      UnescapePrefix(a[1..], w);
      Assoc([a[0]], a[1..], Unescape(w).path);
      assert [a[0]] + a[1..] == a;
    }
  }

  lemma {:induction false} EscapeConcat(a: string, b: string)
    ensures EscapeText(a + b) == EscapeText(a) + EscapeText(b)
  {
    hide EscapeText, EscapeChar;
    if a == "" {
      EmptyText();
      assert a + b == b && "" + EscapeText(b) == EscapeText(b);
    } else {
      EscapeStep(a);
      EscapeStep(a + b);
      assert (a + b)[1..] == a[1..] + b;
      EscapeConcat(a[1..], b);
      Assoc(EscapeChar(a[0]), EscapeText(a[1..]), EscapeText(b));
    }
  }

  /** What decoding returns for a text whose first character that does not survive is `c`. */
  lemma UnescapeUpTo(a: string, c: char, b: string)
    requires forall i :: 0 <= i < |a| ==> Survives(a[i])
    requires (c as int) < 256 && !Survives(c)
    ensures Unescape(EscapeText(a + ([c] + b))) ==
              if c == '?' then Decoded(true, a, Some(EscapeText(b))) else Decoded(false, a, None)
  {
    hide EscapeText, EscapeChar, Unescape;
    EscapeConcat(a, [c] + b);
    EscapeStep([c] + b);
    assert ([c] + b)[1..] == b;
    UnescapeEscaped(c, EscapeText(b));
    UnescapePrefix(a, EscapeText([c] + b));
    assert a + "" == a;
  }

  /** With a '?', decoding returns the part before it, and leaves the escaped rest as the query. */
  lemma EscapeSplitsAtQuery(a: string, b: string)
    requires forall i :: 0 <= i < |a| ==> Survives(a[i])
    ensures Unescape(EscapeText(a + ['?'] + b)) == Decoded(true, a, Some(EscapeText(b)))
  {
    hide EscapeText, Unescape;
    Assoc(a, ['?'], b);
    UnescapeUpTo(a, '?', b);
  }

  /** A fragment between the path and the query is dropped; without a query mark in it there is no query. */
  lemma FragmentIsDropped(a: string, f: string, q: string)
    requires (forall i :: 0 <= i < |a| ==> Survives(a[i])) && '?' !in f
    ensures Unescape(EscapeText(a) + (['#'] + f)) == Decoded(true, a, None)
    ensures Unescape(EscapeText(a) + (['#'] + (f + (['?'] + q)))) == Decoded(true, a, Some(q))
  {
    hide EscapeText, Unescape, Survives;
    MarkBehind(f, q);
    FragmentStep(f);
    FragmentStep(f + (['?'] + q));
    UnescapePrefix(a, ['#'] + f);
    UnescapePrefix(a, ['#'] + (f + (['?'] + q)));
    assert a + "" == a;
  }

  lemma FragmentStep(w: string)
    ensures Unescape(['#'] + w) == Decoded(true, "", AfterQuestionMark(w))
  {
    assert (['#'] + w)[1..] == w;
  }

  lemma {:induction false} MarkBehind(f: string, q: string)
    requires '?' !in f
    ensures AfterQuestionMark(f) == None && AfterQuestionMark(f + (['?'] + q)) == Some(q)
  {
    if f == "" {
      assert f + (['?'] + q) == ['?'] + q && (['?'] + q)[1..] == q;
    } else {
      MarkBehind(f[1..], q);
      assert (f + (['?'] + q))[1..] == f[1..] + (['?'] + q);
    }
  }

  /** Decoding an escaped text returns success and the text itself exactly when every character survives. */
  lemma EscapeRoundTrip(t: string)
    requires forall i :: 0 <= i < |t| ==> (t[i] as int) < 256
    ensures (forall i :: 0 <= i < |t| ==> Survives(t[i])) ==> Unescape(EscapeText(t)) == Decoded(true, t, None)
    ensures Unescape(EscapeText(t)).ok && Unescape(EscapeText(t)).path == t <==>
              forall i :: 0 <= i < |t| ==> Survives(t[i])
  {
    hide EscapeText, Unescape, Survives;
    if forall i :: 0 <= i < |t| ==> Survives(t[i]) {
      SurvivorsReturn(t);
    } else {
      LostDoNotReturn(t);
    }
  }

  lemma SurvivorsReturn(t: string)
    requires forall i :: 0 <= i < |t| ==> Survives(t[i])
    ensures Unescape(EscapeText(t)) == Decoded(true, t, None)
  {
    hide EscapeText, Unescape, Survives;
    UnescapePrefix(t, "");
    UnescapeEmpty();
    assert EscapeText(t) + "" == EscapeText(t) && t + "" == t;
  }

  lemma LostDoNotReturn(t: string)
    requires forall i :: 0 <= i < |t| ==> (t[i] as int) < 256
    requires exists i :: 0 <= i < |t| && !Survives(t[i])
    ensures !(Unescape(EscapeText(t)).ok && Unescape(EscapeText(t)).path == t)
  {
    hide EscapeText, Unescape, Survives;
    var k := FirstLost(t);
    UnescapeUpTo(t[..k], t[k], t[k + 1..]);
    assert t[..k] + ([t[k]] + t[k + 1..]) == t;
    assert |t[..k]| < |t|;
  }

  /** A question mark is not escaped, so that it cuts the text off. */
  lemma QueryIsCutOff()
    ensures Unescape(EscapeText("a?")) == Decoded(true, "a", Some(""))
  {
    hide EscapeText, Unescape;
    EmptyText();
    assert "a" + ['?'] + "" == "a?";
    EscapeSplitsAtQuery("a", "");
  }

  lemma UnescapeEmpty()
    ensures Unescape("") == Decoded(true, "", None)
  {
  }

  lemma {:induction false} FirstLost(t: string) returns (k: nat)
    requires exists i :: 0 <= i < |t| && !Survives(t[i])
    ensures k < |t| && !Survives(t[k]) && forall i :: 0 <= i < k ==> Survives(t[i])
  {
    k := 0;
    while Survives(t[k])
      invariant k < |t| && forall i :: 0 <= i < k ==> Survives(t[i])
      decreases |t| - k
    {
      k := k + 1;
    }
  }
}
