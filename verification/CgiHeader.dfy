/** The prefix stripper for CGI output: src/cgi_header.c. Texts are C strings; positions stand for pointers. */
module CgiHeader {
  import opened CStrings
  import opened Escape

  // ----- what the scans look for

  predicate IsEol(c: char) {
    c == '\n' || c == '\r'
  }

  predicate IsAlpha(c: char) {
    'A' <= c <= 'Z' || 'a' <= c <= 'z'
  }

  predicate IsNameChar(c: char) {
    IsAlpha(c) || '0' <= c <= '9' || c == '-'
  }

  function Lower(c: char): char {
    if 'A' <= c <= 'Z' then (c as int + 32) as char else c
  }

  /** The character at a position; the terminator behind the text. */
  function At(s: string, i: nat): char {
    if i < |s| then s[i] else '\0'
  }

  /** strncasecmp(s + i, token, |token|) == 0 */
  predicate TokenAt(s: string, i: nat, token: string) {
    i + |token| <= |s| && forall k :: 0 <= k < |token| ==> Lower(s[i + k]) == Lower(token[k])
  }

  /** The position behind a run of name characters. */
  function NameEnd(s: string, i: nat): (e: nat)
    requires i <= |s|
    ensures i <= e <= |s| && (e < |s| ==> !IsNameChar(s[e]))
    ensures forall k :: i <= k < e ==> IsNameChar(s[k])
    decreases |s| - i
  {
    if i < |s| && IsNameChar(s[i]) then NameEnd(s, i + 1) else i
  }

  /** A letter, name characters, and ": " */
  predicate WildcardAt(s: string, i: nat) {
    i < |s| && IsAlpha(s[i]) && var e := NameEnd(s, i + 1); At(s, e) == ':' && At(s, e + 1) == ' '
  }

  predicate Letter(c: char) {
    c in UPPER + LOWER
  }

  predicate NameLetter(c: char) {
    c in UPPER + LOWER + DIGITS + "-"
  }

  /** Letters, digits and the hyphen make up a name; tokens match in any case. */
  lemma NameCharsAre(c: char)
    ensures (IsAlpha(c) <==> Letter(c)) && (IsNameChar(c) <==> NameLetter(c))
    ensures if c in UPPER then exists k :: 0 <= k < 26 && c == UPPER[k] && Lower(c) == LOWER[k] else Lower(c) == c
  {
    RunHolds(UPPER, 'A', c);
    RunHolds(LOWER, 'a', c);
    RunHolds(DIGITS, '0', c);
    if c in UPPER {
      var k := c as int - 'A' as int;
      assert c == UPPER[k] && Lower(c) == LOWER[k];
    }
  }

  /** A letter; letters, digits and hyphens up to `e`; a colon and a blank. */
  ghost predicate NameUpTo(s: string, i: nat, e: nat) {
    && i < e && e + 2 <= |s| && Letter(s[i]) && s[e] == ':' && s[e + 1] == ' '
    && forall k :: i < k < e ==> NameLetter(s[k])
  }

  lemma WildcardMeans(s: string, i: nat)
    ensures WildcardAt(s, i) <==> exists e: nat :: NameUpTo(s, i, e)
  {
    hide Letter, NameLetter;
    forall k | 0 <= k < |s|
      ensures (IsAlpha(s[k]) <==> Letter(s[k])) && (IsNameChar(s[k]) <==> NameLetter(s[k]))
    {
      NameCharsAre(s[k]);
    }
    if WildcardAt(s, i) {
      assert NameUpTo(s, i, NameEnd(s, i + 1));
    }
    forall e: nat | NameUpTo(s, i, e) ensures WildcardAt(s, i) {
      assert NameEnd(s, i + 1) == e;
    }
  }

  predicate AnyTokenAt(s: string, i: nat, tokens: seq<string>) {
    exists t :: 0 <= t < |tokens| && TokenAt(s, i, tokens[t])
  }

  /** A header line may start here. */
  predicate HeaderAt(s: string, i: nat, tokens: seq<string>) {
    AnyTokenAt(s, i, tokens) || WildcardAt(s, i)
  }

  /** The blank line starts here: LF LF, or LF CR LF. */
  predicate BlankAt(s: string, i: nat) {
    At(s, i) == '\n' && (At(s, i + 1) == '\n' || (At(s, i + 1) == '\r' && At(s, i + 2) == '\n'))
  }

  /** The first blank line at or behind `i`. */
  function Anchor(s: string, i: nat): (a: Option<nat>)
    requires i <= |s|
    ensures a.Some? ==> i <= a.value < |s| && BlankAt(s, a.value) && forall j :: i <= j < a.value ==> !BlankAt(s, j)
    ensures a == None ==> forall j :: i <= j ==> !BlankAt(s, j)
    decreases |s| - i
  {
    if i == |s| then None else if BlankAt(s, i) then Some(i) else Anchor(s, i + 1)
  }

  /** The text in front of `p` without the line ends at its end. */
  function SkipEol(s: string, p: nat): (e: nat)
    requires p <= |s|
    ensures e <= p && (e > 0 ==> !IsEol(s[e - 1])) && forall k :: e <= k < p ==> IsEol(s[k])
  {
    if p > 0 && IsEol(s[p - 1]) then SkipEol(s, p - 1) else p
  }

  /** The position behind the last LF in front of `p`, or the start. */
  function AfterLf(s: string, p: nat): (l: nat)
    requires p <= |s|
    ensures l <= p && (l > 0 ==> s[l - 1] == '\n') && forall k :: l <= k < p ==> s[k] != '\n'
  {
    if p > 0 && s[p - 1] != '\n' then AfterLf(s, p - 1) else p
  }

  /** The start of the line that ends right before `pos`. */
  function LineStart(s: string, pos: nat): (l: nat)
    requires pos <= |s|
    ensures l <= pos && (l == pos ==> pos == 0)
  {
    AfterLf(s, SkipEol(s, pos))
  }

  /** The last wildcard name that starts in lo..hi. */
  function LastWildcard(s: string, lo: nat, hi: nat): (w: Option<nat>)
    ensures w.Some? ==> lo <= w.value < hi && WildcardAt(s, w.value)
    ensures forall i :: (if w.Some? then w.value + 1 else lo) <= i < hi ==> !WildcardAt(s, i)
  {
    if hi <= lo then None else if WildcardAt(s, hi - 1) then Some(hi - 1) else LastWildcard(s, lo, hi - 1)
  }

  /** The last place in lo..hi where the token matches. */
  function LastMatch(s: string, token: string, lo: nat, hi: nat): (m: Option<nat>)
    ensures m.Some? ==> lo <= m.value < hi && TokenAt(s, m.value, token)
    ensures forall i :: (if m.Some? then m.value + 1 else lo) <= i < hi ==> !TokenAt(s, i, token)
  {
    if hi <= lo then None else if TokenAt(s, hi - 1, token) then Some(hi - 1) else LastMatch(s, token, lo, hi - 1)
  }

  /** The scan goes up to the last place where the token fits in front of `pos`. */
  function ScanEnd(token: string, pos: nat): nat {
    if |token| <= pos then pos - |token| + 1 else 0
  }

  /** The last match of the last of the first `n` tokens that matches between `lo` and `pos`. */
  function LastToken(s: string, tokens: seq<string>, n: nat, lo: nat, pos: nat): (m: Option<nat>)
    requires n <= |tokens|
    ensures m.Some? ==> lo <= m.value <= pos && AnyTokenAt(s, m.value, tokens)
  {
    if n == 0 then None
    else
      var m := LastMatch(s, tokens[n - 1], lo, ScanEnd(tokens[n - 1], pos));
      if m.Some? then m else LastToken(s, tokens, n - 1, lo, pos)
  }

  /** Where the text is cut in a line that is no header. */
  function Boundary(s: string, tokens: seq<string>, lo: nat, pos: nat): (b: nat)
    requires lo <= pos
    ensures lo <= b <= pos && (b < pos ==> HeaderAt(s, b, tokens))
  {
    var w := LastWildcard(s, lo, if pos > 0 then pos - 1 else 0);
    var t := LastToken(s, tokens, |tokens|, lo, pos);
    if w.Some? then w.value else if t.Some? then t.value else pos
  }

  /** The walk from line to line, backwards from `pos`. */
  function Walk(s: string, tokens: seq<string>, pos: nat): (r: nat)
    requires pos <= |s|
    ensures r <= pos
    decreases pos
  {
    var l := LineStart(s, pos);
    if HeaderAt(s, l, tokens) then (if l == 0 then 0 else Walk(s, tokens, l)) else Boundary(s, tokens, l, pos)
  }

  /** How much of the text is stripped. */
  function Strip(s: string, tokens: seq<string>): (r: nat)
    ensures r <= |s|
  {
    var a := Anchor(s, 0);
    if a.Some? then Walk(s, tokens, a.value) else 0
  }

  // ----- the scans

  /** matches_wildcard_pattern */
  method MatchesWildcardPattern(s: string, line: nat) returns (r: bool)
    requires line <= |s|
    ensures r <==> WildcardAt(s, line)
  {
    var p := line;
    if !(p < |s| && IsAlpha(s[p])) {
      return false;
    }
    p := p + 1;
    while p < |s| && IsNameChar(s[p])
      invariant line < p <= |s| && NameEnd(s, p) == NameEnd(s, line + 1)
    {
      p := p + 1;
    }
    return At(s, p) == ':' && At(s, p + 1) == ' ';
  }

  /** find_line_start */
  method FindLineStart(s: string, pos: nat) returns (l: nat)
    requires pos <= |s|
    ensures l == LineStart(s, pos)
  {
    if pos == 0 {
      return 0;
    }
    var p := pos;
    while p > 0 && IsEol(s[p - 1])
      invariant 0 <= p <= pos && SkipEol(s, p) == SkipEol(s, pos)
    {
      p := p - 1;
    }
    if p == 0 {
      return 0;
    }
    p := p - 1;
    while p > 0 && s[p] != '\n'
      invariant 0 <= p < |s| && AfterLf(s, p + 1) == LineStart(s, pos)
    {
      p := p - 1;
    }
    return if s[p] == '\n' then p + 1 else 0;
  }

  /** The loop over the whitelist at the start of a line. */
  method StartsWithToken(s: string, i: nat, tokens: seq<string>) returns (found: bool)
    ensures found <==> AnyTokenAt(s, i, tokens)
  {
    for t := 0 to |tokens|
      invariant forall u :: 0 <= u < t ==> !TokenAt(s, i, tokens[u])
    {
      if TokenAt(s, i, tokens[t]) {
        return true;
      }
    }
    return false;
  }

  /** The search for one token inside a line. */
  method ScanToken(s: string, token: string, lineStart: nat, pos: nat) returns (last: Option<nat>)
    requires lineStart <= pos <= |s|
    ensures last == LastMatch(s, token, lineStart, ScanEnd(token, pos))
  {
    hide TokenAt;
    last := None;
    var scan := lineStart;
    while scan + |token| <= pos
      invariant lineStart <= scan && (scan + |token| <= pos + 1 || scan == lineStart)
      invariant last == LastMatch(s, token, lineStart, scan)
      decreases pos + 1 - scan
    {
      if TokenAt(s, scan, token) {
        last := Some(scan);
      }
      scan := scan + 1;
    }
  }

  /** The search for a wildcard name inside a line. */
  method ScanWildcard(s: string, lineStart: nat, pos: nat) returns (last: Option<nat>)
    requires lineStart <= pos <= |s|
    ensures last == LastWildcard(s, lineStart, if pos > 0 then pos - 1 else 0)
  {
    hide WildcardAt;
    last := None;
    var scan := lineStart;
    while scan + 2 <= pos
      invariant lineStart <= scan && (scan + 2 <= pos + 1 || scan == lineStart)
      invariant last == LastWildcard(s, lineStart, scan)
      decreases pos + 1 - scan
    {
      var w := MatchesWildcardPattern(s, scan);
      if w {
        last := Some(scan);
      }
      scan := scan + 1;
    }
  }

  /** The two searches of strip_cgi_prefix for the last name inside a line; a later find replaces an earlier one. */
  method FindBoundary(s: string, tokens: seq<string>, lineStart: nat, pos: nat) returns (b: nat)
    requires lineStart <= pos <= |s|
    ensures b == Boundary(s, tokens, lineStart, pos)
  {
    hide LastMatch, LastWildcard;
    var lastToken: Option<nat> := None;
    for t := 0 to |tokens|
      invariant lastToken == LastToken(s, tokens, t, lineStart, pos)
    {
      var m := ScanToken(s, tokens[t], lineStart, pos);
      if m.Some? {
        lastToken := m;
      }
    }
    var w := ScanWildcard(s, lineStart, pos);
    if w.Some? {
      lastToken := w;
    }
    return if lastToken.Some? then lastToken.value else pos;
  }

  /** The pattern occurs in the text at this position. */
  predicate Occurs(s: string, pat: string, i: nat) {
    i + |pat| <= |s| && forall k :: 0 <= k < |pat| ==> s[i + k] == pat[k]
  }

  /** strstr(s, pat): the first occurrence from `i` on */
  function Strstr(s: string, pat: string, i: nat): (r: Option<nat>)
    requires i <= |s|
    ensures r.Some? ==> i <= r.value && Occurs(s, pat, r.value)
    ensures forall j :: i <= j && (r.Some? ==> j < r.value) ==> !Occurs(s, pat, j)
    decreases |s| - i
  {
    if Occurs(s, pat, i) then Some(i) else if i < |s| then Strstr(s, pat, i + 1) else None
  }

  /** The search for the blank line; its last resort, CR LF CR LF, never finds one. */
  method FindAnchor(s: string) returns (anchor: Option<nat>)
    requires forall i :: 0 <= i < |s| ==> s[i] != '\0'
    ensures anchor == Anchor(s, 0)
  {
    forall i: nat ensures BlankAt(s, i) <==> Occurs(s, "\n\r\n", i) || Occurs(s, "\n\n", i) {
      PatternIsBlank(s, i);
    }
    hide BlankAt, Occurs;
    anchor := Strstr(s, "\n\r\n", 0);
    var p := Strstr(s, "\n\n", 0);
    if anchor == None {
      anchor := p;
    } else {
      if p.Some? && p.value < anchor.value {
        anchor := p;
      }
    }
    if anchor == None {
      anchor := Strstr(s, "\r\n\r\n", 0);
      if anchor.Some? {
        NoLastResort(s, anchor.value);
      }
    }
  }

  lemma PatternIsBlank(s: string, i: nat)
    requires forall k :: 0 <= k < |s| ==> s[k] != '\0'
    ensures BlankAt(s, i) <==> Occurs(s, "\n\r\n", i) || Occurs(s, "\n\n", i)
  {
    var p, q := "\n\r\n", "\n\n";
    assert p[0] == '\n' && p[1] == '\r' && p[2] == '\n' && q[0] == '\n' && q[1] == '\n';
    assert Occurs(s, p, i) ==> s[i + 0] == p[0] && s[i + 1] == p[1] && s[i + 2] == p[2];
    assert Occurs(s, q, i) ==> s[i + 0] == q[0] && s[i + 1] == q[1];
  }

  lemma NoLastResort(s: string, i: nat)
    requires Occurs(s, "\r\n\r\n", i)
    ensures Occurs(s, "\n\r\n", i + 1)
  {
    var p := "\r\n\r\n";
    assert p[1] == '\n' && p[2] == '\r' && p[3] == '\n';
    assert s[i + 1] == p[1] && s[i + 2] == p[2] && s[i + 3] == p[3];
  }

  /** strip_cgi_prefix: the position that the header starts at. */
  method StripCgiPrefix(s: string, tokens: seq<string>, enabled: bool) returns (r: nat)
    requires forall i :: 0 <= i < |s| ==> s[i] != '\0'
    ensures if enabled then r == Strip(s, tokens) && RightCut(s, tokens, r) else r == 0
  {
    hide RightCut;
    if !enabled {
      return 0;
    }
    StripIsRightCut(s, tokens, Strip(s, tokens));
    var anchor := FindAnchor(s);
    if anchor == None {
      return 0;
    }
    var pos := anchor.value;
    while true
      invariant pos <= anchor.value && Walk(s, tokens, pos) == Strip(s, tokens)
      decreases pos
    {
      var lineStart := FindLineStart(s, pos);
      var foundMatch := StartsWithToken(s, lineStart, tokens);
      if !foundMatch {
        foundMatch := MatchesWildcardPattern(s, lineStart);
      }
      if foundMatch {
        if lineStart == 0 {
          return 0;
        }
        pos := lineStart;
        continue;
      }
      r := FindBoundary(s, tokens, lineStart, pos);
      return;
    }
  }

  // ----- what is left is a header

  /** A line starts at `p`: at the cut, or behind an LF. */
  predicate IsLineStart(s: string, r: nat, p: nat) {
    p == r || (0 < p <= |s| && s[p - 1] == '\n')
  }

  /** The line at `p` holds nothing but CRs. */
  predicate BlankLine(s: string, p: nat) {
    var k := CrEnd(s, p);
    At(s, k) == '\n'
  }

  function CrEnd(s: string, p: nat): (k: nat)
    ensures p <= k && (forall j :: p <= j < k ==> At(s, j) == '\r') && At(s, k) != '\r'
    decreases if p < |s| then |s| - p else 0
  {
    if At(s, p) == '\r' then CrEnd(s, p + 1) else p
  }

  /** Every line that starts between `r` and `a` is a header line, or blank. */
  ghost predicate AllHeaders(s: string, tokens: seq<string>, r: nat, a: nat) {
    forall p :: r <= p < a && IsLineStart(s, r, p) ==> HeaderAt(s, p, tokens) || BlankLine(s, p)
  }

  /** Line ends up to an LF make a blank line. */
  lemma {:induction false} EolsAreBlank(s: string, p: nat, a: nat)
    requires p <= a < |s| && s[a] == '\n' && forall k :: p <= k < a ==> IsEol(s[k])
    ensures BlankLine(s, p)
  {
    assert At(s, a) == '\n';
    assert CrEnd(s, p) <= a;
  }

  /** One line up to the next one: behind its text there are only blank lines. */
  lemma LineThenBlanks(s: string, tokens: seq<string>, l: nat, r: nat, pos: nat, a: nat)
    requires pos <= a < |s| && s[a] == '\n' && (pos == a || (pos > 0 && s[pos - 1] == '\n'))
    requires l == LineStart(s, pos) && l <= r < pos && HeaderAt(s, r, tokens)
    requires AllHeaders(s, tokens, pos, a)
    ensures AllHeaders(s, tokens, r, a)
  {
    hide HeaderAt;
    var e := SkipEol(s, pos);
    forall p | r <= p < a && IsLineStart(s, r, p) ensures HeaderAt(s, p, tokens) || BlankLine(s, p) {
      if r < p < pos {
        assert s[p - 1] == '\n' && p - 1 >= e;
        EolsAreBlank(s, p, if pos == a then a else pos - 1);
      } else if p == pos && pos != r {
        assert IsLineStart(s, pos, p);
      }
    }
  }

  /** When something is left in front of the blank line, it consists of header lines. */
  lemma {:induction false} WalkLeavesHeaders(s: string, tokens: seq<string>, pos: nat, a: nat)
    requires pos <= a < |s| && s[a] == '\n' && (pos == a || (pos > 0 && s[pos - 1] == '\n'))
    requires AllHeaders(s, tokens, pos, a)
    ensures AllHeaders(s, tokens, Walk(s, tokens, pos), a)
    decreases pos
  {
    hide HeaderAt, Boundary;
    var l := LineStart(s, pos);
    if HeaderAt(s, l, tokens) {
      if l < pos {
        LineThenBlanks(s, tokens, l, l, pos, a);
      }
      if l > 0 {
        WalkLeavesHeaders(s, tokens, l, a);
      }
    } else {
      var b := Boundary(s, tokens, l, pos);
      if b < pos {
        LineThenBlanks(s, tokens, l, b, pos, a);
      }
    }
  }

  /**
    The result lies between the start and the blank line, and every line from there to the blank line starts with a
    whitelisted token or a wildcard name, or is blank.
    */
  lemma StripLeavesHeaders(s: string, tokens: seq<string>)
    ensures var a := Anchor(s, 0);
      if a.Some? then Strip(s, tokens) <= a.value && AllHeaders(s, tokens, Strip(s, tokens), a.value)
      else Strip(s, tokens) == 0
  {
    hide HeaderAt, Boundary;
    var a := Anchor(s, 0);
    if a.Some? {
      WalkLeavesHeaders(s, tokens, a.value, a.value);
    }
  }

  // ----- nothing else is left out

  /** A line begins here: at the start of the text, or behind an LF when the line is not blank. */
  predicate Begins(s: string, p: nat) {
    p == 0 || (p <= |s| && s[p - 1] == '\n' && !BlankLine(s, p))
  }

  /** All lines from `p` on that begin in front of `a` are header lines. */
  ghost predicate HeadersFrom(s: string, tokens: seq<string>, p: nat, a: nat) {
    forall l :: p <= l < a && Begins(s, l) ==> HeaderAt(s, l, tokens)
  }

  /** `q` is the last line in front of `a` that is no header, and the next one begins at `n`, if it is not `a`. */
  ghost predicate LastStranger(s: string, tokens: seq<string>, q: nat, n: nat, a: nat) {
    && q < n <= a && Begins(s, q) && !HeaderAt(s, q, tokens) && (n == a || Begins(s, n))
    && (forall l :: q < l < n ==> !Begins(s, l)) && HeadersFrom(s, tokens, n, a)
  }

  /** A wildcard name begins at `i`, in the line from `lo` to `hi`. */
  predicate NameIn(s: string, lo: nat, hi: nat, i: nat) {
    lo <= i && i + 2 <= hi && WildcardAt(s, i)
  }

  /** The `t`-th token stands at `i`, in the line from `lo` to `hi`. */
  predicate TokenIn(s: string, tokens: seq<string>, lo: nat, hi: nat, t: nat, i: nat) {
    t < |tokens| && lo <= i && i + |tokens[t]| <= hi && TokenAt(s, i, tokens[t])
  }

  /**
    Where a line that is no header is cut: at its last wildcard name; without one, where the last of the tokens that
    occur in it occurs last; without any, at its end.
    */
  ghost predicate CutAt(s: string, tokens: seq<string>, lo: nat, hi: nat, r: nat) {
    if exists i: nat :: NameIn(s, lo, hi, i) then
      NameIn(s, lo, hi, r) && forall i: nat :: r < i ==> !NameIn(s, lo, hi, i)
    else if exists t: nat, i: nat :: TokenIn(s, tokens, lo, hi, t, i) then
      exists t :: IsLastToken(s, tokens, |tokens|, lo, hi, t, r)
    else r == hi
  }

  /** Of the first `n` tokens, the `t`-th is the last that occurs, and `r` is where it does last. */
  ghost predicate IsLastToken(s: string, tokens: seq<string>, n: nat, lo: nat, hi: nat, t: nat, r: nat) {
    && t < n && TokenIn(s, tokens, lo, hi, t, r)
    && (forall i: nat :: r < i ==> !TokenIn(s, tokens, lo, hi, t, i))
    && forall u: nat, i: nat :: t < u < n ==> !TokenIn(s, tokens, lo, hi, u, i)
  }

  lemma NoMatch(s: string, tokens: seq<string>, lo: nat, hi: nat, t: nat)
    requires t < |tokens| && LastMatch(s, tokens[t], lo, ScanEnd(tokens[t], hi)) == None
    ensures forall i: nat :: !TokenIn(s, tokens, lo, hi, t, i)
  {
    hide TokenAt;
  }

  lemma {:induction false} LastTokenIs(s: string, tokens: seq<string>, n: nat, lo: nat, hi: nat)
    requires n <= |tokens|
    ensures var m := LastToken(s, tokens, n, lo, hi);
      if m.Some? then exists t :: IsLastToken(s, tokens, n, lo, hi, t, m.value)
      else forall t: nat, i: nat :: t < n ==> !TokenIn(s, tokens, lo, hi, t, i)
  {
    hide TokenAt;
    if n > 0 {
      var m := LastMatch(s, tokens[n - 1], lo, ScanEnd(tokens[n - 1], hi));
      if m.Some? {
        assert IsLastToken(s, tokens, n, lo, hi, n - 1, m.value);
      } else {
        LastTokenIs(s, tokens, n - 1, lo, hi);
        var k := LastToken(s, tokens, n - 1, lo, hi);
        NoMatch(s, tokens, lo, hi, n - 1);
        if k.Some? {
          var t :| IsLastToken(s, tokens, n - 1, lo, hi, t, k.value);
          assert IsLastToken(s, tokens, n, lo, hi, t, k.value);
        }
      }
    }
  }

  lemma OneLastToken(s: string, tokens: seq<string>, lo: nat, hi: nat, t: nat, r: nat, u: nat, x: nat)
    requires IsLastToken(s, tokens, |tokens|, lo, hi, t, r) && IsLastToken(s, tokens, |tokens|, lo, hi, u, x)
    ensures r == x
  {
    hide TokenIn;
    assert !(t < u);
  }

  lemma BoundaryIsCut(s: string, tokens: seq<string>, lo: nat, hi: nat, r: nat)
    requires lo < hi
    ensures CutAt(s, tokens, lo, hi, r) <==> r == Boundary(s, tokens, lo, hi)
  {
    hide WildcardAt, TokenIn, LastToken, IsLastToken;
    var w, m := LastWildcard(s, lo, hi - 1), LastToken(s, tokens, |tokens|, lo, hi);
    if w.Some? {
      assert NameIn(s, lo, hi, w.value);
    } else {
      forall i: nat ensures !NameIn(s, lo, hi, i) {
      }
      TokenIsCut(s, tokens, lo, hi, r);
    }
  }

  lemma TokenIsCut(s: string, tokens: seq<string>, lo: nat, hi: nat, r: nat)
    ensures var m := LastToken(s, tokens, |tokens|, lo, hi);
      && (m.Some? <==> exists t: nat, i: nat :: TokenIn(s, tokens, lo, hi, t, i))
      && (m.Some? ==> (r == m.value <==> exists t :: IsLastToken(s, tokens, |tokens|, lo, hi, t, r)))
  {
    hide TokenIn, LastToken, IsLastToken;
    LastTokenIs(s, tokens, |tokens|, lo, hi);
    var m := LastToken(s, tokens, |tokens|, lo, hi);
    if m.Some? {
      var t :| IsLastToken(s, tokens, |tokens|, lo, hi, t, m.value);
      LastIsThere(s, tokens, |tokens|, lo, hi, t, m.value);
      forall u | IsLastToken(s, tokens, |tokens|, lo, hi, u, r) ensures r == m.value {
        OneLastToken(s, tokens, lo, hi, t, m.value, u, r);
      }
    } else {
      forall t: nat, i: nat ensures !TokenIn(s, tokens, lo, hi, t, i) {
        TokenIsOne(s, tokens, lo, hi, t, i);
      }
    }
  }

  lemma LastIsThere(s: string, tokens: seq<string>, n: nat, lo: nat, hi: nat, t: nat, r: nat)
    requires IsLastToken(s, tokens, n, lo, hi, t, r)
    ensures TokenIn(s, tokens, lo, hi, t, r)
  {
  }

  lemma TokenIsOne(s: string, tokens: seq<string>, lo: nat, hi: nat, t: nat, i: nat)
    ensures TokenIn(s, tokens, lo, hi, t, i) ==> t < |tokens|
  {
  }

  /** The line start in front of `pos` is the last one there is. */
  lemma LastBegin(s: string, pos: nat, a: nat)
    requires 0 < pos <= a < |s| && s[a] == '\n' && (pos == a || s[pos - 1] == '\n')
    ensures var l := LineStart(s, pos); l < pos && Begins(s, l) && forall p :: l < p < pos ==> !Begins(s, p)
  {
    var e, l := SkipEol(s, pos), LineStart(s, pos);
    if l > 0 {
      assert !IsEol(s[e - 1]) && l <= e - 1;
      assert At(s, e - 1) != '\r' && CrEnd(s, l) <= e - 1;
    }
    forall p | l < p < pos ensures !Begins(s, p) {
      if s[p - 1] == '\n' {
        assert p - 1 >= e;
        EolsAreBlank(s, p, if pos == a then a else pos - 1);
      }
    }
  }

  /** Header lines that reach to the blank line are kept. */
  lemma {:induction false} WalkKeeps(s: string, tokens: seq<string>, p: nat, pos: nat, a: nat)
    requires p <= pos <= a < |s| && s[a] == '\n' && (pos == a || Begins(s, pos))
    requires Begins(s, p) && HeadersFrom(s, tokens, p, a)
    ensures Walk(s, tokens, pos) <= p
    decreases pos
  {
    hide HeaderAt, Boundary, LineStart, BlankLine;
    if p < pos {
      LastBegin(s, pos, a);
      var l := LineStart(s, pos);
      if l > 0 {
        WalkKeeps(s, tokens, p, l, a);
      }
    }
  }

  /** The walk ends in the last line that is no header. */
  lemma {:induction false} WalkEnds(s: string, tokens: seq<string>, q: nat, n: nat, pos: nat, a: nat)
    requires n <= pos <= a < |s| && s[a] == '\n' && (pos == a || Begins(s, pos))
    requires LastStranger(s, tokens, q, n, a)
    ensures Walk(s, tokens, pos) == Boundary(s, tokens, q, n)
    decreases pos
  {
    hide HeaderAt, Boundary, LineStart, BlankLine;
    LastBegin(s, pos, a);
    var l := LineStart(s, pos);
    if n < pos {
      WalkEnds(s, tokens, q, n, l, a);
    } else {
      assert l == q;
    }
  }

  /** Lines that are headers, up to the blank line, are never stripped. */
  lemma HeadersAreKept(s: string, tokens: seq<string>, p: nat)
    requires Anchor(s, 0).Some? && p <= Anchor(s, 0).value
    requires Begins(s, p) && HeadersFrom(s, tokens, p, Anchor(s, 0).value)
    ensures Strip(s, tokens) <= p
  {
    hide HeadersFrom, Walk, Begins;
    WalkKeeps(s, tokens, p, Anchor(s, 0).value, Anchor(s, 0).value);
  }

  /** The last line that is no header is where the text is cut. */
  lemma StrangerIsCut(s: string, tokens: seq<string>, q: nat, n: nat, r: nat)
    requires Anchor(s, 0).Some? && LastStranger(s, tokens, q, n, Anchor(s, 0).value)
    ensures CutAt(s, tokens, q, n, r) <==> r == Strip(s, tokens)
  {
    hide HeadersFrom, Walk, Begins, CutAt, HeaderAt, Boundary;
    WalkEnds(s, tokens, q, n, Anchor(s, 0).value, Anchor(s, 0).value);
    BoundaryIsCut(s, tokens, q, n, r);
  }

  /**
    Where the text is to be cut: nowhere without a blank line or when all lines in front of it are headers; otherwise in
    the last of them that is none.
    */
  ghost predicate RightCut(s: string, tokens: seq<string>, r: nat) {
    var a := Anchor(s, 0);
    if a == None || HeadersFrom(s, tokens, 0, a.value) then r == 0
    else exists q, n :: LastStranger(s, tokens, q, n, a.value) && CutAt(s, tokens, q, n, r)
  }

  /** There is always such a line when not all of them are headers. */
  lemma {:induction false} FindStranger(s: string, tokens: seq<string>, n: nat, l: nat, a: nat) returns (q: nat, m: nat)
    requires l < n <= a && (n == a || Begins(s, n)) && HeadersFrom(s, tokens, n, a) && !HeadersFrom(s, tokens, 0, a)
    requires forall k :: l < k < n ==> !Begins(s, k)
    ensures LastStranger(s, tokens, q, m, a)
    decreases l
  {
    hide HeaderAt, BlankLine;
    if !Begins(s, l) {
      q, m := FindStranger(s, tokens, n, l - 1, a);
    } else if HeaderAt(s, l, tokens) {
      q, m := FindStranger(s, tokens, l, l - 1, a);
    } else {
      q, m := l, n;
    }
  }

  /** The text is cut exactly where it is to be cut. */
  lemma StripIsRightCut(s: string, tokens: seq<string>, r: nat)
    ensures RightCut(s, tokens, r) <==> r == Strip(s, tokens)
  {
    hide HeadersFrom, Begins, CutAt, HeaderAt, Boundary, LastStranger, Strip;
    var a := Anchor(s, 0);
    NoAnchor(s, tokens);
    if a.Some? {
      if HeadersFrom(s, tokens, 0, a.value) {
        StartBegins(s);
        HeadersAreKept(s, tokens, 0);
      } else {
        var q, n := AnyStranger(s, tokens, a.value);
        StrangerIsCut(s, tokens, q, n, r);
        forall q, n | LastStranger(s, tokens, q, n, a.value)
          ensures CutAt(s, tokens, q, n, r) <==> r == Strip(s, tokens)
        {
          StrangerIsCut(s, tokens, q, n, r);
        }
      }
    }
  }

  lemma NoAnchor(s: string, tokens: seq<string>)
    ensures Anchor(s, 0) == None ==> Strip(s, tokens) == 0
  {
  }

  lemma StartBegins(s: string)
    ensures Begins(s, 0)
  {
  }

  lemma AnyStranger(s: string, tokens: seq<string>, a: nat) returns (q: nat, n: nat)
    requires !HeadersFrom(s, tokens, 0, a)
    ensures LastStranger(s, tokens, q, n, a)
  {
    q, n := FindStranger(s, tokens, a, a - 1, a);
  }

  /** Two header lines are kept both. */
  lemma BothAreKept()
    ensures Strip("A: 1\nB: 2\n\n", []) == 0
  {
    var s, none := "A: 1\nB: 2\n\n", [];
    assert |s| == 11 && s[1] == ':' && s[2] == ' ' && s[4] == '\n' && s[6] == ':' && s[7] == ' ' && s[9] == '\n';
    assert s[0] == 'A' && s[3] == '1' && s[5] == 'B' && s[8] == '2' && s[10] == '\n';
    assert Anchor(s, 0) == Some(9) by { assert Anchor(s, 5) == Some(9); }
    assert NameEnd(s, 1) == 1 && NameEnd(s, 6) == 6;
    assert WildcardAt(s, 0) && WildcardAt(s, 5);
    forall l: nat | l < 9 && Begins(s, l) ensures HeaderAt(s, l, none) {
      assert l == 0 || l == 5;
    }
    HeadersAreKept(s, none, 0);
  }

  // ----- stripping again changes nothing

  /** Matching looks forward only. */
  lemma SuffixAlike(s: string, r: nat, i: nat, tokens: seq<string>)
    requires r <= i && r <= |s|
    ensures HeaderAt(s[r..], i - r, tokens) <==> HeaderAt(s, i, tokens)
    ensures BlankAt(s[r..], i - r) <==> BlankAt(s, i)
  {
    hide NameEnd;
    assert forall k :: At(s[r..], k) == At(s, r + k);
    forall t | 0 <= t < |tokens| ensures TokenAt(s[r..], i - r, tokens[t]) <==> TokenAt(s, i, tokens[t]) {
      TokenAlike(s, r, i, tokens[t]);
    }
    if i < |s| {
      assert s[r..][i - r] == s[i];
      NameEndAlike(s, r, i + 1);
    }
  }

  lemma TokenAlike(s: string, r: nat, i: nat, token: string)
    requires r <= i && r <= |s|
    ensures TokenAt(s[r..], i - r, token) <==> TokenAt(s, i, token)
  {
    var t := s[r..];
    if i + |token| <= |s| {
      if TokenAt(t, i - r, token) {
        forall k | 0 <= k < |token| ensures Lower(s[i + k]) == Lower(token[k]) {
          assert t[i - r + k] == s[i + k];
        }
      }
    }
  }

  lemma {:induction false} NameEndAlike(s: string, r: nat, i: nat)
    requires r <= i <= |s|
    ensures NameEnd(s[r..], i - r) == NameEnd(s, i) - r
    decreases |s| - i
  {
    if i < |s| && IsNameChar(s[i]) {
      NameEndAlike(s, r, i + 1);
    }
  }

  lemma {:induction false} AnchorAlike(s: string, r: nat, i: nat, a: nat)
    requires r <= i <= a < |s| && Anchor(s, i) == Some(a)
    ensures Anchor(s[r..], i - r) == Some(a - r)
    decreases a - i
  {
    SuffixAlike(s, r, i, []);
    if !BlankAt(s, i) {
      AnchorAlike(s, r, i + 1, a);
    }
  }

  lemma {:induction false} AnchorFrom(s: string, i: nat, r: nat, a: nat)
    requires i <= r <= a < |s| && Anchor(s, i) == Some(a)
    ensures Anchor(s, r) == Some(a)
    decreases r - i
  {
    if i < r {
      AnchorFrom(s, i + 1, r, a);
    }
  }

  /** The line before `pos`, when the text in front of `r` is cut off. */
  lemma LineStartAlike(s: string, r: nat, pos: nat)
    requires r <= pos <= |s|
    ensures var l := LineStart(s, pos); LineStart(s[r..], pos - r) == if r <= l then l - r else 0
  {
    SkipEolAlike(s, r, pos);
    AfterLfAlike(s, r, SkipEol(s, pos));
  }

  lemma {:induction false} SkipEolAlike(s: string, r: nat, p: nat)
    requires r <= p <= |s|
    ensures SkipEol(s[r..], p - r) == if r <= SkipEol(s, p) then SkipEol(s, p) - r else 0
  {
    if r < p {
      assert s[r..][p - r - 1] == s[p - 1];
      if IsEol(s[p - 1]) {
        SkipEolAlike(s, r, p - 1);
      }
    }
  }

  lemma {:induction false} AfterLfAlike(s: string, r: nat, p: nat)
    requires p <= |s| && r <= |s|
    ensures AfterLf(s[r..], if r <= p then p - r else 0) == if r <= AfterLf(s, p) then AfterLf(s, p) - r else 0
  {
    if r < p {
      assert s[r..][p - r - 1] == s[p - 1];
      if s[p - 1] != '\n' {
        AfterLfAlike(s, r, p - 1);
      }
    }
  }

  /** On the stripped text, the same walk arrives at its start. */
  lemma {:induction false} WalkAgain(s: string, tokens: seq<string>, pos: nat, r: nat)
    requires pos <= |s| && r == Walk(s, tokens, pos) > 0
    ensures Walk(s[r..], tokens, pos - r) == 0
    decreases pos
  {
    hide HeaderAt, LineStart;
    var l := LineStart(s, pos);
    LineStartAlike(s, r, pos);
    SuffixAlike(s, r, r, tokens);
    if HeaderAt(s, l, tokens) {
      SuffixAlike(s, r, l, tokens);
      if r < l {
        WalkAgain(s, tokens, l, r);
      }
    } else if r == pos {
      NothingInFront(s[r..], tokens);
    }
  }

  lemma NothingInFront(s: string, tokens: seq<string>)
    ensures Walk(s, tokens, 0) == 0
  {
  }

  /** Stripping the stripped text again changes nothing. */
  lemma StripTwice(s: string, tokens: seq<string>)
    ensures Strip(s[Strip(s, tokens)..], tokens) == 0
  {
    hide Walk, BlankAt;
    var r, a := Strip(s, tokens), Anchor(s, 0);
    if r == 0 {
      assert s[0..] == s;
    } else {
      AnchorFrom(s, 0, r, a.value);
      AnchorAlike(s, r, r, a.value);
      WalkAgain(s, tokens, a.value, r);
    }
  }

  // ----- where a name inside a line is cut

  /** A name in a line that is no header is cut down to its last letter: the cut is the last wildcard name. */
  lemma NameIsCutShort(s: string, tokens: seq<string>, lo: nat, pos: nat)
    requires lo <= pos <= |s|
    requires exists i :: lo <= i && i + 2 <= pos && WildcardAt(s, i)
    requires IsEol(At(s, pos)) || (pos > 0 && s[pos - 1] == '\n')
    ensures var b := Boundary(s, tokens, lo, pos);
      WildcardAt(s, b) && !IsAlpha(At(s, b + 1)) && forall i :: b < i && i + 2 <= pos ==> !WildcardAt(s, i)
  {
    var i :| lo <= i && i + 2 <= pos && WildcardAt(s, i);
    var b := LastWildcard(s, lo, pos - 1).value;
    NextLetter(s, b);
    assert IsEol(At(s, pos)) ==> NameEnd(s, pos) == pos;
  }

  lemma NextLetter(s: string, b: nat)
    requires WildcardAt(s, b)
    ensures IsAlpha(At(s, b + 1)) ==> WildcardAt(s, b + 1)
  {
    if IsAlpha(At(s, b + 1)) {
      assert NameEnd(s, b + 1) == NameEnd(s, b + 2);
    }
  }

  /** All tokens begin with two letters, as the built-in ones do. */
  predicate WordTokens(tokens: seq<string>) {
    forall t :: 0 <= t < |tokens| ==> |tokens[t]| >= 2 && IsAlpha(tokens[t][0]) && IsAlpha(tokens[t][1])
  }

  /**
    A whitelisted token inside a line that is no header is kept in full exactly when no wildcard name occurs in the
    line; a "Name: " with its blank is one.
    */
  lemma TokenIsKept(s: string, tokens: seq<string>, lo: nat, pos: nat)
    requires lo <= pos <= |s| && WordTokens(tokens)
    requires IsEol(At(s, pos)) || (pos > 0 && s[pos - 1] == '\n')
    requires LastToken(s, tokens, |tokens|, lo, pos).Some?
    ensures AnyTokenAt(s, Boundary(s, tokens, lo, pos), tokens) <==>
              forall i :: lo <= i && i + 2 <= pos ==> !WildcardAt(s, i)
  {
    if exists i :: lo <= i && i + 2 <= pos && WildcardAt(s, i) {
      NameIsCutShort(s, tokens, lo, pos);
      TwoLetters(s, Boundary(s, tokens, lo, pos), tokens);
    }
  }

  lemma TwoLetters(s: string, b: nat, tokens: seq<string>)
    requires WordTokens(tokens)
    ensures AnyTokenAt(s, b, tokens) ==> IsAlpha(At(s, b + 1))
  {
    if AnyTokenAt(s, b, tokens) {
      var t :| 0 <= t < |tokens| && TokenAt(s, b, tokens[t]);
      assert Lower(s[b + 1]) == Lower(tokens[t][1]);
    }
  }

  /** So the header that follows a word on its line is stripped down to the last letter of its name. */
  lemma NameLost()
    ensures Strip("a St: 1\n\n", ["St:"]) == 3 && "a St: 1\n\n"[3..] == "t: 1\n\n"
  {
    var s, tokens := "a St: 1\n\n", ["St:"];
    assert |s| == 9 && s[0] == 'a' && s[1] == ' ' && s[2] == 'S' && s[3] == 't' && s[4] == ':';
    assert s[5] == ' ' && s[6] == '1' && s[7] == '\n' && s[8] == '\n';
    hide TokenAt, Boundary;
    assert Anchor(s, 0) == Some(7) by { assert Anchor(s, 4) == Some(7); }
    assert SkipEol(s, 7) == 7 && LineStart(s, 7) == 0;
    assert !HeaderAt(s, 0, tokens) by { NoToken(s, 0, tokens); assert NameEnd(s, 1) == 1; }
    assert NameEnd(s, 4) == 4;
    assert WildcardAt(s, 3);
    NameIsCutShort(s, tokens, 0, 7);
  }

  lemma NoToken(s: string, i: nat, tokens: seq<string>)
    requires i < |s| && forall t :: 0 <= t < |tokens| ==> tokens[t] != "" && Lower(tokens[t][0]) != Lower(s[i])
    ensures !AnyTokenAt(s, i, tokens)
  {
    forall t | 0 <= t < |tokens| ensures !TokenAt(s, i, tokens[t]) {
      assert Lower(s[i + 0]) != Lower(tokens[t][0]);
    }
  }
}
