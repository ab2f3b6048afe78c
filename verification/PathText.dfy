/** The path cleaner of src/util.c: collapsing "//", "/./" and "/../" to "/". */
module PathText {
  import opened CStrings

  /** The three redexes and what each of them is rewritten to. */
  predicate IsRedex(x: string) {
    x == "//" || x == "/./" || x == "/../"
  }

  /** Some redex starts at the front of `s`. */
  predicate RedexAtFront(s: string) {
    |s| >= 2 && s[0] == '/' && SkipLength(s, 1) > 0
  }

  /** How much of a redundant segment the inner loop steps over at position `i`; 0 when it stops. */
  function SkipLength(s: string, i: nat): (n: nat)
    requires i <= |s|
    ensures i + n <= |s|
  {
    if i < |s| && s[i] == '/' then 1
    else if i + 1 < |s| && s[i] == '.' && s[i + 1] == '/' then 2
    else if i + 2 < |s| && s[i] == '.' && s[i + 1] == '.' && s[i + 2] == '/' then 3
    else 0
  }

  /** No redex occurs anywhere in `s`. */
  ghost predicate Normal(s: string) {
    forall i :: 0 <= i <= |s| ==> !RedexAtFront(s[i..])
  }

  /** `t` results from `s` by rewriting one redex, at any place. */
  ghost predicate Rewrites(s: string, t: string) {
    exists a, x, b :: IsRedex(x) && IsRewrite(s, t, a, x, b)
  }

  ghost predicate IsRewrite(s: string, t: string, a: string, x: string, b: string) {
    s == a + x + b && t == a + "/" + b
  }

  /** Consecutive entries of `path` are one rewriting step apart. */
  ghost predicate IsDerivation(path: seq<string>) {
    path != [] && forall i :: 0 <= i < |path| - 1 ==> Rewrites(path[i], path[i + 1])
  }

  /** What the inner loop skips after it has seen a '/'. */
  function SkipRedundant(s: string): (r: string)
    ensures |r| <= |s| && SkipLength(r, 0) == 0
  {
    var n := SkipLength(s, 0);
    if n == 0 then s else SkipRedundant(s[n..])
  }

  /** The cleaned path name. */
  function Clean(s: string): (r: string)
    ensures |r| <= |s|
    decreases |s|
  {
    if s == [] then []
    else if s[0] == '/' then ['/'] + Clean(SkipRedundant(s[1..]))
    else [s[0]] + Clean(s[1..])
  }

  // ----- Clean is invariant under rewriting

  /** Skipping past `a` either stops inside `a`, or cannot tell two slash-led remainders that skip alike apart. */
  lemma {:induction false} SkipAcross(a: string, u: string, v: string)
    requires u != "" && v != "" && u[0] == v[0] == '/' && SkipRedundant(u[1..]) == SkipRedundant(v[1..])
    ensures SkipRedundant(a + u) == SkipRedundant(a + v)
         || exists k :: 0 <= k < |a| && SkipRedundant(a + u) == a[k..] + u && SkipRedundant(a + v) == a[k..] + v
  {
    var n := SkipLength(a, 0);
    if a == "" {
      assert a + u == u && a + v == v;
    } else if n > 0 {
      SkipLocal(a, u);
      SkipLocal(a, v);
      SkipAcross(a[n..], u, v);
      if SkipRedundant(a[n..] + u) != SkipRedundant(a[n..] + v) {
        var k :| 0 <= k < |a[n..]| && SkipRedundant(a[n..] + u) == a[n..][k..] + u
                                   && SkipRedundant(a[n..] + v) == a[n..][k..] + v;
        assert a[n..][k..] == a[n + k..];
      }
    } else {
      SkipLocal(a, u);
      SkipLocal(a, v);
      assert a[0..] == a;
    }
  }

  /** One step of the skip loop at the front of a + w, where `w` starts with a slash. */
  lemma SkipLocal(a: string, w: string)
    requires a != "" && w != "" && w[0] == '/'
    ensures SkipLength(a, 0) > 0 ==> SkipRedundant(a + w) == SkipRedundant(a[SkipLength(a, 0)..] + w)
    ensures SkipLength(a, 0) == 0 ==>
              SkipRedundant(a + w) == if a == "." || a == ".." then SkipRedundant(w[1..]) else a + w
  {
    hide *;
    SkipOnce(a + w);
    SkipInFront(a, w);
    Tails(a, w, SkipLength(a, 0));
  }

  lemma Tails(a: string, w: string, n: nat)
    requires n <= |a| && w != ""
    ensures (a + w)[n..] == a[n..] + w && (a + w)[|a| + 1..] == w[1..]
  {
  }

  lemma SkipOnce(s: string)
    ensures SkipRedundant(s) == if SkipLength(s, 0) == 0 then s else SkipRedundant(s[SkipLength(s, 0)..])
  {
  }

  lemma SkipInFront(a: string, w: string)
    requires a != "" && w != "" && w[0] == '/'
    ensures SkipLength(a + w, 0) ==
              if SkipLength(a, 0) == 0 && (a == "." || a == "..") then |a| + 1 else SkipLength(a, 0)
  {
    assert forall i :: 0 <= i < |a| ==> (a + w)[i] == a[i];
    assert (a + w)[|a|] == w[0];
  }

  /** After the leading slash, a redex skips to the same place as a plain slash. */
  lemma SkipTail(x: string, b: string)
    requires IsRedex(x)
    ensures SkipRedundant((x + b)[1..]) == SkipRedundant(b)
    ensures SkipRedundant(x + b) == SkipRedundant("/" + b) == SkipRedundant(b)
  {
    var t := (x + b)[1..];
    assert ("/" + b)[1..] == b;
    var n := |x| - 1;
    assert t[n..] == b;
    assert (x + b)[1] == x[1];
    if x == "/./" {
      assert (x + b)[2] == '/';
    } else if x == "/../" {
      assert (x + b)[2] == '.' && (x + b)[3] == '/';
    }
    assert SkipLength(t, 0) == n;
  }

  /** Rewriting a redex at any place does not change the cleaned text. */
  lemma CleanInvariant(a: string, x: string, b: string)
    requires IsRedex(x)
    ensures Clean(a + x + b) == Clean(a + "/" + b)
  {
    SkipTail(x, b);
    Regroup(a, x, b);
    Regroup(a, "/", b);
    CleanAlike(a, x + b, "/" + b);
  }

  lemma Regroup(a: string, x: string, b: string)
    ensures a + x + b == a + (x + b)
    ensures x != "" ==> (x + b)[0] == x[0] && (x + b)[1..] == x[1..] + b
    ensures x == "/" ==> (x + b)[1..] == b
  {
  }

  lemma {:induction false} CleanAlike(a: string, u: string, v: string)
    requires u != "" && v != "" && u[0] == v[0] == '/' && SkipRedundant(u[1..]) == SkipRedundant(v[1..])
    ensures Clean(a + u) == Clean(a + v)
    decreases |a|
  {
    if a == "" {
      assert a + u == u && a + v == v;
    } else {
      assert (a + u)[1..] == a[1..] + u && (a + v)[1..] == a[1..] + v;
      if a[0] == '/' {
        SkipAcross(a[1..], u, v);
        if SkipRedundant(a[1..] + u) != SkipRedundant(a[1..] + v) {
          var k :| 0 <= k < |a[1..]| && SkipRedundant(a[1..] + u) == a[1..][k..] + u
                                     && SkipRedundant(a[1..] + v) == a[1..][k..] + v;
          CleanAlike(a[1..][k..], u, v);
        }
      } else {
        CleanAlike(a[1..], u, v);
      }
    }
  }

  // ----- the cleaned text is normal, and normal text is left alone

  /** A text that the skip loop would leave alone is still one after cleaning. */
  lemma CleanSettled(s: string)
    requires SkipLength(s, 0) == 0
    ensures SkipLength(Clean(s), 0) == 0
  {
    if |s| >= 2 && s[0] == '.' {
      assert Clean(s) == ['.'] + Clean(s[1..]);
      if |s| >= 3 && s[1] == '.' {
        assert Clean(s[1..]) == ['.'] + Clean(s[1..][1..]);
        assert s[1..][1..] == s[2..];
      }
    }
  }

  /** The cleaned text contains none of the three redexes. */
  lemma {:induction false} CleanIsNormal(s: string)
    ensures Normal(Clean(s))
    decreases |s|
  {
    if s != "" {
      var rest := if s[0] == '/' then SkipRedundant(s[1..]) else s[1..];
      var c := Clean(s);
      CleanIsNormal(rest);
      assert c == [s[0]] + Clean(rest);
      forall i | 0 <= i <= |c| ensures !RedexAtFront(c[i..]) {
        if i > 0 {
          assert c[i..] == Clean(rest)[i - 1..];
        } else if s[0] == '/' {
          CleanSettled(rest);
          assert c[1..] == Clean(rest) && c[0..] == c;
        }
      }
    } else {
      assert Clean(s) == "";
    }
  }

  lemma {:induction false} NormalIsFixed(s: string)
    requires Normal(s)
    ensures Clean(s) == s
  {
    if s != "" {
      forall i | 0 <= i <= |s[1..]| ensures !RedexAtFront(s[1..][i..]) {
        assert s[1..][i..] == s[i + 1..];
      }
      NormalIsFixed(s[1..]);
      if s[0] == '/' {
        assert s[0..] == s;
      }
    }
  }

  lemma CleanIdempotent(s: string)
    ensures Clean(Clean(s)) == Clean(s)
  {
    CleanIsNormal(s);
    NormalIsFixed(Clean(s));
  }

  /** Cleaning only removes characters. */
  lemma {:induction false} CleanKeepsCharacters(s: string)
    ensures forall c :: c in Clean(s) ==> c in s
    decreases |s|
  {
    if s != "" {
      SkipKeepsCharacters(s[1..]);
      CleanKeepsCharacters(if s[0] == '/' then SkipRedundant(s[1..]) else s[1..]);
    }
  }

  lemma {:induction false} SkipKeepsCharacters(s: string)
    ensures forall c :: c in SkipRedundant(s) ==> c in s
  {
    var n := SkipLength(s, 0);
    if n > 0 {
      SkipKeepsCharacters(s[n..]);
    }
  }

  // ----- uniqueness of the normal form

  /** Rewriting steps never change the cleaned text. */
  lemma {:induction false} DerivationKeepsClean(path: seq<string>)
    requires IsDerivation(path)
    ensures Clean(path[|path| - 1]) == Clean(path[0])
  {
    if |path| > 1 {
      assert Rewrites(path[0], path[1]);
      var a, x, b :| IsRedex(x) && IsRewrite(path[0], path[1], a, x, b);
      CleanInvariant(a, x, b);
      forall i | 0 <= i < |path[1..]| - 1 ensures Rewrites(path[1..][i], path[1..][i + 1]) {
        assert Rewrites(path[i + 1], path[i + 2]);
      }
      DerivationKeepsClean(path[1..]);
    }
  }

  lemma CutAtRedex(s: string, i: nat) returns (a: string, x: string, b: string)
    requires i <= |s| && RedexAtFront(s[i..])
    ensures IsRedex(x) && IsRewrite(s, a + "/" + b, a, x, b)
  {
    var n := SkipLength(s[i..], 1);
    a, x, b := s[..i], s[i..i + n + 1], s[i + n + 1..];
    assert s[i..][0] == s[i];
    assert x == if n == 1 then "//" else if n == 2 then "/./" else "/../";
    assert s == a + x + b;
  }

  /** The cleaned text is reached from the input by rewriting steps. */
  lemma {:induction false} CleanIsReached(s: string) returns (path: seq<string>)
    ensures IsDerivation(path) && path[0] == s && path[|path| - 1] == Clean(s)
    decreases |s|
  {
    if Normal(s) {
      NormalIsFixed(s);
      path := [s];
    } else {
      var i :| 0 <= i <= |s| && RedexAtFront(s[i..]);
      var a, x, b := CutAtRedex(s, i);
      var t := a + "/" + b;
      CleanInvariant(a, x, b);
      var rest := CleanIsReached(t);
      path := [s] + rest;
      forall j | 0 <= j < |path| - 1 ensures Rewrites(path[j], path[j + 1]) {
        if j > 0 {
          assert path[j] == rest[j - 1] && path[j + 1] == rest[j];
        }
      }
    }
  }

  /** Every way of rewriting `s` until nothing is left to rewrite ends in Clean(s), and one such way exists. */
  lemma CleanIsTheNormalForm(s: string)
    ensures exists path :: IsDerivation(path) && path[0] == s && path[|path| - 1] == Clean(s)
    ensures Normal(Clean(s))
    ensures forall path :: IsDerivation(path) && path[0] == s && Normal(path[|path| - 1])
                           ==> path[|path| - 1] == Clean(s)
  {
    var _ := CleanIsReached(s);
    CleanIsNormal(s);
    forall path | IsDerivation(path) && path[0] == s && Normal(path[|path| - 1])
      ensures path[|path| - 1] == Clean(s)
    {
      DerivationKeepsClean(path);
      NormalIsFixed(path[|path| - 1]);
    }
  }

  // ----- the in-place loop

  /** How the two pure functions move along a fixed text. */
  lemma CleanStep(s: string, i: nat)
    requires i < |s|
    ensures Clean(s[i..]) == [s[i]] + Clean(if s[i] == '/' then SkipRedundant(s[i + 1..]) else s[i + 1..])
  {
    assert s[i..][1..] == s[i + 1..];
  }

  lemma CleanEmpty()
    ensures Clean("") == ""
  {
  }

  lemma SkipStep(s: string, i: nat)
    requires i <= |s|
    ensures SkipRedundant(s[i..]) == var n := SkipLength(s, i); if n == 0 then s[i..] else SkipRedundant(s[i + n..])
  {
    var n := SkipLength(s, i);
    assert SkipLength(s[i..], 0) == n;
    assert s[i..][n..] == s[i + n..];
  }

  /** clean_pathname, called on the C string at the front of a buffer. */
  method CleanPathname(pathname: array<char>)
    requires '\0' in pathname[..]
    modifies pathname
    ensures var s, c := CString(old(pathname[..])), Clean(CString(old(pathname[..])));
            pathname[..] == c + ['\0'] + old(pathname[..])[|c| + 1..]
  {
    ghost var before := pathname[..];
    CompactInPlace(pathname, CString(before));
    Assemble(pathname[..], Clean(CString(before)), before);
  }

  /** The body of clean_pathname: one pass with a read and a write position over the same buffer. */
  method CompactInPlace(pathname: array<char>, ghost s: string)
    requires |s| < pathname.Length && pathname[|s|] == '\0'
    requires forall i :: 0 <= i < |s| ==> pathname[i] == s[i] != '\0'
    modifies pathname
    ensures forall i :: 0 <= i < |Clean(s)| ==> pathname[i] == Clean(s)[i]
    ensures pathname[|Clean(s)|] == '\0'
    ensures forall i :: |Clean(s)| < i < pathname.Length ==> pathname[i] == old(pathname[i])
  {
    hide SkipRedundant, Clean;
    ghost var out := Clean(s);
    var read, write := 0, 0;
    assert s[0..] == s && out[0..] == out;
    while pathname[read] != '\0'
      invariant write <= read <= |s|
      invariant write <= |out| && out[write..] == Clean(s[read..])
      invariant forall i :: 0 <= i < write ==> pathname[i] == out[i]
      invariant forall i :: write <= i < pathname.Length ==> pathname[i] == old(pathname[i])
      decreases |s| - read
    {
      var c := pathname[read];
      CleanStep(s, read);
      NextOut(out, write, c, if c == '/' then SkipRedundant(s[read + 1..]) else s[read + 1..]);
      read := read + 1;
      if c == '/' {
        read := SkipSegments(pathname, read, s);
      }
      pathname[write] := c;
      write := write + 1;
    }
    CleanEmpty();
    assert s[read..] == "";
    pathname[write] := '\0';
  }

  lemma NextOut(out: string, w: nat, c: char, rest: string)
    requires w <= |out| && out[w..] == [c] + Clean(rest)
    ensures w < |out| && out[w] == c && out[w + 1..] == Clean(rest)
  {
    assert out[w + 1..] == out[w..][1..];
    assert out[w..][0] == out[w];
  }

  /** The inner loop of clean_pathname. */
  method SkipSegments(pathname: array<char>, start: nat, ghost s: string) returns (read: nat)
    requires start <= |s| < pathname.Length && pathname[|s|] == '\0'
    requires forall i :: start <= i < |s| ==> pathname[i] == s[i]
    ensures start <= read <= |s|
    ensures s[read..] == SkipRedundant(s[start..])
  {
    hide SkipRedundant;
    read := start;
    while true
      invariant start <= read <= |s|
      invariant SkipRedundant(s[read..]) == SkipRedundant(s[start..])
      decreases |s| - read
    {
      SkipStep(s, read);
      if pathname[read] == '/' {
        read := read + 1;
      } else if pathname[read] == '.' && pathname[read + 1] == '/' {
        read := read + 2;
      } else if pathname[read] == '.' && pathname[read + 1] == '.' && pathname[read + 2] == '/' {
        read := read + 3;
      } else {
        break;
      }
    }
  }
}
