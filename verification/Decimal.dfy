/** Decimal numbers: simple_itoa and boa_atoi of src/util.c. */
module Decimal {
  import opened CStrings

  const INT_MAX := 0x7FFF_FFFF
  const UINT_MAX := 0xFFFF_FFFF

  predicate IsDigit(c: char) {
    '0' <= c <= '9'
  }

  function DigitOf(d: int): char
    requires 0 <= d < 10
  {
    ('0' as int + d) as char
  }

  function ValueOf(c: char): int {
    c as int - '0' as int
  }

  const NUMERALS: string := "0123456789"

  /** A digit stands for its place among the ten. */
  lemma DigitsAre(c: char, d: int)
    ensures IsDigit(c) <==> c in NUMERALS
    ensures 0 <= d < 10 ==> DigitOf(d) == NUMERALS[d] && ValueOf(NUMERALS[d]) == d
  {
    if IsDigit(c) {
      assert NUMERALS[ValueOf(c)] == c;
    }
  }

  predicate AllDigits(s: string) {
    forall i :: 0 <= i < |s| ==> IsDigit(s[i])
  }

  /** The decimal form of a number, without leading zeros. */
  function Dec(n: nat): (s: string)
    ensures |s| > 0 && AllDigits(s)
  {
    (if n < 10 then "" else Dec(n / 10)) + [DigitOf(n % 10)]
  }

  /** The number that a row of digits stands for. */
  function Number(s: string): nat
    requires AllDigits(s)
  {
    if s == "" then 0 else Number(s[..|s| - 1]) * 10 + ValueOf(s[|s| - 1])
  }

  lemma NumberStep(front: string, last: char)
    requires AllDigits(front) && IsDigit(last)
    ensures AllDigits(front + [last]) && Number(front + [last]) == Number(front) * 10 + ValueOf(last)
  {
    assert (front + [last])[..|front|] == front;
  }

  lemma DecStep(n: nat)
    ensures Dec(n) == (if n < 10 then "" else Dec(n / 10)) + [DigitOf(n % 10)]
  {
  }

  lemma NumberEmpty()
    ensures Number("") == 0
  {
  }

  /** The decimal form of a number stands for that number. */
  lemma {:induction false} NumberOfDec(n: nat)
    ensures Number(Dec(n)) == n
  {
    hide Dec, Number;
    DecStep(n);
    if n < 10 {
      NumberEmpty();
      NumberStep("", DigitOf(n % 10));
    } else {
      NumberOfDec(n / 10);
      NumberStep(Dec(n / 10), DigitOf(n % 10));
    }
  }

  lemma {:induction false} DecLength(n: nat, k: nat)
    requires n < Pow10(k) && k > 0
    ensures |Dec(n)| <= k
  {
    if n >= 10 {
      DecLength(n / 10, k - 1);
    }
  }

  function Pow10(k: nat): nat {
    if k == 0 then 1 else 10 * Pow10(k - 1)
  }

  /** Digits without a leading zero are the decimal form of their number. */
  lemma {:induction false} CanonicalIsDec(s: string)
    requires s != "" && AllDigits(s) && (s[0] != '0' || |s| == 1)
    ensures s == Dec(Number(s))
    ensures s[0] != '0' ==> Number(s) > 0
  {
    hide Dec, Number;
    var front, last := s[..|s| - 1], s[|s| - 1];
    assert s == front + [last];
    NumberStep(front, last);
    NumberEmpty();
    DecStep(Number(s));
    DivMod(Number(front), ValueOf(last));
    if |s| > 1 {
      CanonicalIsDec(front);
    }
  }

  /** Digits, and no zero in front of another digit. */
  predicate Canonical(s: string) {
    s != "" && AllDigits(s) && (s[0] != '0' || |s| == 1)
  }

  lemma {:induction false} DecIsCanonical(n: nat)
    ensures Canonical(Dec(n)) && (n > 0 ==> Dec(n)[0] != '0')
  {
    if n >= 10 {
      DecIsCanonical(n / 10);
    }
  }

  /** The canonical texts are the decimal forms of the numbers. */
  lemma CanonicalForms(s: string)
    ensures Canonical(s) ==> s == Dec(Number(s))
    ensures forall n: nat :: s == Dec(n) ==> Canonical(s) && Number(s) == n
  {
    if Canonical(s) {
      CanonicalIsDec(s);
    }
    forall n: nat | s == Dec(n) ensures Canonical(s) && Number(s) == n {
      DecIsCanonical(n);
      NumberOfDec(n);
    }
  }

  lemma DivMod(q: nat, r: nat)
    requires r < 10
    ensures (q * 10 + r) / 10 == q && (q * 10 + r) % 10 == r
  {
  }

  /** simple_itoa: the digits, written backwards into the end of a static buffer of 22 characters. */
  method SimpleItoa(i: nat, local: array<char>) returns (p: nat)
    requires i <= UINT_MAX && local.Length == 22
    modifies local
    ensures p + |Dec(i)| == 21 && local[21] == '\0'
    ensures forall k :: 0 <= k < |Dec(i)| ==> local[p + k] == Dec(i)[k]
    ensures CString(local[p..]) == Dec(i)
  {
    hide Dec;
    ghost var all := Dec(i);
    DecLength(i, 10) by { assert Pow10(10) == 10_000_000_000; }
    var n := i;
    p := 21;
    local[p] := '\0';
    DecStep(n);
    ghost var front := if n < 10 then "" else Dec(n / 10);
    p := p - 1;
    local[p] := DigitOf(n % 10);
    n := n / 10;
    while n != 0
      invariant |front| <= p && p + |all| == 21 + |front|
      invariant n == 0 <==> front == ""
      invariant n != 0 ==> front == Dec(n)
      invariant |front| <= |all| <= 10
      invariant forall k :: p <= k < 21 ==> local[k] == all[k - p + |front|]
      invariant forall k :: 0 <= k < |front| ==> all[k] == front[k]
      invariant local[21] == '\0'
    {
      DecStep(n);
      front := if n < 10 then "" else Dec(n / 10);
      p := p - 1;
      local[p] := DigitOf(n % 10);
      n := n / 10;
    }
    HoldsCString(local[..], p, all);
    assert local[..][p..] == local[p..];
  }

  // ----- boa_atoi

  function LeadingDigits(s: string): (d: string)
    ensures |d| <= |s| && d == s[..|d|] && AllDigits(d)
    ensures |d| < |s| ==> !IsDigit(s[|d|])
  {
    if s == "" || !IsDigit(s[0]) then "" else [s[0]] + LeadingDigits(s[1..])
  }

  /** atoi on a text that starts with a digit, saturating as a 32-bit strtol does. */
  function Atoi(s: string): (v: nat)
    ensures v <= INT_MAX
  {
    var n := Number(LeadingDigits(s));
    if n > INT_MAX then INT_MAX else n
  }

  lemma {:induction false} NumberBound(s: string)
    requires AllDigits(s)
    ensures Number(s) < Pow10(|s|)
  {
    if s != "" {
      NumberBound(s[..|s| - 1]);
    }
  }

  lemma {:induction false} Pow10Mono(j: nat, k: nat)
    requires j <= k
    ensures Pow10(j) <= Pow10(k)
  {
    if j < k {
      Pow10Mono(j, k - 1);
    }
  }

  /** A text that begins the decimal form of its own value is that decimal form. */
  lemma PrefixOfOwnValue(s: string)
    requires s != "" && s <= Dec(Atoi(s))
    ensures s == Dec(Atoi(s))
  {
    hide Dec, Number, LeadingDigits, Pow10;
    var d := Dec(Atoi(s));
    assert forall i :: 0 <= i < |s| ==> s[i] == d[i];
    assert LeadingDigits(s) == s;
    NumberBound(s);
    if Number(s) > INT_MAX {
      SmallPowers();
      DecLength(INT_MAX, 10);
      if |s| < 10 {
        Pow10Mono(|s|, 9);
      }
    } else {
      DecLength(Number(s), |s|);
    }
  }

  lemma SmallPowers()
    ensures Pow10(9) == 1_000_000_000 && Pow10(10) == 10_000_000_000
  {
    assert Pow10(5) == 100_000;
  }

  lemma OwnValue(s: string)
    ensures forall n: nat :: n <= INT_MAX && s == Dec(n) ==> s != "" && IsDigit(s[0]) && Atoi(s) == n
  {
    hide Dec, Number, LeadingDigits;
    forall n: nat | n <= INT_MAX && s == Dec(n)
      ensures s != "" && IsDigit(s[0]) && Atoi(s) == n
    {
      assert LeadingDigits(s) == s;
      NumberOfDec(n);
    }
  }

  /** boa_atoi: the value of a canonical decimal number, and -1 for everything else. */
  method BoaAtoi(s: string, local: array<char>) returns (r: int)
    requires local.Length == 22 && forall i :: 0 <= i < |s| ==> s[i] != '\0'
    modifies local
    ensures -1 <= r <= INT_MAX
    ensures forall n: nat :: n <= INT_MAX ==> (r == n <==> s == Dec(n))
    ensures r >= 0 <==> Canonical(s) && Number(s) <= INT_MAX
    ensures r >= 0 ==> r == Number(s)
  {
    hide Dec, Atoi, LeadingDigits, Number, Canonical;
    OwnValue(s);
    CanonicalForms(s);
    if s == "" || !IsDigit(s[0]) {
      return -1;
    }
    r := Atoi(s);
    var p := SimpleItoa(r, local);
    var same := BeginsBuffer(s, local, p, Dec(r));
    if !same {
      return -1;
    }
    PrefixOfOwnValue(s);
  }

  /** memcmp of all of `s` with the C string `d` at position `p`; the terminator stops it. */
  method BeginsBuffer(s: string, b: array<char>, p: nat, ghost d: string) returns (same: bool)
    requires p + |d| < b.Length && b[p + |d|] == '\0'
    requires forall k :: 0 <= k < |d| ==> b[p + k] == d[k]
    requires forall i :: 0 <= i < |s| ==> s[i] != '\0'
    ensures same <==> s <= d
  {
    var k := 0;
    while k < |s| && s[k] == b[p + k]
      invariant k <= |s| && k <= |d|
      invariant forall i :: 0 <= i < k ==> s[i] == d[i]
    {
      k := k + 1;
    }
    same := k == |s|;
    if same {
      assert s == d[..k];
    }
  }
}
