/** The bitmap of characters that need escaping: src/escape.c and src/escape.h. */
module Escape {

  const NEEDS_ESCAPE_BITS := 128
  const WORD_LENGTH := 32
  const WORDS := 4

  /** The characters that pass through un-escaped, in the order of the source. */
  const UPPER: string := "ABCDEFGHIJKLMNOPQRSTUVWXYZ"
  const LOWER: string := "abcdefghijklmnopqrstuvwxyz"
  const DIGITS: string := "0123456789"
  const MARKS: string := "-_.!~*'():@&=+$,/?"
  const SPECIAL: string := UPPER + LOWER + DIGITS + MARKS

  /** What the bitmap stands for. */
  predicate NeedsEscape(c: char) {
    c as int >= NEEDS_ESCAPE_BITS || c !in SPECIAL
  }

  /** Section 2.4.1 of RFC 2396, plus '?', as ranges and marks. */
  predicate IsPlain(c: char) {
    'A' <= c <= 'Z' || 'a' <= c <= 'z' || '0' <= c <= '9' ||
    c == '-' || c == '_' || c == '.' || c == '!' || c == '~' || c == '*' || c == '\'' || c == '(' || c == ')' ||
    c == ':' || c == '@' || c == '&' || c == '=' || c == '+' || c == '$' || c == ',' || c == '/' || c == '?'
  }

  /** NEEDS_ESCAPE_MASK */
  function Mask(bit: nat): bv32
    requires bit < WORD_LENGTH
  {
    1 << bit
  }

  predicate BitSet(w: bv32, bit: nat)
    requires bit < WORD_LENGTH
  {
    Meets(w, Mask(bit))
  }

  predicate Meets(w: bv32, m: bv32) {
    w & m != 0
  }

  function Without(w: bv32, m: bv32): bv32 {
    w & !m
  }

  lemma MasksDiffer(bit: nat, other: nat)
    requires bit < WORD_LENGTH && other < WORD_LENGTH
    ensures Mask(bit) != 0
    ensures bit != other ==> !Meets(Mask(bit), Mask(other))
  {
  }

  lemma WithoutMeets(w: bv32, m: bv32, n: bv32)
    ensures !Meets(Without(w, m), m)
    ensures !Meets(m, n) ==> (Meets(Without(w, m), n) <==> Meets(w, n))
  {
    assert m & n == 0 ==> w & !m & n == w & n;
  }

  lemma ClearBit(w: bv32, bit: nat, other: nat)
    requires bit < WORD_LENGTH && other < WORD_LENGTH
    ensures BitSet(Without(w, Mask(bit)), other) <==> BitSet(w, other) && other != bit
  {
    hide Mask, Meets, Without;
    MasksDiffer(bit, other);
    WithoutMeets(w, Mask(bit), Mask(other));
  }

  lemma AllOnes(bit: nat)
    requires bit < WORD_LENGTH
    ensures BitSet(0xFFFF_FFFF, bit)
  {
  }

  /** A run of consecutive characters holds exactly the characters between its ends. */
  lemma RunHolds(run: string, first: char, c: char)
    requires forall i :: 0 <= i < |run| ==> run[i] as int == first as int + i
    ensures c in run <==> first as int <= c as int < first as int + |run|
  {
    if first as int <= c as int < first as int + |run| {
      assert run[c as int - first as int] == c;
    }
  }

  /** The special characters of the source are the unreserved and no-escape characters, with '?'. */
  lemma SpecialIsPlain(c: char)
    ensures c in SPECIAL <==> IsPlain(c)
  {
    RunHolds(UPPER, 'A', c);
    RunHolds(LOWER, 'a', c);
    RunHolds(DIGITS, '0', c);
  }

  /** The macro needs_escape on the words of the bitmap. */
  predicate BitOf(words: seq<bv32>, c: char)
    requires |words| == WORDS
  {
    c as int >= NEEDS_ESCAPE_BITS || BitSet(words[c as int / WORD_LENGTH], c as int % WORD_LENGTH)
  }

  /** The bitmap marks every character but those of `done` (and marks all that are out of range). */
  ghost predicate Marks(words: seq<bv32>, done: string) {
    |words| == WORDS &&
    forall c: char :: BitOf(words, c) <==> c as int >= NEEDS_ESCAPE_BITS || c !in done
  }

  /** The bitmap after the statement that clears the bit of `c`. */
  function Cleared(words: seq<bv32>, c: char): (now: seq<bv32>)
    requires |words| == WORDS && (c as int) < NEEDS_ESCAPE_BITS
    ensures |now| == WORDS
  {
    var k := c as int / WORD_LENGTH;
    words[k := Without(words[k], Mask(c as int % WORD_LENGTH))]
  }

  lemma ClearedAt(words: seq<bv32>, c: char, d: char)
    requires |words| == WORDS && (c as int) < NEEDS_ESCAPE_BITS
    ensures BitOf(Cleared(words, c), d) <==> BitOf(words, d) && c != d
  {
    hide BitSet, Mask, Without;
    if (d as int) < NEEDS_ESCAPE_BITS {
      SameBit(c as int, d as int);
      ClearInWord(words, c as int / WORD_LENGTH, c as int % WORD_LENGTH,
                  d as int / WORD_LENGTH, d as int % WORD_LENGTH);
    }
  }

  lemma ClearInWord(words: seq<bv32>, k: nat, bit: nat, l: nat, other: nat)
    requires k < |words| && l < |words| && bit < WORD_LENGTH && other < WORD_LENGTH
    ensures BitSet(words[k := Without(words[k], Mask(bit))][l], other) <==>
              BitSet(words[l], other) && !(k == l && bit == other)
  {
    hide BitSet, Mask, Without;
    ClearBit(words[k], bit, other);
  }

  lemma SameBit(j: nat, k: nat)
    ensures j == k <==> j / WORD_LENGTH == k / WORD_LENGTH && j % WORD_LENGTH == k % WORD_LENGTH
  {
  }

  lemma MarkOne(words: seq<bv32>, done: string, c: char)
    requires Marks(words, done) && (c as int) < NEEDS_ESCAPE_BITS
    ensures Marks(Cleared(words, c), done + [c])
  {
    var now := Cleared(words, c);
    forall d: char
      ensures BitOf(now, d) <==> d as int >= NEEDS_ESCAPE_BITS || d !in done + [c]
    {
      ClearedAt(words, c, d);
    }
  }

  /** The bitmap with every bit set marks every character. */
  lemma AllMarked(words: seq<bv32>)
    requires |words| == WORDS && forall k :: 0 <= k < WORDS ==> words[k] == 0xFFFF_FFFF
    ensures Marks(words, "")
  {
    forall c: char
      ensures BitOf(words, c)
    {
      AllOnes(c as int % WORD_LENGTH);
    }
  }

  /** build_needs_escape */
  method BuildNeedsEscape(words: array<bv32>)
    requires words.Length == WORDS
    modifies words
    ensures Marks(words[..], SPECIAL)
  {
    hide BitOf, Mask, SPECIAL;
    forall k | 0 <= k < WORDS {
      words[k] := 0xFFFF_FFFF;
    }
    AllMarked(words[..]);
    assert SPECIAL[..0] == "";
    for i := 0 to |SPECIAL|
      invariant Marks(words[..], SPECIAL[..i])
    {
      var j := SPECIAL[i];
      assert SPECIAL[..i + 1] == SPECIAL[..i] + [j];
      if j as int >= NEEDS_ESCAPE_BITS {
        // such a character is needlessly escaped
      } else {
        MarkOne(words[..], SPECIAL[..i], j);
        var k := j as int / WORD_LENGTH;
        ghost var now := Cleared(words[..], j);
        words[k] := words[k] & !Mask(j as int % WORD_LENGTH);
        assert words[..] == now;
      }
    }
    assert SPECIAL[..|SPECIAL|] == SPECIAL;
  }

  class EscapeTable {
    const words: array<bv32>

    ghost predicate Built()
      reads words
    {
      words.Length == WORDS && Marks(words[..], SPECIAL)
    }

    constructor ()
      ensures Built() && fresh(words)
    {
      words := new bv32[WORDS];
      new;
      BuildNeedsEscape(words);
    }

    /** The macro needs_escape. */
    predicate Test(c: char)
      requires words.Length == WORDS
      reads words
    {
      BitOf(words[..], c)
    }
  }

  lemma MarkedIsNeeded(words: seq<bv32>, c: char)
    requires Marks(words, SPECIAL)
    ensures BitOf(words, c) <==> NeedsEscape(c)
  {
  }

  /** The bitmap agrees with the set of special characters. */
  lemma TestIsNeedsEscape(words: seq<bv32>, c: char)
    requires Marks(words, SPECIAL)
    ensures BitOf(words, c) <==> !IsPlain(c)
  {
    SpecialIsPlain(c);
  }
}
