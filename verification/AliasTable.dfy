/** The hashed index of Alias, ScriptAlias and Redirect names: src/alias.c. */
module AliasTable {
  import opened CStrings
  import opened Limits

  const ALIAS_HASHTABLE_SIZE := 17

  datatype AliasType = ALIAS | SCRIPTALIAS | REDIRECT

  /** What one call of add_alias asks for. */
  datatype Entry = Entry(fakename: string, realname: string, kind: AliasType)

  // ----- the hash

  /** Adds the characters up to the next '/', in an `unsigned int`. */
  function SumUpToSlash(s: string, hash: nat): nat {
    if s == "" || s[0] == '/' then hash else SumUpToSlash(s[1..], (hash + s[0] as int) % WORD_SIZE)
  }

  function Hash(file: string): (h: nat)
    ensures h < ALIAS_HASHTABLE_SIZE
  {
    if file == "" then 0
    else SumUpToSlash(file[1..], file[0] as int % WORD_SIZE) % ALIAS_HASHTABLE_SIZE
  }

  /** get_alias_hash_value */
  method GetAliasHashValue(file: string) returns (h: nat)
    ensures h == Hash(file)
  {
    if file == "" {
      return 0;
    }
    var hash := file[0] as int % WORD_SIZE;
    var i := 1;
    while i < |file| && file[i] != '/'
      invariant 1 <= i <= |file| && hash >= 0
      invariant SumUpToSlash(file[i..], hash) == SumUpToSlash(file[1..], file[0] as int % WORD_SIZE)
    {
      assert file[i..][1..] == file[i + 1..];
      hash := (hash + file[i] as int) % WORD_SIZE;
      i := i + 1;
    }
    return hash % ALIAS_HASHTABLE_SIZE;
  }

  // ----- the prefix rule, and a linear scan by it

  /** The name is a prefix of the URI, and ends in '/' or is followed by '/' or by nothing. */
  predicate Matches(fakename: string, uri: string) {
    fakename != "" && fakename <= uri &&
    (fakename[|fakename| - 1] == '/' || |uri| == |fakename| || uri[|fakename|] == '/')
  }

  /** The test as it is written in find_alias. */
  lemma MatchTest(fakename: string, uri: string)
    requires fakename != ""
    ensures Matches(fakename, uri) <==>
              |fakename| <= |uri| && uri[..|fakename|] == fakename &&
              (fakename[|fakename| - 1] == '/' ||
               (fakename[|fakename| - 1] != '/' && (|uri| == |fakename| || uri[|fakename|] == '/')))
  {
  }

  /** The first entry that matches. */
  function FirstMatch(es: seq<Entry>, uri: string): Option<Entry> {
    if es == [] then None else if Matches(es[0].fakename, uri) then Some(es[0]) else FirstMatch(es[1..], uri)
  }

  /** The entries whose names hash to `h`. */
  function WithHash(es: seq<Entry>, h: nat): seq<Entry> {
    if es == [] then []
    else WithHash(es[..|es| - 1], h) + if Hash(es[|es| - 1].fakename) == h then [es[|es| - 1]] else []
  }

  lemma {:induction false} FirstMatchSnoc(es: seq<Entry>, e: Entry, uri: string)
    ensures FirstMatch(es + [e], uri) ==
      var f := FirstMatch(es, uri); if f == None && Matches(e.fakename, uri) then Some(e) else f
  {
    if es == [] {
      assert ([] + [e])[1..] == [];
    } else {
      assert (es + [e])[1..] == es[1..] + [e];
      FirstMatchSnoc(es[1..], e, uri);
    }
  }

  lemma {:induction false} SumPastPrefix(f: string, u: string, hash: nat)
    requires f <= u && (|f| == |u| || u[|f|] == '/' || exists i :: 0 <= i < |f| && f[i] == '/')
    ensures SumUpToSlash(f, hash) == SumUpToSlash(u, hash)
  {
    if f == "" {
    } else if f[0] != '/' {
      if exists i :: 0 <= i < |f| && f[i] == '/' {
        var i :| 0 <= i < |f| && f[i] == '/';
        assert f[1..][i - 1] == '/';
      }
      SumPastPrefix(f[1..], u[1..], (hash + f[0] as int) % WORD_SIZE);
    }
  }

  /** A name other than "/" that matches a URI has the hash of the URI. */
  lemma MatchHasHash(fakename: string, uri: string)
    requires Matches(fakename, uri) && uri[0] == '/' && fakename != "/"
    ensures Hash(fakename) == Hash(uri)
  {
    var n := |fakename|;
    if n > 1 && fakename[n - 1] == '/' {
      assert fakename[1..][n - 2] == '/';
    }
    SumPastPrefix(fakename[1..], uri[1..], fakename[0] as int % WORD_SIZE);
  }

  /** Looking at one bucket only, and looking at all entries. */
  lemma {:induction false} BucketScan(es: seq<Entry>, uri: string)
    requires "/" <= uri
    ensures var all, some := FirstMatch(es, uri), FirstMatch(WithHash(es, Hash(uri)), uri);
      all == some <==> !(all.Some? && all.value.fakename == "/" && Hash(uri) != Hash("/"))
    ensures FirstMatch(WithHash(es, Hash(uri)), uri).Some? ==> FirstMatch(es, uri).Some?
    ensures var some := FirstMatch(WithHash(es, Hash(uri)), uri); some.Some? ==> Hash(some.value.fakename) == Hash(uri)
  {
    hide Hash, Matches;
    if es != [] {
      var front, e := es[..|es| - 1], es[|es| - 1];
      assert es == front + [e];
      BucketScan(front, uri);
      FirstMatchSnoc(front, e, uri);
      FirstMatchSnoc(WithHash(front, Hash(uri)), e, uri);
      if Matches(e.fakename, uri) && e.fakename != "/" {
        SameHash(e.fakename, uri);
      }
      assert WithHash(front, Hash(uri)) + [] == WithHash(front, Hash(uri));
    }
  }

  /** The alias "/" is not found for a URI with another hash. */
  lemma RootIsMissed()
    ensures var adds := [Entry("/", "/srv", ALIAS)];
      FirstMatch(adds, "/a") == Some(adds[0]) && FirstMatch(WithHash(adds, Hash("/a")), "/a") == None
  {
    assert "/a"[1..] == "a" && "/"[1..] == "" && "a"[1..] == "";
    assert SumUpToSlash("a", 47) == SumUpToSlash("", 144);
    assert Hash("/") == 13 && Hash("/a") == 8;
  }

  lemma SameHash(fakename: string, uri: string)
    requires Matches(fakename, uri) && "/" <= uri && fakename != "/"
    ensures Hash(fakename) == Hash(uri)
  {
    assert uri[0] == "/"[0];
    MatchHasHash(fakename, uri);
  }

  // ----- the table

  /** A node of a bucket; the ghost fields record the bucket it is in, and its place there. */
  class Alias {
    const fakename: string
    const realname: string
    const kind: AliasType
    var next: Alias?
    ghost var bucket: nat
    ghost var rank: nat

    constructor (fakename: string, realname: string, kind: AliasType)
      ensures this.fakename == fakename && this.realname == realname && this.kind == kind && next == null
    {
      this.fakename, this.realname, this.kind, next := fakename, realname, kind, null;
    }

    function Asked(): Entry {
      Entry(fakename, realname, kind)
    }
  }

  /** `head` starts the null-terminated chain of bucket `h`. */
  ghost predicate BucketChain(head: Alias?, s: seq<Alias>, h: nat)
    reads s
  {
    && head == (if s == [] then null else s[0])
    && (s != [] ==> s[|s| - 1].next == null)
    && (forall i {:trigger s[i].next} :: 0 <= i < |s| - 1 ==> s[i].next == s[i + 1])
    && (forall i {:trigger s[i].bucket} :: 0 <= i < |s| ==> s[i].bucket == h)
    && (forall i {:trigger s[i].rank} :: 0 <= i < |s| ==> s[i].rank == i)
    && (forall i {:trigger s[i].fakename} :: 0 <= i < |s| ==> s[i].fakename != "" && Hash(s[i].fakename) == h)
  }

  function View(s: seq<Alias>): seq<Entry> {
    seq(|s|, i requires 0 <= i < |s| => s[i].Asked())
  }

  lemma ViewAt(s: seq<Alias>)
    ensures |View(s)| == |s| && forall i :: 0 <= i < |s| ==> View(s)[i] == s[i].Asked()
  {
  }

  /** For every URI of the bucket, the nodes give the answer of all the calls that went to the bucket. */
  ghost predicate Answers(s: seq<Alias>, adds: seq<Entry>, h: nat) {
    forall uri :: FirstMatch(View(s), uri) == FirstMatch(WithHash(adds, h), uri)
  }

  lemma AnswersNew(s: seq<Alias>, adds: seq<Entry>, a: Alias, h: nat)
    requires Answers(s, adds, h) && Hash(a.fakename) == h
    ensures Answers(s + [a], adds + [a.Asked()], h)
  {
    hide Hash, Matches;
    assert View(s + [a]) == View(s) + [a.Asked()];
    assert (adds + [a.Asked()])[..|adds|] == adds;
    forall uri ensures FirstMatch(View(s + [a]), uri) == FirstMatch(WithHash(adds + [a.Asked()], h), uri) {
      FirstMatchSnoc(View(s), a.Asked(), uri);
      FirstMatchSnoc(WithHash(adds, h), a.Asked(), uri);
    }
  }

  /** A call for a name that the bucket has already does not change any answer. */
  lemma AnswersAgain(s: seq<Alias>, adds: seq<Entry>, e: Entry, h: nat, k: nat)
    requires Answers(s, adds, h) && Hash(e.fakename) == h && k < |s| && s[k].fakename == e.fakename
    ensures Answers(s, adds + [e], h)
  {
    hide Hash, Matches;
    assert (adds + [e])[..|adds|] == adds;
    forall uri ensures FirstMatch(View(s), uri) == FirstMatch(WithHash(adds + [e], h), uri) {
      FirstMatchSnoc(WithHash(adds, h), e, uri);
      if Matches(e.fakename, uri) {
        SomeMatch(View(s), uri, k);
      }
    }
  }

  lemma AnswersFor(s: seq<Alias>, adds: seq<Entry>, h: nat, uri: string)
    requires Answers(s, adds, h)
    ensures FirstMatch(View(s), uri) == FirstMatch(WithHash(adds, h), uri)
  {
  }

  lemma AnswersElsewhere(s: seq<Alias>, adds: seq<Entry>, e: Entry, h: nat)
    requires Answers(s, adds, h) && Hash(e.fakename) != h
    ensures Answers(s, adds + [e], h)
  {
    assert (adds + [e])[..|adds|] == adds;
    assert WithHash(adds, h) + [] == WithHash(adds, h);
  }

  lemma {:induction false} SomeMatch(es: seq<Entry>, uri: string, k: nat)
    requires k < |es| && Matches(es[k].fakename, uri)
    ensures FirstMatch(es, uri).Some?
  {
    if k > 0 {
      SomeMatch(es[1..], uri, k - 1);
    }
  }

  /** All buckets answer for one call more, when the bucket of the name does. */
  lemma AnswersOthers(bs: seq<seq<Alias>>, adds: seq<Entry>, e: Entry, now: seq<seq<Alias>>)
    requires |bs| == ALIAS_HASHTABLE_SIZE && forall h :: 0 <= h < |bs| ==> Answers(bs[h], adds, h)
    requires |now| == |bs| && now == bs[Hash(e.fakename) := now[Hash(e.fakename)]]
    requires Answers(now[Hash(e.fakename)], adds + [e], Hash(e.fakename))
    ensures forall h :: 0 <= h < |now| ==> Answers(now[h], adds + [e], h)
  {
    hide Answers, Hash;
    forall h | 0 <= h < |now| ensures Answers(now[h], adds + [e], h) {
      if h != Hash(e.fakename) {
        AnswersElsewhere(bs[h], adds, e, h);
      }
    }
  }

  function Found(a: Alias?): Option<Entry> {
    if a == null then None else Some(a.Asked())
  }

  class Table {
    const heads: array<Alias?>
    ghost var buckets: seq<seq<Alias>>
    /** All calls of add_alias, in their order. */
    ghost var adds: seq<Entry>

    ghost predicate Linked()
      reads this, heads, set h, i | 0 <= h < |buckets| && 0 <= i < |buckets[h]| :: buckets[h][i]
    {
      && heads.Length == |buckets| == ALIAS_HASHTABLE_SIZE
      && (forall h :: 0 <= h < ALIAS_HASHTABLE_SIZE ==> BucketChain(heads[h], buckets[h], h))
    }

    ghost predicate Valid()
      reads this, heads, set h, i | 0 <= h < |buckets| && 0 <= i < |buckets[h]| :: buckets[h][i]
    {
      Linked() && forall h :: 0 <= h < ALIAS_HASHTABLE_SIZE ==> Answers(buckets[h], adds, h)
    }

    constructor ()
      ensures Valid() && adds == [] && fresh(heads)
      ensures forall h :: 0 <= h < ALIAS_HASHTABLE_SIZE ==> buckets[h] == []
    {
      heads := new Alias?[ALIAS_HASHTABLE_SIZE](_ => null);
      buckets, adds := seq(ALIAS_HASHTABLE_SIZE, _ => []), [];
    }

    /** The loop of add_alias: the last node of the bucket, unless the name is found before it. */
    method LastAlias(fakename: string, h: nat) returns (last: Alias?, found: bool)
      requires Valid() && h < ALIAS_HASHTABLE_SIZE
      ensures found <==> exists i :: 0 <= i < |buckets[h]| - 1 && buckets[h][i].fakename == fakename
      ensures !found ==> last == if buckets[h] == [] then null else buckets[h][|buckets[h]| - 1]
    {
      hide Answers;
      ghost var b := buckets[h];
      assert BucketChain(heads[h], b, h);
      last := heads[h];
      found := false;
      if last != null {
        ghost var k := 0;
        while last.next != null
          invariant 0 <= k < |b| && last == b[k]
          invariant forall i :: 0 <= i < k ==> b[i].fakename != fakename
          decreases |b| - k
        {
          assert k < |b| - 1;
          if fakename == last.fakename {
            return last, true;
          }
          last := last.next;
          k := k + 1;
        }
      }
    }

    /** add_alias; a name that is in its bucket, but not as the last one, is not added again. */
    method AddAlias(fakename: string, realname: string, kind: AliasType)
      requires Valid() && fakename != "" && realname != ""
      modifies this, heads, set h, i | 0 <= h < |buckets| && 0 <= i < |buckets[h]| :: buckets[h][i]
      ensures Valid() && adds == old(adds) + [Entry(fakename, realname, kind)]
      ensures var h := Hash(fakename); var b := old(buckets)[h];
        if exists i :: 0 <= i < |b| - 1 && b[i].fakename == fakename
        then buckets == old(buckets)
        else buckets == old(buckets)[h := buckets[h]] && |buckets[h]| == |b| + 1 && buckets[h][..|b|] == b
             && fresh(buckets[h][|b|]) && buckets[h][|b|].Asked() == Entry(fakename, realname, kind)
    {
      hide Answers, Hash, BucketChain;
      ghost var e := Entry(fakename, realname, kind);
      var hash := GetAliasHashValue(fakename);
      ghost var bs: seq<seq<Alias>> := buckets;
      var last, found := LastAlias(fakename, hash);
      if found {
        ghost var k: nat :| k < |bs[hash]| - 1 && bs[hash][k].fakename == fakename;
        AnswersAgain(bs[hash], adds, e, hash, k);
        AnswersOthers(bs, adds, e, buckets);
      } else {
        var node := new Alias(fakename, realname, kind);
        Link(node, last, hash);
        AnswersNew(bs[hash], adds, node, hash);
        AnswersOthers(bs, adds, e, buckets);
      }
      adds := adds + [e];
    }

    /** The end of add_alias: the new node goes behind the last one of its bucket. */
    method Link(node: Alias, last: Alias?, hash: nat)
      requires Linked() && hash < ALIAS_HASHTABLE_SIZE && node.next == null
      requires last == if buckets[hash] == [] then null else buckets[hash][|buckets[hash]| - 1]
      requires node.fakename != "" && Hash(node.fakename) == hash
      requires forall h, i :: 0 <= h < ALIAS_HASHTABLE_SIZE && 0 <= i < |buckets[h]| ==> buckets[h][i] != node
      modifies this`buckets, heads, last, node`bucket, node`rank
      ensures Linked() && buckets == old(buckets)[hash := old(buckets)[hash] + [node]]
    {
      hide Hash;
      ghost var b := buckets[hash];
      assert BucketChain(heads[hash], b, hash);
      forall h | 0 <= h < ALIAS_HASHTABLE_SIZE && h != hash
        ensures forall i :: 0 <= i < |buckets[h]| ==> buckets[h][i] != last
      {
        assert BucketChain(heads[h], buckets[h], h);
        assert last != null ==> last.bucket == hash;
      }
      node.bucket, node.rank := hash, |b|;
      if last != null {
        last.next := node;
      } else {
        heads[hash] := node;
      }
      buckets := buckets[hash := b + [node]];
    }

    /** find_alias, with the length of the URI. */
    method FindAlias(uri: string) returns (r: Alias?)
      requires Valid()
      ensures Found(r) == FirstMatch(WithHash(adds, Hash(uri)), uri)
      ensures "/" <= uri ==> var all := FirstMatch(adds, uri);
        (Found(r) == all <==> !(all.Some? && all.value.fakename == "/" && Hash(uri) != Hash("/")))
    {
      if "/" <= uri {
        BucketScan(adds, uri);
      }
      hide Hash, Answers, Matches, View, WithHash, FirstMatch, BucketChain;
      var hash := GetAliasHashValue(uri);
      AnswersFor(buckets[hash], adds, hash, uri);
      r := ScanBucket(uri, hash);
    }

    /** The loop of find_alias */
    method ScanBucket(uri: string, hash: nat) returns (r: Alias?)
      requires Linked() && hash < ALIAS_HASHTABLE_SIZE
      ensures Found(r) == FirstMatch(View(buckets[hash]), uri)
    {
      hide Hash, Matches, View;
      ghost var b, k := buckets[hash], 0;
      assert BucketChain(heads[hash], b, hash);
      ViewAt(b);
      assert View(b)[0..] == View(b);
      r := heads[hash];
      while r != null
        invariant k <= |b| && r == if k < |b| then b[k] else null
        invariant FirstMatch(View(b), uri) == FirstMatch(View(b)[k..], uri)
        decreases |b| - k
      {
        assert View(b)[k..][1..] == View(b)[k + 1..];
        MatchTest(r.fakename, uri);
        if |r.fakename| <= |uri| && uri[..|r.fakename|] == r.fakename &&
           (r.fakename[|r.fakename| - 1] == '/' ||
            (r.fakename[|r.fakename| - 1] != '/' && (|uri| == |r.fakename| || uri[|r.fakename|] == '/'))) {
          return;
        }
        r := r.next;
        k := k + 1;
      }
    }
  }

  /** The duplicate test misses a name that is the last of its bucket: two calls in a row make two nodes. */
  method AddedTwice() returns (t: Table)
    ensures t.Valid() && t.adds == [Entry("/x", "/srv", ALIAS), Entry("/x", "/srv", ALIAS)]
    ensures var b := t.buckets[Hash("/x")];
            |b| == 2 && b[0] != b[1] && b[0].Asked() == b[1].Asked() == Entry("/x", "/srv", ALIAS)
  {
    hide Hash, Answers;
    t := new Table();
    t.AddAlias("/x", "/srv", ALIAS);
    ghost var first := t.buckets[Hash("/x")][0];
    t.AddAlias("/x", "/srv", ALIAS);
    assert t.buckets[Hash("/x")][0] == first;
  }
}
