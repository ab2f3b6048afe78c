/**
  The linked range list of a request and the pool that its nodes come from and go back to: src/range.c.
  */
module RangeTable {
  import opened CStrings
  import opened Limits
  import opened RangeSyntax

  /** Which chain a node is on. */
  datatype Place = Nowhere | Pooled | Listed(epoch: nat)

  /** A node; the ghost fields record the chain it is on, and its place there. */
  class Range {
    var start: word
    var stop: word
    var next: Range?
    ghost var home: Place
    ghost var rank: int

    constructor ()
      ensures start == 0 && stop == 0 && next == null && home == Nowhere
    {
      start, stop, next, home := 0, 0, null, Nowhere;
    }
  }

  /** `head` starts a null-terminated chain through exactly the nodes of `s`, ranked from `base` on. */
  ghost predicate Chain(head: Range?, s: seq<Range>, home: Place, base: int)
    reads s
  {
    && head == (if s == [] then null else s[0])
    && (s != [] ==> s[|s| - 1].next == null)
    && (forall i {:trigger s[i].next} :: 0 <= i < |s| - 1 ==> s[i].next == s[i + 1])
    && (forall i {:trigger s[i].home} {:trigger s[i].rank} :: 0 <= i < |s| ==>
          s[i].home == home && s[i].rank == base + i)
  }

  /** No node is twice on the chains. */
  lemma ChainsShareNothing(p: Range?, s: seq<Range>, b: int, q: Range?, t: seq<Range>, c: int, e: nat)
    requires Chain(p, s, Pooled, b) && Chain(q, t, Listed(e), c)
    ensures forall i, j :: 0 <= i < j < |s| ==> s[i] != s[j]
    ensures forall i, j :: 0 <= i < j < |t| ==> t[i] != t[j]
    ensures forall i, j :: 0 <= i < |s| && 0 <= j < |t| ==> s[i] != t[j]
  {
    forall i, j | 0 <= i < j < |s| ensures s[i] != s[j] {
      assert s[i].rank != s[j].rank;
    }
    forall i, j | 0 <= i < j < |t| ensures t[i] != t[j] {
      assert t[i].rank != t[j].rank;
    }
    forall i, j | 0 <= i < |s| && 0 <= j < |t| ensures s[i] != t[j] {
      assert s[i].home != t[j].home;
    }
  }

  ghost function NodeSet(s: seq<Range>): set<Range> {
    set x | x in s
  }

  ghost function Specs(s: seq<Range>): (r: seq<RangeSpec>)
    reads s
    ensures |r| == |s| && forall i :: 0 <= i < |s| ==> r[i] == RangeSpec(s[i].start, s[i].stop)
  {
    seq(|s|, i requires 0 <= i < |s| reads s => RangeSpec(s[i].start, s[i].stop))
  }

  // ----- what ranges_fixup makes of one range

  const LONG_MIN := 0x8000_0000

  /** One range against the file size, in 32-bit arithmetic; None when it is dropped. */
  function Fix(r: RangeSpec, filesize: word): (f: Option<RangeSpec>)
    requires filesize > 0
    ensures f.Some? ==> f.value.start <= f.value.stop < filesize
  {
    var stop := if r.stop == NONE || r.stop >= filesize then filesize - 1 else r.stop;
    var start := if r.start == NONE then filesize - stop else r.start;
    var last := if r.start == NONE then filesize - 1 else stop;
    if start >= LONG_MIN || start > last then None else Some(RangeSpec(start, last))
  }

  function FixList(rs: seq<RangeSpec>, filesize: word): seq<RangeSpec> {
    if rs == [] || filesize == 0 then []
    else
      var f := Fix(rs[0], filesize);
      (if f.Some? then [f.value] else []) + FixList(rs[1..], filesize)
  }

  /** The byte positions that section 14.35.1 of RFC 2616 gives a valid range on a file of this size. */
  predicate Denotes(r: ByteRange, filesize: nat, pos: nat) {
    pos < filesize &&
    match r
    case Closed(a, b) => a <= pos <= b
    case From(a) => a <= pos
    case LastBytes(n) => filesize - n <= pos
  }

  /** Its last position is below its first: by the RFC the range is invalid, and the whole header is to be ignored. */
  predicate Inverted(r: ByteRange) {
    r.Closed? && r.last < r.first
  }

  /** A suffix range that reaches back to the start of the file or beyond it. */
  predicate TooLong(r: ByteRange, filesize: nat) {
    r.LastBytes? && r.count >= filesize
  }

  predicate Covers(f: Option<RangeSpec>, pos: nat) {
    f.Some? && f.value.start <= pos <= f.value.stop
  }

  /**
    A valid range covers the positions that the RFC gives it exactly when it is not a suffix range that is too long;
    then the first byte is left out. An inverted range is dropped.
    */
  lemma FixMeaning(r: ByteRange, filesize: word)
    requires BelowMarker(r) && 0 < filesize < LONG_MIN
    ensures !Inverted(r) ==>
              ((forall pos: nat :: Covers(Fix(Denoted(r), filesize), pos) <==> Denotes(r, filesize, pos))
               <==> !TooLong(r, filesize))
    ensures TooLong(r, filesize) ==>
              Fix(Denoted(r), filesize) == if filesize == 1 then None else Some(RangeSpec(1, filesize - 1))
    ensures Inverted(r) ==> Fix(Denoted(r), filesize) == None
  {
    if TooLong(r, filesize) {
      assert !Covers(Fix(Denoted(r), filesize), 0) && Denotes(r, filesize, 0);
    }
  }

  /** The last five bytes of a file of five bytes: the first byte is not among those sent. */
  lemma WholeFileSuffix()
    ensures Fix(Denoted(LastBytes(5)), 5) == Some(RangeSpec(1, 4)) && Denotes(LastBytes(5), 5, 0)
  {
  }

  lemma {:induction false} FixListAppend(a: seq<RangeSpec>, b: seq<RangeSpec>, filesize: word)
    ensures FixList(a + b, filesize) == FixList(a, filesize) + FixList(b, filesize)
  {
    if a == [] {
      assert a + b == b;
    } else if filesize > 0 {
      assert (a + b)[1..] == a[1..] + b;
      FixListAppend(a[1..], b, filesize);
      Assoc(if Fix(a[0], filesize).Some? then [Fix(a[0], filesize).value] else [],
            FixList(a[1..], filesize), FixList(b, filesize));
    }
  }

  /** Every survivor lies inside the file. */
  lemma {:induction false} FixListInside(rs: seq<RangeSpec>, filesize: word)
    ensures forall i :: 0 <= i < |FixList(rs, filesize)| ==>
              FixList(rs, filesize)[i].start <= FixList(rs, filesize)[i].stop < filesize
    ensures |FixList(rs, filesize)| <= |rs|
  {
    if rs != [] && filesize > 0 {
      FixListInside(rs[1..], filesize);
    }
  }

  /** The pool `was` after it has taken in the first `k` nodes of `all`, one at a time. */
  ghost function Pushed(all: seq<Range>, k: nat, was: seq<Range>): (p: seq<Range>)
    requires k <= |all|
    ensures |p| == k + |was|
  {
    if k == 0 then was else [all[k - 1]] + Pushed(all, k - 1, was)
  }

  lemma PushedStep(all: seq<Range>, k: nat, was: seq<Range>)
    requires k < |all|
    ensures Pushed(all, k + 1, was) == [all[k]] + Pushed(all, k, was)
    ensures Pushed(all, 0, was) == was
  {
  }

  /** The pool keeps what it had, and takes in every node of `all`, the last one on top. */
  lemma {:induction false} PushedHolds(all: seq<Range>, k: nat, was: seq<Range>)
    requires k <= |all|
    ensures NodeSet(Pushed(all, k, was)) == NodeSet(was) + NodeSet(all[..k])
    ensures forall i :: 0 <= i < k ==> Pushed(all, k, was)[i] == all[k - 1 - i]
    ensures Pushed(all, k, was)[k..] == was
  {
    if k > 0 {
      PushedHolds(all, k - 1, was);
      assert all[..k] == all[..k - 1] + [all[k - 1]];
      assert NodeSet(Pushed(all, k, was)) == {all[k - 1]} + NodeSet(Pushed(all, k - 1, was));
    } else {
      assert Pushed(all, 0, was)[0..] == was;
      assert NodeSet(all[..0]) == {};
    }
  }

  /** The nodes among the first `k` that ranges_fixup keeps, and the pool after it has dropped the others. */
  ghost function Kept(all: seq<Range>, specs: seq<RangeSpec>, filesize: word, k: nat): (r: seq<Range>)
    requires k <= |all| == |specs| && filesize > 0
    ensures |r| <= k
  {
    if k == 0 then []
    else Kept(all, specs, filesize, k - 1) + if Fix(specs[k - 1], filesize).Some? then [all[k - 1]] else []
  }

  ghost function AfterDrops(all: seq<Range>, specs: seq<RangeSpec>, filesize: word, k: nat, was: seq<Range>): seq<Range>
    requires k <= |all| == |specs| && filesize > 0
  {
    if k == 0 then was
    else
      var p := AfterDrops(all, specs, filesize, k - 1, was);
      if Fix(specs[k - 1], filesize).Some? then p else [all[k - 1]] + p
  }

  lemma FixStep(all: seq<Range>, specs: seq<RangeSpec>, filesize: word, k: nat, was: seq<Range>)
    requires k < |all| == |specs| && filesize > 0
    ensures var f := Fix(specs[k], filesize); var kept := Kept(all, specs, filesize, k);
            var drops := AfterDrops(all, specs, filesize, k, was);
      && Kept(all, specs, filesize, k + 1) == (if f.Some? then kept + [all[k]] else kept)
      && AfterDrops(all, specs, filesize, k + 1, was) == (if f.Some? then drops else [all[k]] + drops)
      && FixList(specs[..k + 1], filesize) ==
           if f.Some? then FixList(specs[..k], filesize) + [f.value] else FixList(specs[..k], filesize)
  {
    assert specs[..k + 1] == specs[..k] + [specs[k]];
    FixListAppend(specs[..k], [specs[k]], filesize);
    assert FixList([specs[k]][1..], filesize) == [];
  }

  /** Every node is either kept, or in the pool. */
  lemma {:induction false} FixKeepsNodes(all: seq<Range>, specs: seq<RangeSpec>, filesize: word, k: nat,
                                         was: seq<Range>)
    requires k <= |all| == |specs| && filesize > 0
    ensures NodeSet(AfterDrops(all, specs, filesize, k, was)) + NodeSet(Kept(all, specs, filesize, k)) ==
              NodeSet(was) + NodeSet(all[..k])
  {
    hide NodeSet;
    if k > 0 {
      FixKeepsNodes(all, specs, filesize, k - 1, was);
      assert all[..k] == all[..k - 1] + [all[k - 1]];
      var p, q := AfterDrops(all, specs, filesize, k - 1, was), Kept(all, specs, filesize, k - 1);
      NodeSetJoin([all[k - 1]], p);
      NodeSetJoin(q, [all[k - 1]]);
      NodeSetJoin(all[..k - 1], [all[k - 1]]);
      assert q + [] == q;
    } else {
      assert all[..0] == [];
    }
  }

  lemma NodeSetJoin(s: seq<Range>, u: seq<Range>)
    ensures NodeSet(s + u) == NodeSet(s) + NodeSet(u)
  {
  }

  // ----- the store

  class RangeStore {
    var pool: Range?
    var ranges: Range?
    var numranges: nat
    var filesize: word
    ghost var free: seq<Range>
    ghost var freeBase: int
    ghost var list: seq<Range>
    ghost var listBase: int
    ghost var epoch: nat

    ghost predicate Valid()
      reads this, free, list
    {
      Chain(pool, free, Pooled, freeBase) && Chain(ranges, list, Listed(epoch), listBase)
    }

    /** All nodes the store knows. */
    ghost function Nodes(): set<Range>
      reads this
    {
      NodeSet(free) + NodeSet(list)
    }

    constructor ()
      ensures Valid() && free == [] && list == [] && numranges == 0
    {
      pool, ranges, numranges, filesize := null, null, 0, 0;
      free, list, freeBase, listBase, epoch := [], [], 0, 0, 0;
    }

    method RangePoolPush(r: Range)
      requires Chain(pool, free, Pooled, freeBase) && r.home != Pooled
      modifies this`pool, this`free, this`freeBase, r`next, r`home, r`rank
      ensures Chain(pool, free, Pooled, freeBase) && free == [r] + old(free)
    {
      r.next := pool;
      pool := r;
      freeBase := freeBase - 1;
      r.home, r.rank := Pooled, freeBase;
      free := [r] + free;
    }

    method RangePoolPop() returns (r: Range)
      requires Chain(pool, free, Pooled, freeBase)
      modifies this`pool, this`free, this`freeBase, pool
      ensures Chain(pool, free, Pooled, freeBase)
      ensures r.start == 0 && r.stop == 0 && r.next == null && r.home == Nowhere
      ensures if old(free) == [] then fresh(r) && free == [] else r == old(free)[0] && free == old(free)[1..]
    {
      if pool != null {
        r := pool;
        pool := pool.next;
        free, freeBase := free[1..], freeBase + 1;
        r.start, r.stop, r.next := 0, 0, null;
        r.home := Nowhere;
      } else {
        r := new Range();
      }
    }

    /** range_pool_empty: every pooled node is taken off the pool. */
    method RangePoolEmpty()
      requires Chain(pool, free, Pooled, freeBase)
      modifies this`pool, this`free, this`freeBase, free
      ensures pool == null && free == []
    {
      ghost var was := free;
      while pool != null
        invariant Chain(pool, free, Pooled, freeBase)
        invariant |free| <= |was| && free == was[|was| - |free|..]
        decreases |free|
      {
        var r := RangePoolPop();
      }
    }

    /** Walks down a chain and pushes its nodes on the pool. */
    method Recycle(head: Range?, ghost all: seq<Range>)
      requires Chain(pool, free, Pooled, freeBase)
      requires Chain(head, all, Listed(epoch), listBase)
      modifies this`pool, this`free, this`freeBase, all`next, all`home, all`rank
      ensures Chain(pool, free, Pooled, freeBase) && free == Pushed(all, |all|, old(free))
    {
      hide NodeSet, Pushed;
      ghost var was, k := free, 0;
      var r := head;
      PushedEmpty(all, was);
      while r != null
        invariant 0 <= k <= |all|
        invariant r == if k < |all| then all[k] else null
        invariant k < |all| ==> all[|all| - 1].next == null
        invariant forall i {:trigger all[i].next} :: k <= i < |all| - 1 ==> all[i].next == all[i + 1]
        invariant forall i {:trigger all[i].home} {:trigger all[i].rank} :: k <= i < |all| ==>
                    all[i].home == Listed(epoch) && all[i].rank == listBase + i
        invariant Chain(pool, free, Pooled, freeBase) && free == Pushed(all, k, was)
        decreases |all| - k
      {
        var bob := r.next;
        PushedStep(all, k, was);
        RangePoolPush(r);
        r := bob;
        k := k + 1;
      }
    }

    /** ranges_reset: the whole list goes to the pool, node by node. */
    method RangesReset()
      requires Valid()
      modifies this`pool, this`free, this`freeBase, this`ranges, this`list, list`next, list`home, list`rank
      ensures Valid() && list == [] && free == Pushed(old(list), |old(list)|, old(free))
      ensures Nodes() == old(Nodes())
    {
      Recycle(ranges, list);
      PushedNodes(list, old(free));
      ranges := null;
      list := [];
    }

    /** One pooled or new node becomes the list, as the range 0 to "not given". */
    method OpenRange()
      requires Valid() && list == []
      modifies this`pool, this`free, this`freeBase, this`ranges, this`list, pool
      ensures Valid() && Specs(list) == [RangeSpec(0, NONE)]
      ensures Nodes() == old(Nodes()) + {list[0]} && (list[0] in old(Nodes()) || fresh(list[0]))
      ensures if old(free) == [] then free == [] && fresh(list[0])
              else list[0] == old(free)[0] && free == old(free)[1..]
    {
      hide NodeSet;
      ghost var before := free;
      ranges := RangePoolPop();
      ranges.stop := NONE;
      list := [ranges];
      ranges.home, ranges.rank := Listed(epoch), listBase;
      PoppedNodes(before, free, ranges);
    }

    /** range_abort: the list becomes the one node (0, -1). */
    method RangeAbort()
      requires Valid()
      modifies this`pool, this`free, this`freeBase, this`ranges, this`list, list, free
      ensures Valid() && Specs(list) == [RangeSpec(0, NONE)]
      ensures Nodes() == old(Nodes()) + {list[0]} && (list[0] in old(Nodes()) || fresh(list[0]))
    {
      hide NodeSet, Pushed, Specs;
      RangesReset();
      TopIsKnown(free, old(free), old(list));
      OpenRange();
    }

    /** The loop of range_add that walks to the last node. */
    method LastRange() returns (prev: Range?)
      requires Chain(ranges, list, Listed(epoch), listBase)
      ensures prev == if list == [] then null else list[|list| - 1]
    {
      prev := ranges;
      if prev != null {
        ghost var k := 0;
        while prev.next != null
          invariant 0 <= k < |list| && prev == list[k]
          decreases |list| - k
        {
          assert k < |list| - 1;
          prev := prev.next;
          k := k + 1;
        }
      }
    }

    /** The part of range_add that links a node in behind the last one. */
    method LinkLast(r: Range, start: word, stop: word)
      requires Chain(ranges, list, Listed(epoch), listBase) && r.home == Nowhere && r.next == null
      modifies this`ranges, this`list, this`numranges, r, list`next
      ensures Chain(ranges, list, Listed(epoch), listBase) && list == old(list) + [r]
      ensures r.start == start && r.stop == stop && numranges == old(numranges) + 1
    {
      var prev := LastRange();
      if prev != null {
        prev.next := r;
      } else {
        ranges := r;
      }
      r.start, r.stop := start, stop;
      r.home, r.rank := Listed(epoch), listBase + |list|;
      list := list + [r];
      numranges := numranges + 1;
    }

    /** range_add: a node with the new range behind the last one. */
    method RangeAdd(start: word, stop: word)
      requires Valid()
      modifies this`pool, this`free, this`freeBase, this`ranges, this`list, this`numranges, pool, list`next
      ensures Valid() && Specs(list) == old(Specs(list)) + [RangeSpec(start, stop)]
      ensures numranges == old(numranges) + 1
      ensures |list| == old(|list|) + 1 && list[..old(|list|)] == old(list)
      ensures Nodes() == old(Nodes()) + {list[old(|list|)]}
      ensures list[old(|list|)] in old(Nodes()) || fresh(list[old(|list|)])
      ensures if old(free) == [] then free == [] && fresh(list[old(|list|)])
              else list[old(|list|)] == old(free)[0] && free == old(free)[1..]
    {
      hide NodeSet, Specs, Chain;
      ghost var before, was, specs := free, list, Specs(list);
      ChainsShareNothing(pool, free, freeBase, ranges, list, listBase, epoch);
      HeadIs(pool, free, Pooled, freeBase);
      var r := RangePoolPop();
      LinkLast(r, start, stop);
      OneMoreSpec(was, r);
      AddedNodes(before, free, was, r);
    }

    /** The nodes of `all` from `k` on are still linked up as they were, and hold their ranges. */
    ghost predicate Waiting(all: seq<Range>, specs: seq<RangeSpec>, k: nat, r: Range?)
      requires |all| == |specs|
      reads this, all
    {
      && k <= |all| && r == (if k < |all| then all[k] else null)
      && (k < |all| ==> all[|all| - 1].next == null)
      && (forall i {:trigger all[i].next} :: k <= i < |all| - 1 ==> all[i].next == all[i + 1])
      && (forall i {:trigger all[i].home} :: k <= i < |all| ==> all[i].home == Listed(epoch))
      && (forall i {:trigger all[i].rank} :: k <= i < |all| ==> all[i].rank == listBase + i)
      && (forall i {:trigger all[i].start} {:trigger all[i].stop} :: k <= i < |all| ==>
            all[i].start == specs[i].start && all[i].stop == specs[i].stop)
    }

    /** The nodes kept so far form the new list, which still leads on to `r`. */
    ghost predicate Keeping(kept: seq<Range>, fixed: seq<RangeSpec>, prev: Range?, r: Range?)
      reads this, kept
    {
      && |kept| == |fixed|
      && ranges == (if kept == [] then null else kept[0])
      && prev == (if kept == [] then null else kept[|kept| - 1])
      && (kept != [] ==> kept[|kept| - 1].next == r)
      && (forall i {:trigger kept[i].next} :: 0 <= i < |kept| - 1 ==> kept[i].next == kept[i + 1])
      && (forall i {:trigger kept[i].home} :: 0 <= i < |kept| ==> kept[i].home == Listed(epoch + 1))
      && (forall i {:trigger kept[i].rank} :: 0 <= i < |kept| ==> kept[i].rank == i)
      && (forall i {:trigger kept[i].start} {:trigger kept[i].stop} :: 0 <= i < |kept| ==>
            kept[i].start == fixed[i].start && kept[i].stop == fixed[i].stop)
    }

    /** What the loop of ranges_fixup does to the numbers of one node. */
    method TouchUp(r: Range) returns (keep: bool)
      requires filesize > 0
      modifies r`start, r`stop
      ensures var f := Fix(old(RangeSpec(r.start, r.stop)), filesize);
              (keep <==> f.Some?) && (keep ==> f.value == RangeSpec(r.start, r.stop))
    {
      if r.stop == NONE || r.stop >= filesize {
        r.stop := filesize - 1;
      }
      if r.start == NONE {
        r.start := filesize - r.stop;
        r.stop := filesize - 1;
      }
      keep := !(r.start >= LONG_MIN || r.start > r.stop);
    }

    /** The branch that drops a node: it is unlinked from behind `prev` and pushed on the pool. */
    method Drop(r: Range, prev: Range?, ghost all: seq<Range>, ghost specs: seq<RangeSpec>, ghost k: nat,
                ghost kept: seq<Range>, ghost fixed: seq<RangeSpec>) returns (next: Range?)
      requires |all| == |specs| && k < |all| && r == all[k]
      requires Waiting(all, specs, k + 1, r.next) && r.home == Listed(epoch) && r.rank == listBase + k
      requires Keeping(kept, fixed, prev, r) && Chain(pool, free, Pooled, freeBase)
      modifies this`pool, this`free, this`freeBase, Ref(prev)`next, r
      ensures Waiting(all, specs, k + 1, next) && Keeping(kept, fixed, prev, next)
      ensures Chain(pool, free, Pooled, freeBase) && free == [r] + old(free)
    {
      if prev != null {
        prev.next := r.next;
      }
      next := r.next;
      RangePoolPush(r);
    }

    /** The branch that keeps a node: it is the last of the new list, or its first. */
    method Keep(r: Range, prev: Range?, ghost all: seq<Range>, ghost specs: seq<RangeSpec>, ghost k: nat,
                ghost kept: seq<Range>, ghost fixed: seq<RangeSpec>) returns (next: Range?)
      requires |all| == |specs| && k < |all| && r == all[k]
      requires Waiting(all, specs, k + 1, r.next) && r.home == Listed(epoch) && r.rank == listBase + k
      requires Keeping(kept, fixed, prev, r)
      modifies this`ranges, r`home, r`rank
      ensures Waiting(all, specs, k + 1, next)
      ensures Keeping(kept + [r], fixed + [RangeSpec(r.start, r.stop)], r, next)
    {
      if prev == null {
        ranges := r;
      }
      r.home, r.rank := Listed(epoch + 1), |kept|;
      next := r.next;
    }

    /** The body of the second loop of ranges_fixup. */
    method FixOne(r: Range, prev: Range?, ghost all: seq<Range>, ghost specs: seq<RangeSpec>, ghost k: nat,
                  ghost kept: seq<Range>, ghost fixed: seq<RangeSpec>) returns (next: Range?, last: Range?)
      requires filesize > 0 && |all| == |specs| && k < |all|
      requires Waiting(all, specs, k, r) && Keeping(kept, fixed, prev, r)
      requires Chain(pool, free, Pooled, freeBase)
      modifies this`pool, this`free, this`freeBase, this`ranges, Ref(prev)`next, r
      ensures Waiting(all, specs, k + 1, next) && Chain(pool, free, Pooled, freeBase)
      ensures var f := Fix(specs[k], filesize);
              if f.Some?
              then Keeping(kept + [r], fixed + [f.value], last, next) && free == old(free)
              else Keeping(kept, fixed, last, next) && free == [r] + old(free)
    {
      hide Fix;
      assert r.home == Listed(epoch) && r.rank == listBase + k && RangeSpec(r.start, r.stop) == specs[k];
      assert k + 1 < |all| ==> all[k + 1].rank == listBase + k + 1;
      var keep := TouchUp(r);
      assert Waiting(all, specs, k + 1, r.next);
      if !keep {
        last := prev;
        next := Drop(r, prev, all, specs, k, kept, fixed);
      } else {
        next := Keep(r, prev, all, specs, k, kept, fixed);
        last := r;
      }
    }

    /** ranges_fixup: the ranges are cut to the file, in order, and those with nothing left go to the pool. */
    method RangesFixup() returns (ok: bool)
      requires Valid()
      modifies this`pool, this`free, this`freeBase, this`ranges, this`list, this`listBase, this`epoch, list
      ensures Valid() && Specs(list) == FixList(old(Specs(list)), filesize)
      ensures ok <==> list != []
      ensures if filesize == 0
              then list == [] && free == Pushed(old(list), |old(list)|, old(free))
              else list == Kept(old(list), old(Specs(list)), filesize, |old(list)|) &&
                   free == AfterDrops(old(list), old(Specs(list)), filesize, |old(list)|, old(free))
      ensures Nodes() == old(Nodes())
    {
      hide NodeSet, Pushed, Fix, FixList, Kept, AfterDrops, Specs, Waiting, Keeping, Chain;
      ghost var all, specs, was := list, Specs(list), free;
      var r := ranges;
      ranges := null;
      if filesize == 0 {
        Recycle(r, all);
        PushedNodes(all, was);
        FixNothing(specs);
        list := [];
        NoList();
        return false;
      }
      FixStart(all, specs, filesize, was);
      StartFixing(all, specs, r);
      ghost var prev := FixLoop(r, all, specs);
      ghost var kept := Kept(all, specs, filesize, |all|);
      KeptIsChain(kept, FixList(specs, filesize), prev);
      list, listBase, epoch := kept, 0, epoch + 1;
      FixKeepsNodes(all, specs, filesize, |all|, was);
      assert all[..|all|] == all;
      return ranges != null;
    }

    lemma NoList()
      requires ranges == null && list == []
      ensures Chain(ranges, list, Listed(epoch), listBase) && Specs(list) == []
    {
    }

    /** The second loop of ranges_fixup. */
    method FixLoop(head: Range?, ghost all: seq<Range>, ghost specs: seq<RangeSpec>) returns (ghost last: Range?)
      requires filesize > 0 && |all| == |specs| && Waiting(all, specs, 0, head) && Keeping([], [], null, head)
      requires Chain(pool, free, Pooled, freeBase)
      modifies this`pool, this`free, this`freeBase, this`ranges, all
      ensures Keeping(Kept(all, specs, filesize, |all|), FixList(specs, filesize), last, null)
      ensures Chain(pool, free, Pooled, freeBase) && free == AfterDrops(all, specs, filesize, |all|, old(free))
    {
      hide Fix, FixList, Kept, AfterDrops, Waiting, Keeping, Chain;
      ghost var was, k := free, 0;
      ghost var kept: seq<Range>, fixed: seq<RangeSpec> := [], [];
      var r, prev: Range? := head, null;
      FixStart(all, specs, filesize, was);
      while r != null
        invariant k <= |all| && Waiting(all, specs, k, r) && Keeping(kept, fixed, prev, r)
        invariant Chain(pool, free, Pooled, freeBase) && free == AfterDrops(all, specs, filesize, k, was)
        invariant kept == Kept(all, specs, filesize, k) && fixed == FixList(specs[..k], filesize)
        decreases |all| - k
      {
        WaitingAt(all, specs, k, r);
        PrevAt(kept, fixed, prev, r);
        KeptFrom(all, specs, filesize, k);
        FixStep(all, specs, filesize, k, was);
        ghost var f := Fix(specs[k], filesize);
        var node := r;
        r, prev := FixOne(r, prev, all, specs, k, kept, fixed);
        if f.Some? {
          kept, fixed := kept + [node], fixed + [f.value];
        }
        k := k + 1;
      }
      WaitingAt(all, specs, k, r);
      assert specs[..k] == specs;
      last := prev;
    }

    lemma WaitingAt(all: seq<Range>, specs: seq<RangeSpec>, k: nat, r: Range?)
      requires |all| == |specs| && k <= |all| && Waiting(all, specs, k, r)
      ensures r == (if k < |all| then all[k] else null)
    {
    }

    lemma StartFixing(all: seq<Range>, specs: seq<RangeSpec>, r: Range?)
      requires Chain(r, all, Listed(epoch), listBase) && specs == Specs(all)
      requires ranges == null
      ensures Waiting(all, specs, 0, r) && Keeping([], [], null, r)
    {
    }

    lemma KeptIsChain(kept: seq<Range>, fixed: seq<RangeSpec>, prev: Range?)
      requires Keeping(kept, fixed, prev, null)
      ensures Chain(ranges, kept, Listed(epoch + 1), 0) && Specs(kept) == fixed
      ensures ranges == null <==> kept == []
    {
    }

    lemma PrevAt(kept: seq<Range>, fixed: seq<RangeSpec>, prev: Range?, r: Range?)
      requires Keeping(kept, fixed, prev, r)
      ensures prev == if kept == [] then null else kept[|kept| - 1]
    {
    }

    /** The action of a table entry: abort, submit, or nothing. A range with neither end given aborts, too. */
    method Act(act: RangeAction, start: word, stop: word) returns (goesOn: bool)
      requires Valid()
      modifies this`pool, this`free, this`freeBase, this`ranges, this`list, this`numranges, list, free
      ensures Valid() && (goesOn <==> !(act == AR || (act == SR && start == stop == NONE)))
      ensures !goesOn ==> Specs(list) == [RangeSpec(0, NONE)] && numranges == old(numranges)
      ensures goesOn && act == SR ==>
                Specs(list) == old(Specs(list)) + [RangeSpec(start, stop)] && numranges == old(numranges) + 1
      ensures goesOn && act == Go ==> list == old(list) && free == old(free) && Specs(list) == old(Specs(list))
      ensures goesOn && act == Go ==> numranges == old(numranges)
      ensures old(Nodes()) <= Nodes() && forall x :: x in Nodes() ==> x in old(Nodes()) || fresh(x)
    {
      hide NodeSet, Specs, Chain;
      HeadOf(pool, free, Pooled, freeBase);
      if act == AR {
        RangeAbort();
        return false;
      }
      if act == SR {
        if start == stop && start == NONE {
          RangeAbort();
          return false;
        }
        RangeAdd(start, stop);
      }
      return true;
    }

    /** range_parse: the ranges of the header value are added to the list, or the list is aborted. */
    method RangeParse(str: string) returns (ok: bool)
      requires Valid() && NoNul(str)
      modifies this, free, list
      ensures Valid() && filesize == old(filesize)
      ensures ok <==> StartsWithBytes(str) && ParseSet(str[6..]).Some?
      ensures ok ==> Specs(list) == old(Specs(list)) + ParseSet(str[6..]).value
                     && numranges == old(numranges) + |ParseSet(str[6..]).value|
      ensures !StartsWithBytes(str) ==> Specs(list) == old(Specs(list)) && list == old(list) && free == old(free)
      ensures StartsWithBytes(str) && !ok ==> Specs(list) == [RangeSpec(0, NONE)]
      ensures old(Nodes()) <= Nodes() && forall x :: x in Nodes() ==> x in old(Nodes()) || fresh(x)
    {
      hide NodeSet, Specs, Chain, Run, Table, ParseSet, NewStart, NewStop, CodeOf;
      if !StartsWithBytes(str) {
        return false;
      }
      ghost var s := str[6..];
      RunIsGrammar(s);
      KnownNodes(free, list);
      ghost var specs, added: seq<RangeSpec> := Specs(list), [];
      var mode, start: word, stop: word, at := Initial, 0, 0, 6;
      assert specs + [] == specs && str[6..] == s;
      JoinEmpty(Run(s, Initial, 0, 0));
      while true
        invariant 6 <= at <= |str| && Valid() && filesize == old(filesize)
        invariant Run(s, Initial, 0, 0) == Join(added, Run(str[at..], mode, start, stop))
        invariant Specs(list) == specs + added && numranges == old(numranges) + |added|
        invariant old(Nodes()) <= Nodes() && forall x :: x in Nodes() ==> x in old(Nodes()) || fresh(x)
        decreases |str| - at
      {
        var c := if at < |str| then str[at] else '\0';
        RunStep(str, at, mode, start, stop);
        var ccode := CodeOf(c);
        var fcode := Table(mode, ccode);
        start, stop := NewStart(fcode.num, start, c), NewStop(fcode.num, stop, c);
        KnownNodes(free, list);
        assert forall i :: 0 <= i < |free| ==> free[i] in Nodes();
        assert forall i :: 0 <= i < |list| ==> list[i] in Nodes();
        var goesOn := Act(fcode.act, start, stop);
        if !goesOn {
          return false;
        }
        if fcode.act == SR {
          JoinMore(added, RangeSpec(start, stop),
                   if at < |str| then Run(str[at + 1..], fcode.next, 0, 0) else Some([]));
          added := added + [RangeSpec(start, stop)];
          start, stop := 0, 0;
        }
        if ccode == Null {
          assert added + [] == added;
          return true;
        }
        mode := fcode.next;
        at := at + 1;
      }
    }

    /** The list loses its first node to the pool (complete_response). */
    method PopFirst()
      requires Valid() && list != []
      modifies this`pool, this`free, this`freeBase, this`ranges, this`list, this`listBase, ranges
      ensures Valid() && list == old(list)[1..] && free == [old(list)[0]] + old(free)
      ensures Specs(list) == old(Specs(list))[1..]
      ensures Nodes() == old(Nodes())
    {
      hide NodeSet, Specs;
      var r := ranges;
      ghost var was, specs := list, Specs(list);
      ChainsShareNothing(pool, free, freeBase, ranges, list, listBase, epoch);
      ranges := ranges.next;
      list, listBase := list[1..], listBase + 1;
      RangePoolPush(r);
      assert Specs(list) == specs[1..];
      PoppedToPool(was, old(free));
    }

    /** `ranges->start += n`: the first `n` bytes of the first range are done. */
    method Advance(n: nat)
      requires Valid() && list != [] && ranges.start + n < WORD_SIZE
      modifies ranges`start
      ensures Valid()
      ensures Specs(list) == var s := old(Specs(list)); [RangeSpec(s[0].start + n, s[0].stop)] + s[1..]
    {
      hide Specs;
      ghost var specs := Specs(list);
      ChainsShareNothing(pool, free, freeBase, ranges, list, listBase, epoch);
      ranges.start := ranges.start + n;
      assert Specs(list) == [RangeSpec(specs[0].start + n, specs[0].stop)] + specs[1..];
    }
  }

  lemma PoppedToPool(list: seq<Range>, free: seq<Range>)
    requires list != []
    ensures NodeSet([list[0]] + free) + NodeSet(list[1..]) == NodeSet(free) + NodeSet(list)
  {
    assert list == [list[0]] + list[1..];
  }

  /** strncasecmp(str, "bytes=", 6) == 0 */
  predicate StartsWithBytes(str: string) {
    |str| >= 6 && (str[0] == 'b' || str[0] == 'B') && (str[1] == 'y' || str[1] == 'Y')
    && (str[2] == 't' || str[2] == 'T') && (str[3] == 'e' || str[3] == 'E')
    && (str[4] == 's' || str[4] == 'S') && str[5] == '='
  }

  /** The ranges added so far, followed by what the rest of the run submits. */
  ghost function Join(added: seq<RangeSpec>, rest: Option<seq<RangeSpec>>): Option<seq<RangeSpec>> {
    if rest == None then None else Some(added + rest.value)
  }

  lemma JoinEmpty(rest: Option<seq<RangeSpec>>)
    ensures Join([], rest) == rest
  {
    assert rest.Some? ==> [] + rest.value == rest.value;
  }

  lemma JoinMore(added: seq<RangeSpec>, r: RangeSpec, rest: Option<seq<RangeSpec>>)
    ensures Join(added, Cons(r, rest)) == Join(added + [r], rest)
  {
    if rest.Some? {
      Assoc(added, [r], rest.value);
    }
  }

  lemma RunStep(str: string, at: nat, mode: Mode, start: word, stop: word)
    requires at <= |str| && NoNul(str)
    ensures var c := if at < |str| then str[at] else '\0';
      var code := CodeOf(c); var e := Table(mode, code);
      var start', stop' := NewStart(e.num, start, c), NewStop(e.num, stop, c);
      && (code == Null <==> at == |str|)
      && Run(str[at..], mode, start, stop) ==
           if e.act == AR || (e.act == SR && start' == stop' == NONE) then None
           else if e.act == SR
           then Cons(RangeSpec(start', stop'), if at < |str| then Run(str[at + 1..], e.next, 0, 0) else Some([]))
           else if at < |str| then Run(str[at + 1..], e.next, start', stop') else Some([])
  {
    if at < |str| {
      assert str[at..][1..] == str[at + 1..];
    }
  }

  lemma KnownNodes(free: seq<Range>, list: seq<Range>)
    ensures forall x :: x in free || x in list <==> x in NodeSet(free) + NodeSet(list)
  {
  }

  lemma HeadOf(head: Range?, s: seq<Range>, home: Place, base: int)
    requires Chain(head, s, home, base)
    ensures head != null ==> head in s
  {
  }

  lemma HeadIs(head: Range?, s: seq<Range>, home: Place, base: int)
    requires Chain(head, s, home, base)
    ensures head == if s == [] then null else s[0]
  {
  }

  lemma OneMoreSpec(s: seq<Range>, r: Range)
    ensures Specs(s + [r]) == Specs(s) + [RangeSpec(r.start, r.stop)]
  {
  }

  lemma {:induction false} KeptFrom(all: seq<Range>, specs: seq<RangeSpec>, filesize: word, k: nat)
    requires k <= |all| == |specs| && filesize > 0
    ensures forall i :: 0 <= i < |Kept(all, specs, filesize, k)| ==> Kept(all, specs, filesize, k)[i] in all
  {
    if k > 0 {
      KeptFrom(all, specs, filesize, k - 1);
    }
  }

  lemma FixNothing(specs: seq<RangeSpec>)
    ensures FixList(specs, 0) == []
  {
  }

  lemma FixStart(all: seq<Range>, specs: seq<RangeSpec>, filesize: word, was: seq<Range>)
    requires |all| == |specs| && filesize > 0
    ensures Kept(all, specs, filesize, 0) == [] && AfterDrops(all, specs, filesize, 0, was) == was
    ensures FixList(specs[..0], filesize) == []
  {
  }

  ghost function Ref(r: Range?): set<Range> {
    if r == null then {} else {r}
  }

  lemma AddedNodes(before: seq<Range>, now: seq<Range>, was: seq<Range>, r: Range)
    requires if before == [] then now == [] else r == before[0] && now == before[1..]
    ensures NodeSet(now) + NodeSet(was + [r]) == NodeSet(before) + NodeSet(was) + {r}
    ensures before != [] ==> r in NodeSet(before)
  {
    if before != [] {
      assert before == [r] + now;
    }
  }

  lemma TopIsKnown(p: seq<Range>, free: seq<Range>, list: seq<Range>)
    requires NodeSet(p) + NodeSet([]) == NodeSet(free) + NodeSet(list)
    ensures p != [] ==> p[0] in free || p[0] in list
  {
    if p != [] {
      assert p[0] in NodeSet(p) + NodeSet([]);
    }
  }

  lemma PoppedNodes(before: seq<Range>, now: seq<Range>, r: Range)
    requires if before == [] then now == [] else r == before[0] && now == before[1..]
    ensures NodeSet(now) + NodeSet([r]) == NodeSet(before) + NodeSet([]) + {r}
    ensures before != [] ==> r in NodeSet(before)
  {
    if before != [] {
      assert before == [r] + now;
    }
  }

  lemma PushedEmpty(all: seq<Range>, was: seq<Range>)
    ensures Pushed(all, 0, was) == was
  {
  }

  lemma PushedNodes(all: seq<Range>, was: seq<Range>)
    ensures NodeSet(Pushed(all, |all|, was)) + NodeSet([]) == NodeSet(was) + NodeSet(all)
  {
    PushedHolds(all, |all|, was);
    assert all[..|all|] == all;
  }
}
