/** The open-addressed, reference-counted table of file mappings: src/mmap_cache.c. */
module MmapCache {
  import opened CStrings

  const MMAP_LIST_SIZE := 256
  const MMAP_LIST_USE_MAX := 128

  /** The identity of a file, as fstat reports it. */
  datatype FileKey = FileKey(dev: nat, ino: nat, len: nat)

  /** struct mmap_entry; a mapping is named by the number of the mmap call that made it. */
  datatype Slot = Slot(key: FileKey, mmap: nat, useCount: nat)

  predicate InUse(s: Slot) {
    s.useCount > 0
  }

  /** How many slots are in use. */
  function Used(s: seq<Slot>): (n: nat)
    ensures n <= |s|
  {
    if s == [] then 0 else Used(s[..|s| - 1]) + if InUse(s[|s| - 1]) then 1 else 0
  }

  lemma {:induction false} UsedUpdate(s: seq<Slot>, i: nat, x: Slot)
    requires i < |s|
    ensures Used(s[i := x]) + (if InUse(s[i]) then 1 else 0) == Used(s) + (if InUse(x) then 1 else 0)
  {
    var n := |s| - 1;
    if i < n {
      UsedUpdate(s[..n], i, x);
      assert s[i := x][..n] == s[..n][i := x];
    } else {
      assert s[i := x][..n] == s[..n];
    }
  }

  /** The pigeonhole: a table that has fewer slots in use than slots has a free one. */
  lemma {:induction false} FullTable(s: seq<Slot>)
    requires forall i :: 0 <= i < |s| ==> InUse(s[i])
    ensures Used(s) == |s|
  {
    if s != [] {
      FullTable(s[..|s| - 1]);
    }
  }

  lemma {:induction false} EmptyTable(s: seq<Slot>)
    requires forall i :: 0 <= i < |s| ==> !InUse(s[i])
    ensures Used(s) == 0
  {
    if s != [] {
      EmptyTable(s[..|s| - 1]);
    }
  }

  /** MMAP_LIST_HASH: `ino & 255` */
  function Hash(k: FileKey): nat {
    k.ino % MMAP_LIST_SIZE
  }

  function Next(i: nat): nat {
    (i + 1) % MMAP_LIST_SIZE
  }

  /** The slots that a probe for `k` passes before it comes to slot `i`. */
  ghost predicate Passed(s: seq<Slot>, k: FileKey, i: nat) {
    |s| == MMAP_LIST_SIZE && i < MMAP_LIST_SIZE &&
    forall j :: 0 <= j < |s| && Between(Hash(k), j, i) ==> InUse(s[j]) && s[j].key != k
  }

  /** `j` lies in the ring from `start` up to, and without, `i`. */
  predicate Between(start: nat, j: nat, i: nat) {
    if start <= i then start <= j < i else j < i || start <= j
  }

  predicate Live(s: Slot, m: nat) {
    InUse(s) && s.mmap == m
  }

  /** Every mapping made is either unmapped, or the mapping of exactly one slot in use. */
  ghost predicate Mappings(s: seq<Slot>, created: nat, gone: set<nat>) {
    && (forall i :: 0 <= i < |s| && InUse(s[i]) ==> s[i].mmap < created && s[i].mmap !in gone)
    && (forall i, j :: 0 <= i < j < |s| && InUse(s[i]) && InUse(s[j]) ==> s[i].mmap != s[j].mmap)
    && (forall m: nat :: m < created && m !in gone ==> exists i :: 0 <= i < |s| && Live(s[i], m))
    && (forall m :: m in gone ==> m < created)
  }

  lemma Recounted(s: seq<Slot>, i: nat, n: nat, created: nat, gone: set<nat>)
    requires i < |s| && InUse(s[i]) && n > 0 && Mappings(s, created, gone)
    ensures Mappings(s[i := s[i].(useCount := n)], created, gone)
  {
    var t := s[i := s[i].(useCount := n)];
    forall m: nat | m < created && m !in gone ensures exists j :: 0 <= j < |t| && Live(t[j], m) {
      var j :| 0 <= j < |s| && Live(s[j], m);
      assert Live(t[j], m);
    }
  }

  lemma Mapped(s: seq<Slot>, i: nat, k: FileKey, created: nat, gone: set<nat>)
    requires i < |s| && !InUse(s[i]) && Mappings(s, created, gone)
    ensures Mappings(s[i := Slot(k, created, 1)], created + 1, gone)
  {
    var t := s[i := Slot(k, created, 1)];
    forall m: nat | m < created + 1 && m !in gone ensures exists j :: 0 <= j < |t| && Live(t[j], m) {
      if m == created {
        assert Live(t[i], m);
      } else {
        var j :| 0 <= j < |s| && Live(s[j], m);
        assert Live(t[j], m);
      }
    }
  }

  lemma Unmapped(s: seq<Slot>, i: nat, created: nat, gone: set<nat>)
    requires i < |s| && InUse(s[i]) && Mappings(s, created, gone)
    ensures Mappings(s[i := s[i].(useCount := 0)], created, gone + {s[i].mmap})
  {
    var t := s[i := s[i].(useCount := 0)];
    forall m: nat | m < created && m !in gone + {s[i].mmap} ensures exists j :: 0 <= j < |t| && Live(t[j], m) {
      var j :| 0 <= j < |s| && Live(s[j], m);
      assert Live(t[j], m);
    }
  }

  lemma GivenUp(s: seq<Slot>, created: nat, gone: set<nat>)
    requires Mappings(s, created, gone)
    ensures Mappings(s, created + 1, gone + {created}) && created !in gone
  {
  }

  /** A slot in use that holds the file. */
  predicate Holds(s: seq<Slot>, k: FileKey, i: nat) {
    i < |s| && InUse(s[i]) && s[i].key == k
  }

  /** A probe for the file comes to a slot that holds it. */
  ghost predicate ProbeFinds(s: seq<Slot>, k: FileKey) {
    exists i :: 0 <= i < |s| && Passed(s, k, i) && Holds(s, k, i)
  }

  /** The probe ends at one slot only: it finds the file when a probe can find it. */
  lemma ProbeEndsOnce(s: seq<Slot>, k: FileKey, i: nat)
    requires Passed(s, k, i) && (InUse(s[i]) ==> s[i].key == k)
    ensures ProbeFinds(s, k) <==> InUse(s[i])
  {
    if ProbeFinds(s, k) {
      var j :| 0 <= j < |s| && Passed(s, k, j) && Holds(s, k, j);
      ProbeStops(s, k, i, j);
    }
    assert InUse(s[i]) ==> Holds(s, k, i);
  }

  lemma ProbeStops(s: seq<Slot>, k: FileKey, i: nat, j: nat)
    requires Passed(s, k, i) && (InUse(s[i]) ==> s[i].key == k)
    requires Passed(s, k, j) && (InUse(s[j]) ==> s[j].key == k)
    ensures i == j
  {
    assert j == i || Between(Hash(k), j, i) || Between(Hash(k), i, j);
  }

  /** No slot on the ring from the hash of the file up to `i` is free. */
  ghost predicate NoGap(s: seq<Slot>, k: FileKey, i: nat) {
    forall j :: 0 <= j < |s| && Between(Hash(k), j, i) ==> InUse(s[j])
  }

  /** A file is found if and only if no slot between its hash and a slot that holds it is free. */
  lemma FoundIfNoGap(s: seq<Slot>, k: FileKey)
    requires |s| == MMAP_LIST_SIZE
    ensures ProbeFinds(s, k) <==> exists i :: 0 <= i < |s| && Holds(s, k, i) && NoGap(s, k, i)
  {
    hide Holds;
    if ProbeFinds(s, k) {
      var i :| 0 <= i < |s| && Passed(s, k, i) && Holds(s, k, i);
      assert NoGap(s, k, i);
    }
    forall i | 0 <= i < |s| && Holds(s, k, i) && NoGap(s, k, i) ensures ProbeFinds(s, k) {
      ReachedBehind(s, k, i);
    }
  }

  /** Of the slots that hold the file behind no gap, the probe comes to the first. */
  lemma {:induction false} ReachedBehind(s: seq<Slot>, k: FileKey, i: nat)
    requires |s| == MMAP_LIST_SIZE && Holds(s, k, i) && NoGap(s, k, i)
    ensures ProbeFinds(s, k)
    decreases (i + MMAP_LIST_SIZE - Hash(k)) % MMAP_LIST_SIZE
  {
    if j: nat :| j < |s| && Between(Hash(k), j, i) && s[j].key == k {
      assert Holds(s, k, j);
      assert NoGap(s, k, j) by {
        assert forall l: nat :: Between(Hash(k), l, j) ==> Between(Hash(k), l, i);
      }
      ReachedBehind(s, k, j);
    } else {
      assert Passed(s, k, i);
    }
  }

  lemma PassNone(s: seq<Slot>, k: FileKey)
    requires |s| == MMAP_LIST_SIZE
    ensures Passed(s, k, Hash(k))
  {
  }

  /** One step of the probe; a step that closed the ring would mean that no slot is free. */
  lemma PassOne(s: seq<Slot>, k: FileKey, i: nat)
    requires Passed(s, k, i) && InUse(s[i]) && s[i].key != k
    ensures Next(i) != Hash(k) ==> Passed(s, k, Next(i))
    ensures Next(i) == Hash(k) ==> Used(s) == MMAP_LIST_SIZE
  {
    if Next(i) == Hash(k) {
      forall j | 0 <= j < |s| ensures InUse(s[j]) {
        assert j == i || Between(Hash(k), j, i);
      }
      FullTable(s);
    }
  }

  class MmapTable {
    const slots: array<Slot>
    var entriesUsed: nat
    /** How many mappings were made so far: the name of the next one. */
    var created: nat
    /** The handles handed out and not yet released, and the mappings that were unmapped. */
    ghost var held: multiset<nat>
    ghost var gone: set<nat>

    ghost predicate Valid()
      reads this, slots
    {
      && slots.Length == MMAP_LIST_SIZE
      && entriesUsed == Used(slots[..]) <= MMAP_LIST_USE_MAX + 1
      && (forall i: nat :: held[i] == if i < MMAP_LIST_SIZE then slots[i].useCount else 0)
      && Mappings(slots[..], created, gone)
    }

    constructor ()
      ensures Valid() && held == multiset{} && created == 0 && entriesUsed == 0 && fresh(slots)
      ensures forall i :: 0 <= i < MMAP_LIST_SIZE ==> !InUse(slots[i])
    {
      slots := new Slot[MMAP_LIST_SIZE](_ => Slot(FileKey(0, 0, 0), 0, 0));
      entriesUsed, held, created, gone := 0, multiset{}, 0, {};
      new;
      EmptyTable(slots[..]);
    }

    /** find_mmap; the handle is the index of the slot. */
    method FindMmap(k: FileKey, mmapOk: bool, adviseOk: bool) returns (e: Option<nat>)
      requires Valid()
      modifies this, slots
      ensures Valid()
      ensures e.Some? ==> e.value < MMAP_LIST_SIZE && held == old(held) + multiset{e.value}
                          && slots[e.value].key == k && Passed(old(slots[..]), k, e.value)
      ensures e.Some? ==> forall i :: 0 <= i < MMAP_LIST_SIZE && i != e.value ==> slots[i] == old(slots[i])
      ensures e.Some? && old(InUse(slots[e.value])) ==>
                slots[e.value] == old(slots[e.value]).(useCount := old(slots[e.value].useCount) + 1)
                && created == old(created) && entriesUsed == old(entriesUsed)
      ensures e.Some? && !old(InUse(slots[e.value])) ==>
                slots[e.value] == Slot(k, old(created), 1)
                && created == old(created) + 1 && entriesUsed == old(entriesUsed) + 1
      ensures e.Some? ==> gone == old(gone)
      ensures e == None ==>
                held == old(held) && slots[..] == old(slots[..]) && created - |gone| == old(created - |gone|)
      ensures e.Some? <==>
                ProbeFinds(old(slots[..]), k) || (old(entriesUsed) <= MMAP_LIST_USE_MAX && mmapOk && adviseOk)
    {
      hide Mappings, Passed, ProbeFinds;
      var i := Probe(k);
      ghost var before := slots[..];
      ProbeEndsOnce(before, k, i);
      if InUse(slots[i]) {
        Share(i);
        return Some(i);
      }
      if entriesUsed > MMAP_LIST_USE_MAX {
        return None;
      }
      if !mmapOk {
        return None;
      }
      var m := created;
      created := created + 1;
      if !adviseOk {
        GivenUp(before, m, gone);
        gone := gone + {m};
        return None;
      }
      Claim(i, k, m);
      return Some(i);
    }

    /** find_mmap, on a slot that holds the file: one user more. */
    method Share(i: nat)
      requires Valid() && i < MMAP_LIST_SIZE && InUse(slots[i])
      modifies this`held, slots
      ensures Valid() && held == old(held) + multiset{i}
      ensures slots[i] == old(slots[i]).(useCount := old(slots[i].useCount) + 1)
      ensures forall j :: 0 <= j < MMAP_LIST_SIZE && j != i ==> slots[j] == old(slots[j])
    {
      hide Mappings;
      ghost var before := slots[..];
      slots[i] := slots[i].(useCount := slots[i].useCount + 1);
      held := held + multiset{i};
      UsedUpdate(before, i, slots[i]);
      assert slots[..] == before[i := slots[i]];
      Recounted(before, i, slots[i].useCount, created, gone);
    }

    /** find_mmap, on a free slot: it gets the new mapping. */
    method Claim(i: nat, k: FileKey, m: nat)
      requires i < MMAP_LIST_SIZE == slots.Length && !InUse(slots[i]) && m + 1 == created
      requires entriesUsed == Used(slots[..]) <= MMAP_LIST_USE_MAX && Mappings(slots[..], m, gone)
      requires forall j: nat :: held[j] == if j < MMAP_LIST_SIZE then slots[j].useCount else 0
      modifies this`entriesUsed, this`held, slots
      ensures Valid() && held == old(held) + multiset{i} && slots[i] == Slot(k, m, 1)
      ensures entriesUsed == old(entriesUsed) + 1
      ensures forall j :: 0 <= j < MMAP_LIST_SIZE && j != i ==> slots[j] == old(slots[j])
    {
      hide Mappings;
      ghost var before := slots[..];
      entriesUsed := entriesUsed + 1;
      Mapped(before, i, k, m, gone);
      slots[i] := Slot(k, m, 1);
      held := held + multiset{i};
      UsedUpdate(before, i, slots[i]);
      assert slots[..] == before[i := slots[i]];
    }

    /** The loop of find_mmap: the first slot from the hash on that is free, or holds the file. */
    method Probe(k: FileKey) returns (i: nat)
      requires Valid()
      ensures i < MMAP_LIST_SIZE && Passed(slots[..], k, i)
      ensures InUse(slots[i]) ==> slots[i].key == k
    {
      hide Mappings, Between;
      var start := Hash(k);
      PassNone(slots[..], k);
      i := start;
      while InUse(slots[i])
        invariant i < MMAP_LIST_SIZE && Passed(slots[..], k, i)
        decreases (start - i - 1) % MMAP_LIST_SIZE
      {
        if slots[i].key == k {
          return;
        }
        ghost var last := i;
        i := Next(i);
        PassOne(slots[..], k, last);
        if i == start {
          // every slot would have been passed, which the limit on the slots in use rules out
          assert false;
        }
      }
    }

    /** release_mmap; a handle without users, or none at all, is ignored. */
    method ReleaseMmap(e: Option<nat>)
      requires Valid() && (e.Some? ==> e.value < MMAP_LIST_SIZE)
      modifies this`entriesUsed, this`held, this`gone, slots
      ensures Valid()
      ensures e == None || !old(InUse(slots[e.value])) ==> unchanged(this) && unchanged(slots)
      ensures e.Some? && old(InUse(slots[e.value])) ==>
        && held == old(held) - multiset{e.value}
        && (forall i :: 0 <= i < MMAP_LIST_SIZE && i != e.value ==> slots[i] == old(slots[i]))
        && slots[e.value] == old(slots[e.value]).(useCount := old(slots[e.value].useCount) - 1)
        && entriesUsed == old(entriesUsed) - (if InUse(slots[e.value]) then 0 else 1) && created == old(created)
        && (if InUse(slots[e.value]) then gone == old(gone)
            else gone == old(gone) + {slots[e.value].mmap} && slots[e.value].mmap !in old(gone))
    {
      hide Mappings;
      if e == None {
        return;
      }
      var i := e.value;
      if slots[i].useCount == 0 {
        return;
      }
      ghost var before := slots[..];
      slots[i] := slots[i].(useCount := slots[i].useCount - 1);
      held := held - multiset{i};
      UsedUpdate(before, i, slots[i]);
      assert slots[..] == before[i := slots[i]];
      if slots[i].useCount == 0 {
        Unmapped(before, i, created, gone);
        LiveMapping(before, i, created, gone);
        gone := gone + {slots[i].mmap};
        entriesUsed := entriesUsed - 1;
      } else {
        Recounted(before, i, slots[i].useCount, created, gone);
      }
    }

    /** The handles held are the use counts; once all are released, the table is empty and every mapping unmapped. */
    lemma AllReleased()
      requires Valid() && held == multiset{}
      ensures entriesUsed == 0 && forall m: nat :: m < created <==> m in gone
    {
      assert forall i :: 0 <= i < MMAP_LIST_SIZE ==> slots[..][i].useCount == held[i];
      EmptyTable(slots[..]);
    }

    /** A mapping that is held is not unmapped, and no other slot has it. */
    lemma HeldIsMapped(i: nat)
      requires Valid() && held[i] > 0
      ensures i < MMAP_LIST_SIZE && InUse(slots[i]) && slots[i].mmap < created && slots[i].mmap !in gone
      ensures forall j :: 0 <= j < MMAP_LIST_SIZE && j != i && InUse(slots[j]) ==> slots[j].mmap != slots[i].mmap
    {
      assert slots[..][i] == slots[i];
      forall j | 0 <= j < MMAP_LIST_SIZE && j != i && InUse(slots[j]) ensures slots[j].mmap != slots[i].mmap {
        assert slots[..][j] == slots[j];
      }
    }
  }

  /** The limit is compared with `>`: one mapping more than MMAP_LIST_USE_MAX can be held. */
  method OneMore() returns (t: MmapTable)
    ensures fresh(t) && t.Valid() && t.entriesUsed == MMAP_LIST_USE_MAX + 1
  {
    t := new MmapTable();
    for n := 0 to MMAP_LIST_USE_MAX + 1
      invariant fresh(t) && fresh(t.slots) && t.Valid() && t.entriesUsed == n
      invariant forall i :: 0 <= i < MMAP_LIST_SIZE && InUse(t.slots[i]) ==> t.slots[i].key.ino < n
    {
      hide Mappings, Passed;
      var e := t.FindMmap(FileKey(0, n, 0), true, true);
    }
  }

  const FIRST_FILE: FileKey := FileKey(0, 0, 0)
  const SECOND_FILE: FileKey := FileKey(0, 256, 0)

  /** Two files with the same hash, and the first is released. */
  method LeaveGap() returns (t: MmapTable)
    ensures fresh(t) && fresh(t.slots) && t.Valid() && t.held == multiset{1} && t.created == 2 && t.entriesUsed == 1
    ensures !InUse(t.slots[0]) && Holds(t.slots[..], SECOND_FILE, 1)
  {
    hide Mappings, Passed, MmapTable.Valid, ProbeFinds;
    t := new MmapTable();
    ghost var s := t.slots[..];
    PassNone(s, FIRST_FILE);
    var e := t.FindMmap(FIRST_FILE, true, true);
    ProbeStops(s, FIRST_FILE, e.value, 0);
    s := t.slots[..];
    PassNone(s, SECOND_FILE);
    PassOne(s, SECOND_FILE, 0);
    var f := t.FindMmap(SECOND_FILE, true, true);
    ProbeStops(s, SECOND_FILE, f.value, 1);
    t.ReleaseMmap(e);
  }

  /** Then the second is still held, but no probe finds it any more, and the next request for it maps it again. */
  method MappedTwice() returns (t: MmapTable, ghost before: seq<Slot>)
    ensures fresh(t) && t.Valid() && t.held == multiset{0, 1} && t.created == 3
    ensures Holds(before, SECOND_FILE, 1) && !ProbeFinds(before, SECOND_FILE)
    ensures Holds(t.slots[..], SECOND_FILE, 0) && Holds(t.slots[..], SECOND_FILE, 1)
    ensures t.slots[0].mmap != t.slots[1].mmap
  {
    hide Mappings, Passed, ProbeFinds;
    t := LeaveGap();
    before := t.slots[..];
    PassNone(before, SECOND_FILE);
    ProbeEndsOnce(before, SECOND_FILE, 0);
    var g := t.FindMmap(SECOND_FILE, true, true);
    ProbeStops(before, SECOND_FILE, g.value, 0);
    t.HeldIsMapped(0);
  }

  lemma LiveMapping(s: seq<Slot>, i: nat, created: nat, gone: set<nat>)
    requires i < |s| && InUse(s[i]) && Mappings(s, created, gone)
    ensures s[i].mmap < created && s[i].mmap !in gone
  {
  }
}
