/**
  The turns of a request for a file in process_requests (src/request.c): its buffer is flushed, then the handler of its
  status is called, and free_request sends what is left; and what the socket gets over any number of turns.
  */
module Turns {
  import opened CStrings
  import opened Limits
  import opened RequestStatus
  import opened RangeSyntax
  import opened RangeTable
  import opened WireOrder
  import opened OutputBuffer
  import opened Layout
  import opened Delivery

  /** A result of a write, cut to what there was to write. */
  function Cut(w: IoResult, most: nat): IoResult {
    if w.Moved? && w.count > most then Moved(most) else w
  }

  /** The socket takes all that the buffer can hold. */
  predicate TakesAll(w: IoResult) {
    w.Moved? && w.count >= BUFFER_SIZE
  }

  /** A handler writes past the buffer while bytes still wait in it, because the flush before it was short. */
  predicate Crosses(t: Transfer, s: Step, haveSendfile: bool)
    reads t.out`status, t.out`bufferStart, t.out`bufferEnd
  {
    && (t.out.status == WRITE || (t.out.status == IOSHUFFLE && haveSendfile)) && Moves(s.write)
    && s.flush.Moved? && t.out.bufferStart + s.flush.count < t.out.bufferEnd
  }

  /** The flush at the start of a turn; the handler is called when the result is 1. */
  method FlushFirst(t: Transfer, w: IoResult) returns (r: int)
    requires t.Valid() && !Over(t.out.status)
    modifies t.out`status, t.out`bufferStart, t.out`bufferEnd, t.out`sent, t.out`stream
    ensures t.Valid() && -1 <= r <= 1
    ensures if r == 0 then t.out.status == DEAD && Over(t.out.status) && !t.Running()
            else t.out.status == old(t.out.status)
    ensures (r == 0 ==> w == Failed) && (r == 1 ==> old(t.out.bufferEnd) == 0 || w.Moved?) && (w.Moved? ==> r == 1)
    ensures t.Whole() == old(t.Whole())
    ensures r != 0 ==> (InOrder(t.out.stream) <==> old(InOrder(t.out.stream)))
    ensures r == 1 ==>
              (t.out.bufferStart < t.out.bufferEnd <==>
               w.Moved? && old(t.out.bufferStart) + w.count < old(t.out.bufferEnd))
    ensures TakesAll(w) ==> r == 1 && t.out.bufferEnd == 0
  {
    hide *;
    t.ValidMeans();
    t.SameMade(t.out.stream.made);
    DeadIs(t);
    r := FlushBuffer(t.out, w);
    DeadIs(t);
    t.PartsFrom();
    t.ValidFrom();
    t.SameMade(t.out.stream.made);
  }

  lemma DeadIs(t: Transfer)
    ensures t.out.status == DEAD ==> Over(t.out.status) && !t.Running()
  {
  }

  method FlushBuffer(out: Outgoing, w: IoResult) returns (r: int)
    requires out.Valid() && !Over(out.status)
    modifies out`status, out`bufferStart, out`bufferEnd, out`sent, out`stream
    ensures out.Valid() && -1 <= r <= 1
    ensures if r == 0 then out.status == DEAD else out.status == old(out.status)
    ensures (r == 0 ==> w == Failed) && (r == 1 ==> old(out.bufferEnd) == 0 || w.Moved?) && (w.Moved? ==> r == 1)
    ensures out.stream.made == old(out.stream.made)
    ensures r != 0 ==> (InOrder(out.stream) <==> old(InOrder(out.stream)))
    ensures r == 1 ==>
              (out.bufferStart < out.bufferEnd <==> w.Moved? && old(out.bufferStart) + w.count < old(out.bufferEnd))
    ensures TakesAll(w) ==> r == 1 && out.bufferEnd == 0
  {
    hide InOrder, Backs;
    r := 1;
    if out.bufferEnd != 0 {
      r := out.ReqFlush(Cut(w, out.bufferEnd - out.bufferStart));
      if r == -2 {
        out.status := DEAD;
        r := 0;
      } else if r >= 0 {
        r := 1;
      }
    }
  }

  /** Everything goes well in a turn: the flushes take all, and the read and the write move something. */
  predicate Productive(s: Step) {
    TakesAll(s.flush) && Moves(s.read) && Moves(s.write) && s.last != Failed && TakesAll(s.free)
  }

  /** The ranges are as they were, or those of one step further. */
  ghost predicate Onward(now: seq<RangeSpec>, was: seq<RangeSpec>) {
    now == was || Shrinks(now, was)
  }

  /** The room that the header of the next range finds at least, when the buffer is empty at the start of a turn. */
  function Room(direct: bool): nat {
    if direct then BUFFER_SIZE else 256
  }

  /** What a handler has done when everything went well, and the buffer was empty. */
  ghost predicate Advanced(t: Transfer, direct: bool, had: string, parts: nat, header: string)
    reads t`delivered, t`dataFd, t`lost, t.store`list, t.out`status
  {
    && |t.delivered| > |had| && (!direct ==> t.dataFd) && (!Over(t.out.status) ==> !t.lost)
    && (|header| <= Room(direct) ==> !Over(t.out.status))
    && (direct && |header| > BUFFER_SIZE && |t.store.list| < parts ==> t.out.status == DEAD)
  }

  /**
    The flush of free_request; the request is gone unless bytes are left. A flush that is blocked counts as none left:
    the request goes, and what was in the buffer is not sent.
    */
  method Release(t: Transfer, w: IoResult) returns (gone: bool)
    requires t.Valid() && (if t.Running() then t.out.bufferEnd == 0 else t.out.status == DONE || Over(t.out.status))
    modifies t.out`status, t.out`bufferStart, t.out`bufferEnd, t.out`sent, t.out`stream
    ensures t.Valid() && (t.out.status == old(t.out.status) || t.out.status == DEAD)
    ensures t.out.stream.made == old(t.out.stream.made) && t.Whole() == old(t.Whole())
    ensures old(Over(t.out.status)) ==> t.out.status == old(t.out.status)
    ensures !Over(t.out.status) ==> (InOrder(t.out.stream) <==> old(InOrder(t.out.stream)))
    ensures !gone ==> t.out.status == DONE
    ensures gone && !Over(t.out.status) ==> (t.out.bufferEnd != 0 <==> w == Blocked && old(t.out.bufferEnd) != 0)
    ensures TakesAll(w) && !Over(t.out.status) ==> gone && t.out.bufferEnd == 0
    ensures w != Failed ==> t.out.status == old(t.out.status)
  {
    hide *;
    t.ValidMeans();
    StatusIs(t);
    BoundsAre(t);
    t.SameMade(t.out.stream.made);
    gone := true;
    if t.out.bufferEnd != 0 && !Over(t.out.status) {
      t.out.status := DONE;
      gone := FlushLast(t.out, w);
      t.PartsFrom();
      DeadIs(t);
      t.ValidFrom();
    }
    t.SameMade(t.out.stream.made);
  }

  lemma BoundsAre(t: Transfer)
    requires t.out.Valid()
    ensures t.out.bufferStart <= t.out.bufferEnd <= BUFFER_SIZE
  {
  }

  method FlushLast(out: Outgoing, w: IoResult) returns (gone: bool)
    requires out.Consistent() && out.status == DONE && out.bufferEnd != 0
    modifies out`status, out`bufferStart, out`bufferEnd, out`sent, out`stream
    ensures out.Valid() && (out.status == DONE || out.status == DEAD) && (w != Failed ==> out.status == DONE)
    ensures out.stream.made == old(out.stream.made)
    ensures out.status == DONE ==> (InOrder(out.stream) <==> old(InOrder(out.stream)))
    ensures (!gone ==> out.status == DONE) && (gone && out.status == DONE ==> (out.bufferEnd != 0 <==> w == Blocked))
    ensures TakesAll(w) ==> gone && out.status == DONE && out.bufferEnd == 0
  {
    hide InOrder, Backs;
    var i := out.ReqFlush(Cut(w, out.bufferEnd - out.bufferStart));
    if i == -2 {
      out.status := DEAD;
    } else if i > 0 {
      return false;
    }
    return true;
  }

  /** The handler of the status, or the flush of a request that is done. */
  method Handle(t: Transfer, s: Step, haveSendfile: bool) returns (r: int)
    requires t.Valid() && !t.isHead && t.systemBufsize > 0 && (t.Running() || t.out.status == DONE)
    requires t.Running() ==> (t.mapped <==> t.out.status == WRITE)
    modifies t`bytesWritten, t`delivered, t`dataFd, t`lost
    modifies t.store`pool, t.store`free, t.store`freeBase, t.store`ranges, t.store`list, t.store`listBase
    modifies t.store.ranges
    modifies t.out, t.out.buffer
    ensures t.Valid() && -1 <= r <= 1 && (t.Running() ==> t.out.status == old(t.out.status))
    ensures Onward(Specs(t.store.list), old(Specs(t.store.list))) && old(t.delivered) <= t.delivered
    ensures t.store.list == old(t.store.list) || Tail(t.store.list, old(t.store.list))
    ensures !Over(t.out.status) ==> t.Whole() == old(t.Whole())
    ensures !Over(t.out.status) ==>
              (InOrder(t.out.stream) <==> old(InOrder(t.out.stream)) && t.out.crossed == old(t.out.crossed))
    ensures t.out.crossed == old(t.out.crossed) +
              if old(t.Running() && t.PastBuffer(haveSendfile) && t.out.bufferStart < t.out.bufferEnd) && Moves(s.write)
              then 1 else 0
    ensures r == 0 && t.Running() ==> t.out.bufferEnd == 0 && !t.dataFd && !old(t.PastBuffer(haveSendfile))
    ensures old(t.Running() && t.out.bufferEnd == 0 && (t.PastBuffer(haveSendfile) || t.dataFd)) && Productive(s) ==>
              && Advanced(t, old(t.PastBuffer(haveSendfile)), old(t.delivered), old(|t.store.list|),
                          old(t.NextHeader(Specs(t.store.list))))
              && (r == 0 ==> !t.Running())
    ensures old(t.out.status) == DONE && old(t.out.bufferEnd) == 0 ==>
              r == 0 && t.out.status == DONE && t.out.bufferEnd == 0 && t.lost == old(t.lost)
    ensures old(t.out.status) == DONE ==> t.out.status == DONE || Over(t.out.status)
  {
    hide Specs, Slices, Chain, Transfer.Books, Outgoing.Consistent, AllInside, InOrder, Transfer.Owed, Shrinks, Tail;
    hide Backs, Transfer.NextHeader, Transfer.Parts, RangeStore.Valid;
    t.ValidMeans();
    r := 0;
    if t.Running() {
      if t.PastBuffer(haveSendfile) {
        r := t.HandleDirect(s);
      } else {
        r := t.HandleShuffle(s);
        t.ValidMeans();
      }
    } else {
      r := t.out.ReqFlush(Cut(s.write, t.out.bufferEnd - t.out.bufferStart));
      t.PartsFrom();
      t.ValidFrom();
      if r == -2 {
        t.out.status := DEAD;
        r := 0;
      } else if r > 0 {
        r := 1;
      }
    }
  }

  /** One turn of process_requests; tells whether free_request has let the request go. */
  method Turn(t: Transfer, s: Step, haveSendfile: bool) returns (gone: bool)
    requires t.Valid() && !t.isHead && t.systemBufsize > 0 && (t.Running() || t.out.status == DONE)
    requires t.Running() ==> (t.mapped <==> t.out.status == WRITE)
    modifies t`bytesWritten, t`delivered, t`dataFd, t`lost
    modifies t.store`pool, t.store`free, t.store`freeBase, t.store`ranges, t.store`list, t.store`listBase
    modifies t.store.ranges
    modifies t.out, t.out.buffer
    ensures t.Valid() && (t.Running() ==> old(t.Running()) && t.out.status == old(t.out.status))
    ensures t.Running() || t.out.status == DONE || Over(t.out.status)
    ensures Onward(Specs(t.store.list), old(Specs(t.store.list))) && old(t.delivered) <= t.delivered
    ensures t.store.list == old(t.store.list) || Tail(t.store.list, old(t.store.list))
    ensures !Over(t.out.status) ==> t.Whole() == old(t.Whole())
    ensures !Over(t.out.status) ==>
              (InOrder(t.out.stream) <==> old(InOrder(t.out.stream)) && t.out.crossed == old(t.out.crossed))
    ensures t.out.crossed == old(t.out.crossed) + if old(Crosses(t, s, haveSendfile)) then 1 else 0
    ensures gone && !Over(t.out.status) ==> t.out.bufferEnd == 0 || s.free == Blocked
    ensures old(t.Running() && (t.PastBuffer(haveSendfile) || t.dataFd)) && Productive(s) ==>
              && Advanced(t, old(t.PastBuffer(haveSendfile)), old(t.delivered), old(|t.store.list|),
                          old(t.NextHeader(Specs(t.store.list))))
              && (gone ==> !t.Running())
    ensures old(t.out.status) == DONE && Productive(s) ==> gone && t.out.status == DONE && t.lost == old(t.lost)
    ensures Productive(s) && gone && t.out.status == DONE ==> t.out.bufferEnd == 0
  {
    hide *;
    StatusIs(t);
    TurnMeans(t, s, haveSendfile);
    gone := false;
    var r := FlushFirst(t, s.flush);
    if r == 1 {
      r := Handle(t, s, haveSendfile);
      StatusIs(t);
    }
    if r == 0 {
      gone := Release(t, s.free);
      StatusIs(t);
    }
    DeadIs(t);
  }

  lemma TurnMeans(t: Transfer, s: Step, haveSendfile: bool)
    ensures Crosses(t, s, haveSendfile) <==>
              && t.Running() && t.PastBuffer(haveSendfile) && Moves(s.write)
              && s.flush.Moved? && t.out.bufferStart + s.flush.count < t.out.bufferEnd
    ensures Productive(s) ==>
              TakesAll(s.flush) && TakesAll(s.free) && s.free != Failed && Moves(s.write) && Moves(s.read)
    ensures Onward(Specs(t.store.list), Specs(t.store.list))
  {
  }

  // ----- any number of turns

  /** The headers of the ranges behind the first one fit into the room. */
  ghost predicate HeadersFit(t: Transfer, rs: seq<RangeSpec>, room: nat)
    reads t.store`numranges
  {
    forall i {:trigger rs[i]} :: 1 <= i < |rs| ==>
      |Concat(PartHeader(t.store.numranges > 1, t.contentType, rs[i], |t.file|))| <= room
  }

  lemma HeadersOn(t: Transfer, now: seq<RangeSpec>, was: seq<RangeSpec>, room: nat)
    requires Onward(now, was)
    ensures HeadersFit(t, was, room) ==> HeadersFit(t, now, room) && |t.NextHeader(was)| <= room
    ensures HeadersFit(t, now, room) && (|now| < |was| ==> |t.NextHeader(was)| <= room) ==> HeadersFit(t, was, room)
  {
    hide PartHeader, Concat;
    if |now| == |was| {
      forall i | 1 <= i < |was| ensures now[i] == was[i] {
        assert now[1..][i - 1] == was[1..][i - 1];
      }
    } else {
      assert forall i :: 1 <= i < |now| ==> now[i] == was[i + 1];
      assert forall i :: 2 <= i < |was| ==> was[i] == now[i - 1];
    }
  }

  /** A content type of up to 172 characters leaves every header within 256. */
  lemma ShortHeadersFit(t: Transfer, rs: seq<RangeSpec>, room: nat)
    requires |t.file| < LONG_MIN && |Concat(t.contentType)| + 84 <= room
    ensures HeadersFit(t, rs, room)
  {
    hide PartHeader, Concat;
    forall i | 1 <= i < |rs|
      ensures |Concat(PartHeader(t.store.numranges > 1, t.contentType, rs[i], |t.file|))| <= room
    {
      HeaderLength(t.store.numranges > 1, t.contentType, rs[i], |t.file|);
    }
  }

  /** How a run stands after `i` turns in which everything went well. */
  ghost predicate Well(t: Transfer, direct: bool, was: seq<RangeSpec>, had: string, lost: bool, i: nat, gone: bool)
    reads t`delivered, t`dataFd, t`lost, t.store`numranges, t.store`list, t.store.list, t.out
  {
    && (!Over(t.out.status) ==> t.lost == lost && (gone ==> t.out.status == DONE && t.out.bufferEnd == 0))
    && (!Over(t.out.status) && !gone ==> |t.delivered| >= |had| + i && (direct || t.dataFd || !t.Running()))
    && (HeadersFit(t, was, Room(direct)) ==>
          !Over(t.out.status) && HeadersFit(t, Specs(t.store.list), Room(direct)))
    && (direct && !Over(t.out.status) && HeadersFit(t, Specs(t.store.list), BUFFER_SIZE) ==>
          HeadersFit(t, was, BUFFER_SIZE))
  }

  /** A turn in which everything went well, in terms of the state before it. */
  lemma WellOn(t: Transfer, direct: bool, was: seq<RangeSpec>, had: string, lost: bool, i: nat, gone: bool,
               d: string, rs: seq<RangeSpec>)
    requires |d| >= |had| + i && !lost && Onward(Specs(t.store.list), rs)
    requires HeadersFit(t, was, Room(direct)) ==> HeadersFit(t, rs, Room(direct))
    requires direct && HeadersFit(t, rs, BUFFER_SIZE) ==> HeadersFit(t, was, BUFFER_SIZE)
    requires Advanced(t, direct, d, |rs|, t.NextHeader(rs))
    requires gone ==> !t.Running() && (t.out.status == DONE ==> t.out.bufferEnd == 0)
    requires t.Running() || t.out.status == DONE || Over(t.out.status)
    ensures Well(t, direct, was, had, lost, i + 1, gone)
  {
    hide HeadersFit, Onward, Specs, Transfer.NextHeader;
    HeadersOn(t, Specs(t.store.list), rs, Room(direct));
  }

  lemma WellKnown(t: Transfer, direct: bool, was: seq<RangeSpec>, had: string, lost: bool, i: nat, gone: bool)
    requires Well(t, direct, was, had, lost, i, gone) && !gone && !Over(t.out.status)
    ensures t.lost == lost && |t.delivered| >= |had| + i && (direct || t.dataFd || !t.Running())
    ensures HeadersFit(t, was, Room(direct)) ==> HeadersFit(t, Specs(t.store.list), Room(direct))
    ensures direct && HeadersFit(t, Specs(t.store.list), BUFFER_SIZE) ==> HeadersFit(t, was, BUFFER_SIZE)
  {
  }

  /** A request that was done already has been flushed. */
  lemma WellDone(t: Transfer, direct: bool, was: seq<RangeSpec>, had: string, lost: bool, i: nat, rs: seq<RangeSpec>)
    requires t.out.status == DONE && t.out.bufferEnd == 0 && t.lost == lost
    requires |rs| <= 1 && Onward(Specs(t.store.list), rs)
    requires direct && HeadersFit(t, rs, BUFFER_SIZE) ==> HeadersFit(t, was, BUFFER_SIZE)
    ensures Well(t, direct, was, had, lost, i, true)
  {
  }

  lemma WellEnded(t: Transfer, direct: bool, was: seq<RangeSpec>, had: string, lost: bool, i: nat, gone: bool)
    requires Well(t, direct, was, had, lost, i, gone) && t.Valid() && !t.isHead
    requires gone || Over(t.out.status) || |had| + i > |t.plan|
    ensures HeadersFit(t, was, Room(direct)) ==> t.out.status == DONE
    ensures direct && t.out.status == DONE ==> HeadersFit(t, was, BUFFER_SIZE)
    ensures t.out.status == DONE || Over(t.out.status)
    ensures t.out.status == DONE ==> gone && t.out.bufferEnd == 0 && t.lost == lost
  {
    hide Specs, Chain, PartHeader, Concat;
    t.DeliveredInOrder();
    if t.out.status == DONE {
      assert |Specs(t.store.list)| == 0;
    }
  }

  /**
    Any run of turns. What is delivered is a front of the plan. Everything that is written, part headers and closing
    separator included, is written in the order of the response, under every schedule; and the socket gets it in that
    order if and only if no direct write has overtaken bytes in the buffer. When everything goes well, the request gets
    done if and only if the headers of its parts fit, and the socket has got all of the response.
    */
  method TakeTurns(t: Transfer, schedule: seq<Step>, haveSendfile: bool) returns (gone: bool)
    requires t.Valid() && !t.isHead && t.systemBufsize > 0 && (t.Running() || t.out.status == DONE)
    requires t.Running() ==> (t.mapped <==> t.out.status == WRITE)
    modifies t`bytesWritten, t`delivered, t`dataFd, t`lost
    modifies t.store`pool, t.store`free, t.store`freeBase, t.store`ranges, t.store`list, t.store`listBase, t.store.list
    modifies t.out, t.out.buffer
    ensures t.Valid() && old(t.delivered) <= t.delivered <= t.plan
    ensures t.out.status == DONE ==> t.delivered == t.plan
    ensures !Over(t.out.status) ==> t.Whole() == old(t.Whole())
    ensures !Over(t.out.status) ==>
              (InOrder(t.out.stream) <==> old(InOrder(t.out.stream)) && t.out.crossed == old(t.out.crossed))
    ensures old(t.out.crossed) <= t.out.crossed
    ensures (forall s :: s in schedule ==> TakesAll(s.flush)) ==> t.out.crossed == old(t.out.crossed)
    ensures (forall s :: s in schedule ==> Productive(s)) && |schedule| > |t.plan| - |old(t.delivered)| &&
            old(t.Running() ==> t.PastBuffer(haveSendfile) || t.dataFd) ==>
              Finished(t, gone, old(t.PastBuffer(haveSendfile)), old(Specs(t.store.list)), old(t.lost), old(t.Whole()),
                       old(InOrder(t.out.stream)))
  {
    hide *;
    ghost var k := Start(t.Whole(), InOrder(t.out.stream), t.out.crossed, t.delivered, Specs(t.store.list),
                         t.store.list, t.PastBuffer(haveSendfile), t.out.status, haveSendfile, t.lost);
    ghost var good := (forall s :: s in schedule ==> Productive(s)) && (t.Running() ==> k.direct || t.dataFd);
    gone := false;
    var i := 0;
    SetsOut(t, k);
    if good {
      WellStarts(t, k.direct);
    }
    while i < |schedule| && !gone && !Over(t.out.status)
      invariant i <= |schedule| && Along(t, k) && (good ==> Well(t, k.direct, k.was, k.had, k.lost, i, gone))
      invariant (forall s :: s in schedule ==> TakesAll(s.flush)) ==> t.out.crossed == k.crossed
      invariant |t.store.list| <= |k.list| && t.store.list == k.list[|k.list| - |t.store.list|..]
      decreases |schedule| - i
    {
      FirstListed(t, k);
      gone := TakeTurn(t, schedule[i], haveSendfile, k, i, good);
      i := i + 1;
    }
    Arrived(t, k);
    if good && |schedule| > |t.plan| - |k.had| {
      AllTaken(schedule);
      Concluded(t, k, i, gone);
    }
  }

  /**
    What a run in which everything went well has come to: the request is done if the headers fit, and for direct writes
    only if; then it is gone, and the socket has got the whole response.
    */
  ghost predicate Finished(t: Transfer, gone: bool, direct: bool, was: seq<RangeSpec>, lost: bool, whole: string,
                           ordered: bool)
    reads t`lost, t.store`numranges, t.out
  {
    && (t.out.status == DONE || Over(t.out.status))
    && (HeadersFit(t, was, Room(direct)) ==> t.out.status == DONE)
    && (direct && t.out.status == DONE ==> HeadersFit(t, was, BUFFER_SIZE))
    && (t.out.status == DONE ==> gone && t.out.bufferEnd == 0 && t.lost == lost)
    && (t.out.status == DONE && ordered ==>
          Genuine(t.out.stream) && Wire(t.out.stream) + (if lost then CLOSING_SEPARATOR else "") == whole)
  }

  lemma Concluded(t: Transfer, k: Start, i: nat, gone: bool)
    requires Along(t, k) && Well(t, k.direct, k.was, k.had, k.lost, i, gone) && !t.isHead && t.out.crossed == k.crossed
    requires gone || Over(t.out.status) || |k.had| + i > |t.plan|
    ensures Finished(t, gone, k.direct, k.was, k.lost, k.whole, k.ordered)
  {
    hide Well, HeadersFit, Genuine;
    WellEnded(t, k.direct, k.was, k.had, k.lost, i, gone);
    if t.out.status == DONE && k.ordered {
      Received(t);
    }
  }

  lemma AllTaken(schedule: seq<Step>)
    ensures (forall s :: s in schedule ==> Productive(s)) ==> forall s :: s in schedule ==> TakesAll(s.flush)
  {
  }

  /** In order, the socket has got a front of the response, and all of it but what waits and what is still owed. */
  lemma Received(t: Transfer)
    requires t.Valid() && !t.isHead && !Over(t.out.status) && InOrder(t.out.stream)
    ensures Genuine(t.out.stream) && Wire(t.out.stream) <= t.Whole()
    ensures Wire(t.out.stream) + t.out.Pending() + t.Owed(Specs(t.store.list)) == t.Whole()
    ensures t.out.status == DONE && t.out.bufferEnd == 0 ==>
              Wire(t.out.stream) + (if t.lost then CLOSING_SEPARATOR else "") == t.Whole()
    ensures t.out.status == DONE && t.out.bufferEnd == 0 && !t.lost ==> Wire(t.out.stream) == t.Whole()
  {
    hide Specs, Chain, Transfer.Books, CLOSING_SEPARATOR;
    OrderedWire(t.out.stream, t.out.Pending());
    if t.out.status == DONE && t.out.bufferEnd == 0 {
      assert |Specs(t.store.list)| == 0;
      assert t.out.Pending() == "" && Wire(t.out.stream) + "" == Wire(t.out.stream);
    }
  }

  /** What a run looks back on. */
  datatype Start = Start(whole: string, ordered: bool, crossed: nat, had: string, was: seq<RangeSpec>, list: seq<Range>,
                         direct: bool, status: Status, sendfile: bool, lost: bool)

  ghost predicate Along(t: Transfer, k: Start)
    reads t, t.store, t.store.free, t.store.list, t.out, t.out.buffer
  {
    && t.Valid() && k.had <= t.delivered && (t.Running() ==> t.out.status == k.status)
    && (!Over(t.out.status) ==>
          t.Whole() == k.whole && (InOrder(t.out.stream) <==> k.ordered && t.out.crossed == k.crossed))
    && k.crossed <= t.out.crossed
    && (t.Running() ==> (t.mapped <==> t.out.status == WRITE) && (k.direct <==> t.PastBuffer(k.sendfile)))
  }

  lemma SetsOut(t: Transfer, k: Start)
    requires t.Valid() && k.had == t.delivered && t.out.status == k.status && t.Whole() == k.whole
    requires (k.ordered <==> InOrder(t.out.stream)) && k.crossed == t.out.crossed
    requires t.Running() ==> (t.mapped <==> t.out.status == WRITE) && (k.direct <==> t.PastBuffer(k.sendfile))
    ensures Along(t, k) && t.store.list[0..] == t.store.list
  {
  }

  lemma Arrived(t: Transfer, k: Start)
    requires Along(t, k) && !t.isHead
    ensures t.Valid() && k.had <= t.delivered <= t.plan && (t.out.status == DONE ==> t.delivered == t.plan)
    ensures t.out.status == DONE ==> !Over(t.out.status)
    ensures !Over(t.out.status) ==>
              t.Whole() == k.whole && (InOrder(t.out.stream) <==> k.ordered && t.out.crossed == k.crossed)
    ensures k.crossed <= t.out.crossed
  {
    t.DeliveredInOrder();
  }

  lemma FirstListed(t: Transfer, k: Start)
    requires Along(t, k)
    ensures t.store.ranges == if t.store.list == [] then null else t.store.list[0]
  {
  }

  /** A turn of a run. */
  method TakeTurn(t: Transfer, s: Step, haveSendfile: bool, ghost k: Start, ghost i: nat, ghost good: bool)
    returns (gone: bool)
    requires Along(t, k) && !t.isHead && t.systemBufsize > 0 && !Over(t.out.status)
    requires haveSendfile == k.sendfile
    requires good ==> Well(t, k.direct, k.was, k.had, k.lost, i, false) && Productive(s)
    requires |t.store.list| <= |k.list| && t.store.list == k.list[|k.list| - |t.store.list|..]
    modifies t`bytesWritten, t`delivered, t`dataFd, t`lost
    modifies t.store`pool, t.store`free, t.store`freeBase, t.store`ranges, t.store`list, t.store`listBase
    modifies t.store.ranges
    modifies t.out, t.out.buffer
    ensures Along(t, k) && (good ==> Well(t, k.direct, k.was, k.had, k.lost, i + 1, gone))
    ensures TakesAll(s.flush) ==> t.out.crossed == old(t.out.crossed)
    ensures |t.store.list| <= |k.list| && t.store.list == k.list[|k.list| - |t.store.list|..]
  {
    hide *;
    ghost var d, rs, list, running := t.delivered, Specs(t.store.list), t.store.list, t.Running();
    AlongIs(t, k);
    NoCross(t, s, haveSendfile);
    if good {
      WellKnown(t, k.direct, k.was, k.had, k.lost, i, false);
    }
    gone := Turn(t, s, haveSendfile);
    if t.store.list != list {
      DropFront(k.list, list, t.store.list);
    }
    AlongFrom(t, k);
    if good {
      if running {
        WellOn(t, k.direct, k.was, k.had, k.lost, i, gone, d, rs);
      } else {
        WellDone(t, k.direct, k.was, k.had, k.lost, i + 1, rs);
      }
    }
  }

  lemma AlongIs(t: Transfer, k: Start)
    requires Along(t, k)
    ensures t.Valid() && k.had <= t.delivered && (t.Running() ==> t.out.status == k.status)
    ensures t.Running() ==> (t.mapped <==> t.out.status == WRITE) && (k.direct <==> t.PastBuffer(k.sendfile))
    ensures t.Running() || t.out.status == DONE || Over(t.out.status)
    ensures t.out.status == DONE ==> t.store.list == []
    ensures !Over(t.out.status) ==>
              t.Whole() == k.whole && (InOrder(t.out.stream) <==> k.ordered && t.out.crossed == k.crossed)
    ensures k.crossed <= t.out.crossed
  {
  }

  lemma AlongFrom(t: Transfer, k: Start)
    requires t.Valid() && k.had <= t.delivered && (t.Running() ==> t.out.status == k.status)
    requires t.Running() ==> (t.mapped <==> t.out.status == WRITE) && (k.direct <==> t.PastBuffer(k.sendfile))
    requires !Over(t.out.status) ==>
               t.Whole() == k.whole && (InOrder(t.out.stream) <==> k.ordered && t.out.crossed == k.crossed)
    requires k.crossed <= t.out.crossed
    ensures Along(t, k)
  {
  }

  lemma WellStarts(t: Transfer, direct: bool)
    requires (t.Running() || t.out.status == DONE) && (t.Running() ==> direct || t.dataFd)
    ensures Well(t, direct, Specs(t.store.list), t.delivered, t.lost, 0, false)
  {
  }

  lemma NoCross(t: Transfer, s: Step, haveSendfile: bool)
    requires t.Valid()
    ensures TakesAll(s.flush) ==> !Crosses(t, s, haveSendfile)
  {
  }

  /** What follows on init_get: free_request if its result is 0, and turns as long as the request is there. */
  method GoOn(t: Transfer, r: int, freed: IoResult, schedule: seq<Step>, haveSendfile: bool) returns (gone: bool)
    requires t.Valid() && !t.isHead && t.systemBufsize > 0 && (r == 0 ==> !t.Running())
    requires t.Running() ==> (t.mapped <==> t.out.status == WRITE)
    modifies t`bytesWritten, t`delivered, t`dataFd, t`lost
    modifies t.store`pool, t.store`free, t.store`freeBase, t.store`ranges, t.store`list, t.store`listBase, t.store.list
    modifies t.out, t.out.buffer
    ensures t.Valid() && old(t.delivered) <= t.delivered <= t.plan
    ensures t.out.status == DONE ==> t.delivered == t.plan
    ensures old(Over(t.out.status)) ==> t.out.status == old(t.out.status)
    ensures !Over(t.out.status) ==> t.Whole() == old(t.Whole())
    ensures !Over(t.out.status) ==>
              (InOrder(t.out.stream) <==> old(InOrder(t.out.stream)) && t.out.crossed == old(t.out.crossed))
    ensures old(!Over(t.out.status)) && AllGood(freed, schedule, |t.plan| - |old(t.delivered)|) &&
            old(t.Running() ==> t.PastBuffer(haveSendfile) || t.dataFd) ==>
              Finished(t, gone, old(t.PastBuffer(haveSendfile)), old(Specs(t.store.list)), old(t.lost), old(t.Whole()),
                       old(InOrder(t.out.stream)))
  {
    hide *;
    ghost var whole, rs, ordered := t.Whole(), Specs(t.store.list), InOrder(t.out.stream);
    gone := false;
    StatusIs(t);
    t.DeliveredInOrder();
    if r == 0 {
      gone := Release(t, freed);
      StatusIs(t);
      TookIt(freed);
      if t.out.status == DONE && TakesAll(freed) {
        FinishedNow(t, t.PastBuffer(haveSendfile), rs, whole, ordered);
      }
    }
    if !gone && !Over(t.out.status) {
      gone := TakeTurns(t, schedule, haveSendfile);
    }
    GoodMeans(freed, schedule, |t.plan| - |old(t.delivered)|);
  }

  lemma TookIt(w: IoResult)
    ensures TakesAll(w) ==> w != Failed
  {
  }

  lemma GoodMeans(freed: IoResult, schedule: seq<Step>, n: int)
    ensures AllGood(freed, schedule, n) ==>
              TakesAll(freed) && (forall s :: s in schedule ==> Productive(s)) && |schedule| > n
  {
  }

  /** The response was in the buffer whole when the request was done, and has been flushed. */
  lemma FinishedNow(t: Transfer, direct: bool, was: seq<RangeSpec>, whole: string, ordered: bool)
    requires t.Valid() && !t.isHead && t.out.status == DONE && t.out.bufferEnd == 0 && was == []
    requires t.Whole() == whole && (ordered <==> InOrder(t.out.stream))
    ensures Finished(t, true, direct, was, t.lost, whole, ordered)
  {
    hide Genuine;
    if ordered {
      Received(t);
    }
  }

  predicate AllGood(freed: IoResult, schedule: seq<Step>, n: int) {
    TakesAll(freed) && (forall s :: s in schedule ==> Productive(s)) && |schedule| > n
  }

  lemma StatusIs(t: Transfer)
    requires t.Valid()
    ensures t.Running() || t.out.status == DONE || Over(t.out.status)
    ensures t.Running() || t.out.status == DONE ==> !Over(t.out.status)
    ensures Over(t.out.status) ==> !t.Running()
    ensures t.out.status == DONE ==> t.store.list == [] && !t.Running()
  {
  }
}
