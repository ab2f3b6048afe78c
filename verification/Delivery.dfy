/**
  Delivery of the ranges of a file under short and blocked writes: init_get and process_get (src/get.c),
  complete_response (src/response.c), io_shuffle_sendfile and io_shuffle (src/pipe.c).
  */
module Delivery {
  import opened CStrings
  import opened Limits
  import opened RequestStatus
  import opened RangeSyntax
  import opened RangeTable
  import opened OutputBuffer
  import opened WireOrder
  import opened Decimal
  import opened Layout
  import PartReader

  /** The first range has lost bytes at its start, or it is gone. */
  predicate Shrinks(now: seq<RangeSpec>, was: seq<RangeSpec>) {
    was != [] && (now == was[1..] || (|now| == |was| && now[1..] == was[1..]))
  }

  /** The list is what it was, or has lost its first node. */
  predicate Tail(now: seq<Range>, was: seq<Range>) {
    now == was || (was != [] && now == was[1..])
  }

  class Transfer {
    const file: string
    const store: RangeStore
    const out: Outgoing
    const isHead: bool
    /** How much the kernel takes at a time. */
    const systemBufsize: nat
    /** What print_content_type writes. */
    const contentType: seq<string>
    var mapped: bool
    var dataFd: bool
    var partial: bool
    var bytesWritten: nat
    /** The bytes of the file that were handed to the socket or to the output buffer, and those that should be. */
    ghost var delivered: string
    ghost var plan: string
    /** The closing separator did not fit. */
    ghost var lost: bool

    constructor (file: string, store: RangeStore, out: Outgoing, isHead: bool, systemBufsize: nat,
                 contentType: seq<string>)
      ensures this.file == file && this.store == store && this.out == out
      ensures this.isHead == isHead && this.systemBufsize == systemBufsize
      ensures this.contentType == contentType
      ensures delivered == plan == "" && bytesWritten == 0 && !mapped && !partial && !lost
    {
      this.contentType := contentType;
      this.file, this.store, this.out, this.isHead, this.systemBufsize := file, store, out, isHead, systemBufsize;
      mapped, dataFd, partial, bytesWritten := false, false, false, 0;
      delivered, plan, lost := "", "", false;
    }

    ghost predicate Parts()
      reads store, store.free, store.list, out, out.buffer
    {
      store.Valid() && out.Valid() && store.filesize == |file| < LONG_MIN
    }

    /** What was delivered, and what the ranges still ask for, make up the plan. */
    ghost predicate Books(rs: seq<RangeSpec>)
      reads this`delivered, this`plan, this`mapped, this`bytesWritten
    {
      && AllInside(rs, |file|)
      && (if isHead then delivered == "" else delivered + Slices(file, rs) == plan)
      && (mapped ==> bytesWritten == |delivered|)
    }

    /** Only a partial response to several ranges goes on after its first range. */
    ghost predicate Several()
      reads this`partial, store`numranges
    {
      partial && store.numranges > 1
    }

    predicate Running()
      reads out`status
    {
      out.status == WRITE || out.status == IOSHUFFLE
    }

    ghost predicate Valid()
      reads this, store, store.free, store.list, out, out.buffer
    {
      Parts() && Books(Specs(store.list)) && (Several() || |store.list| <= 1)
      && (Running() ==> store.list != []) && (out.status == DONE ==> store.list == []) && (lost ==> store.list == [])
      && (Running() || out.status == DONE || Over(out.status))
    }

    /** What is still to be written for these ranges, the first of which has got its header. */
    ghost function Owed(rs: seq<RangeSpec>): string
      reads this`lost, this`partial, store`numranges
    {
      if lost then CLOSING_SEPARATOR else Script(file, partial && store.numranges > 1, contentType, rs)
    }

    /** Everything written, and everything that is still to be. */
    ghost function Whole(): string
      reads this`lost, this`partial, store`numranges, store`list, store.list, out`stream
    {
      out.stream.made + Owed(Specs(store.list))
    }

    /** The header of the next range, as it is written when the first one is done. */
    ghost function NextHeader(rs: seq<RangeSpec>): string
      reads store`numranges
    {
      if |rs| <= 1 then "" else Concat(PartHeader(store.numranges > 1, contentType, rs[1], |file|))
    }

    /** With `n` bytes more the last part ends, and the closing separator does not fit behind `end`. */
    ghost predicate Closes(n: int, end: int)
      reads this`partial, store`numranges, store`list, store.list
    {
      && n == Wanted(Specs(store.list)) && |store.list| == 1 && Several()
      && end + |CLOSING_SEPARATOR| > BUFFER_SIZE
    }

    /** It fits behind what the buffer has now. */
    ghost predicate NextFits()
      reads store`numranges, store`list, store.list, out`bufferEnd
    {
      out.bufferEnd + |NextHeader(Specs(store.list))| <= BUFFER_SIZE
    }

    /** A row of messages that go to the output buffer, until one does not fit. */
    method WriteAll(texts: seq<string>)
      requires out.Valid()
      modifies out`status, out`bufferEnd, out`appended, out`stream, out.buffer
      ensures out.Valid() && (out.status == old(out.status) || out.status == DEAD)
      ensures old(out.Consistent()) ==> out.Consistent()
      ensures old(out.appended) <= out.appended
      ensures !old(Over(out.status)) ==>
                && out.appended == old(out.appended) + Fitting(texts, old(out.bufferEnd))
                && out.stream.made == old(out.stream.made) + Fitting(texts, old(out.bufferEnd))
                && (!Over(out.status) ==> out.bufferEnd == old(out.bufferEnd) + |Fitting(texts, old(out.bufferEnd))|)
                && (InOrder(out.stream) <==> old(InOrder(out.stream)))
                && out.status == if AllFit(texts, old(out.bufferEnd)) then old(out.status) else DEAD
    {
      hide Outgoing.Consistent, Fitting, AllFit, InOrder;
      ghost var was, made, end, done := out.appended, out.stream.made, out.bufferEnd, "";
      FittingNone(end);
      assert texts[0..] == texts && was + "" == was && made + "" == made;
      if !Over(out.status) {
        out.AliveIsConsistent();
      }
      for i := 0 to |texts|
        invariant out.Valid() && (out.status == old(out.status) || out.status == DEAD)
        invariant old(out.Consistent()) ==> out.Consistent()
        invariant was <= out.appended
        invariant !old(Over(out.status)) ==> (InOrder(out.stream) <==> old(InOrder(out.stream)))
        invariant !Over(out.status) ==>
                    && out.appended == was + done && out.stream.made == made + done && out.bufferEnd == end + |done|
                    && Fitting(texts, end) == done + Fitting(texts[i..], out.bufferEnd)
                    && AllFit(texts, end) == AllFit(texts[i..], out.bufferEnd)
        invariant Over(out.status) && !old(Over(out.status)) ==>
                    && out.appended == was + Fitting(texts, end) && out.stream.made == made + Fitting(texts, end)
                    && !AllFit(texts, end)
      {
        FittingStep(texts, i, out.bufferEnd, was, done);
        Assoc(made, done, texts[i]);
        var _ := out.ReqWrite(texts[i]);
        done := done + texts[i];
      }
      assert texts[|texts|..] == [];
      FittingNone(out.bufferEnd);
    }

    /** The closing separator; the status is DONE even when the separator did not fit. */
    method CloseParts(w: IoResult)
      requires out.Consistent() && !lost
      modifies this`lost, out`status, out`bufferStart, out`bufferEnd, out`sent, out`appended, out`stream, out.buffer
      ensures !old(Over(out.status)) ==>
                && out.appended == old(out.appended) + ClosingPart(old(out.bufferEnd))
                && out.stream.made == old(out.stream.made) + ClosingPart(old(out.bufferEnd))
                && (lost <==> old(out.bufferEnd) + |CLOSING_SEPARATOR| > BUFFER_SIZE)
                && (!Over(out.status) ==> (InOrder(out.stream) <==> old(InOrder(out.stream))))
      ensures out.Valid() && (out.status == DONE || out.status == DEAD) && (w != Failed ==> out.status == DONE)
      ensures old(out.appended) <= out.appended
    {
      hide *;
      ClosingIs(out.bufferEnd);
      DoneIsAlive();
      out.ConsistentIsValid();
      SomethingCloses();
      assert out.appended + "" == out.appended && out.stream.made + "" == out.stream.made;
      var written := out.ReqWrite(CLOSING_SEPARATOR);
      lost := written == None;
      out.status := DONE;
      out.ConsistentIsValid();
      var left := out.bufferEnd - out.bufferStart;
      var _ := out.ReqFlush(if w.Moved? && w.count > left then Moved(left) else w);
    }

    lemma DoneIsAlive()
      ensures !Over(DONE)
    {
    }

    /** print_partial_content_continue: the header of the range that is now the first. */
    method OpenPart()
      requires Parts() && store.list != []
      modifies out`status, out`bufferEnd, out`appended, out`stream, out.buffer
      ensures out.Valid() && (out.status == old(out.status) || out.status == DEAD)
      ensures old(out.Consistent()) ==> out.Consistent()
      ensures old(out.appended) <= out.appended
      ensures !old(Over(out.status)) ==>
                var h := PartHeader(store.numranges > 1, contentType, Specs(store.list)[0], |file|);
                && out.appended == old(out.appended) + Fitting(h, old(out.bufferEnd))
                && out.stream.made == old(out.stream.made) + Fitting(h, old(out.bufferEnd))
                && (InOrder(out.stream) <==> old(InOrder(out.stream)))
                && out.status == (if old(out.bufferEnd) + |Concat(h)| <= BUFFER_SIZE then old(out.status) else DEAD)
                && (!Over(out.status) ==> Fitting(h, old(out.bufferEnd)) == Concat(h))
      ensures !Over(out.status) && store.ranges.start <= store.ranges.stop < |file| ==>
                PartReader.ReadHead(store.numranges > 1, Concat(contentType), out.appended[|old(out.appended)|..]) ==
                  PartReader.PartHead(store.ranges.start, store.ranges.stop, |file|, "")
    {
      hide *;
      PartsKnown();
      FirstIs();
      BufferIs();
      Alive(false);
      ghost var h := PartHeader(store.numranges > 1, contentType, Specs(store.list)[0], |file|);
      AllFitMeans(h, out.bufferEnd);
      HeaderRead(store.numranges > 1, RangeSpec(store.ranges.start, store.ranges.stop));
      WriteAll(PartHeader(store.numranges > 1, contentType, RangeSpec(store.ranges.start, store.ranges.stop),
                          store.filesize));
    }

    lemma BufferIs()
      requires out.Valid()
      ensures out.bufferEnd <= BUFFER_SIZE
    {
    }

    lemma HeaderRead(several: bool, r: RangeSpec)
      ensures r.start <= r.stop < |file| ==>
                PartReader.ReadHead(several, Concat(contentType), Concat(PartHeader(several, contentType, r, |file|)))
                  == PartReader.PartHead(r.start, r.stop, |file|, "")
    {
      hide PartHeader, Concat, PartReader.ReadHead;
      if r.start <= r.stop < |file| {
        var h := Concat(PartHeader(several, contentType, r, |file|));
        PartReader.HeaderIsRead(several, contentType, r, |file|, "");
        assert h + "" == h;
      }
    }

    /** complete_response: the first range is done. */
    method CompleteResponse(w: IoResult) returns (r: int)
      requires Parts() && store.list != [] && Books(Specs(store.list)[1..]) && !lost
      requires out.Consistent() && (Running() || Over(out.status)) && (Several() || |store.list| <= 1)
      modifies store`pool, store`free, store`freeBase, store`ranges, store`list, store`listBase, store.ranges
      modifies this`lost
      modifies out`status, out`bufferStart, out`bufferEnd, out`sent, out`appended, out`stream, out.buffer
      ensures Valid() && 0 <= r <= 1 && Specs(store.list) == old(Specs(store.list))[1..]
      ensures store.list == old(store.list)[1..] && (Running() ==> out.status == old(out.status))
      ensures store.list == [] ==> !Running()
      ensures r == 0 ==> out.status == DONE || Over(out.status)
      ensures old(out.appended) <= out.appended
      ensures !Several() ==> unchanged(out`appended, out`stream, this`lost) && out.status == DONE
      ensures old(Several() && |store.list| > 1 && !Over(out.status)) ==>
                var h := PartHeader(store.numranges > 1, contentType, Specs(store.list)[0], |file|);
                && out.appended == old(out.appended) + Fitting(h, old(out.bufferEnd))
                && out.status == (if old(out.bufferEnd) + |Concat(h)| <= BUFFER_SIZE then old(out.status) else DEAD)
                && !lost
      ensures old(Several() && |store.list| == 1 && !Over(out.status)) ==>
                && out.appended == old(out.appended) + ClosingPart(old(out.bufferEnd))
                && (lost <==> old(out.bufferEnd) + |CLOSING_SEPARATOR| > BUFFER_SIZE)
      ensures old(Several() && |store.list| == 1) && w != Failed ==> out.status == DONE
      ensures !old(Over(out.status)) && !Over(out.status) ==>
                && (InOrder(out.stream) <==> old(InOrder(out.stream)))
                && Whole() == old(out.stream.made) + Further(file, Several(), contentType, Specs(store.list))
    {
      hide Specs, Slices, Chain, Books, Outgoing.Consistent, Fitting, AllFit, PartHeader, Concat, InOrder;
      hide Further, Script, ClosingPart, Transfer.Valid, Transfer.Parts, Whole, Outgoing.Valid, RangeStore.Valid;
      ghost var made, end, alive := out.stream.made, out.bufferEnd, !Over(out.status);
      PartsKnown();
      store.PopFirst();
      ListEnd(store);
      PartsFrom();
      if partial && store.numranges > 1 {
        if store.ranges != null {
          OpenPart();
          if !Over(out.status) {
            OpenedWhole(made);
          }
        } else {
          CloseParts(w);
          if alive {
            ClosedWhole(made, end);
          }
        }
      } else {
        out.status := DONE;
        DoneWhole();
        PartsFrom();
        ValidFrom();
        return 0;
      }
      PartsFrom();
      ValidFrom();
      return 1;
    }

    lemma PartsKnown()
      requires Parts()
      ensures store.Valid() && out.Valid() && store.filesize == |file| < LONG_MIN
    {
    }

    lemma PartsFrom()
      requires store.Valid() && store.filesize == |file| < LONG_MIN
      ensures out.Valid() || out.Consistent() ==> Parts()
    {
    }

    lemma ValidFrom()
      requires Parts() && Books(Specs(store.list)) && (Several() || |store.list| <= 1)
      requires (Running() ==> store.list != []) && (out.status == DONE ==> store.list == [])
      requires (lost ==> store.list == []) && (Running() || out.status == DONE || Over(out.status))
      ensures Valid()
    {
    }

    lemma ValidMeans()
      requires Valid()
      ensures Parts() && Books(Specs(store.list)) && (Several() || |store.list| <= 1) && (lost ==> store.list == [])
      ensures (Running() ==> store.list != []) && (out.status == DONE ==> store.list == [])
      ensures store.Valid() && store.filesize == |file| < LONG_MIN && out.Valid()
      ensures Running() || out.status == DONE || Over(out.status)
    {
    }

    lemma OpenedWhole(made: string)
      requires store.list != [] && !lost && Several()
      requires out.stream.made == made + Concat(PartHeader(true, contentType, Specs(store.list)[0], |file|))
      ensures Whole() == made + Further(file, true, contentType, Specs(store.list))
    {
      hide Specs, Further, Script, PartHeader, Concat;
      ghost var rs := Specs(store.list);
      FurtherStep(file, true, contentType, rs);
      Assoc(made, Concat(PartHeader(true, contentType, rs[0], |file|)), Script(file, true, contentType, rs));
    }

    lemma ClosedWhole(made: string, end: nat)
      requires store.list == [] && Several()
      requires lost <==> end + |CLOSING_SEPARATOR| > BUFFER_SIZE
      ensures out.stream.made == made + ClosingPart(end) ==> Whole() == made + Further(file, true, contentType, [])
    {
      assert Specs([]) == [];
      assert made + "" == made && out.stream.made + "" == out.stream.made;
    }

    lemma DoneWhole()
      requires store.list == [] && !Several() && !lost
      ensures Whole() == out.stream.made + Further(file, false, contentType, Specs(store.list))
    {
    }

    /** process_get: one write of the mapped file to the socket. */
    method ProcessGet(w: IoResult, w': IoResult) returns (r: int)
      requires Valid() && out.status == WRITE && mapped
      requires w.Moved? ==> w.count <= store.ranges.stop - store.ranges.start + 1 && w.count <= systemBufsize
      modifies this`bytesWritten, this`delivered, this`lost
      modifies store`pool, store`free, store`freeBase, store`ranges, store`list, store`listBase, store.ranges
      modifies out, out.buffer
      ensures Valid() && -1 <= r <= 1
      ensures old(delivered) <= delivered
      ensures r == -1 ==> delivered == old(delivered) && out.status == old(out.status)
      ensures Shrinks(Specs(store.list), old(Specs(store.list)))
      ensures Tail(store.list, old(store.list)) && (Running() ==> out.status == old(out.status))
      ensures !isHead && w.Moved? ==> |delivered| == |old(delivered)| + w.count
      ensures r == 0 ==> !Running()
      ensures !isHead ==> (r == -1 <==> w == Blocked) && (w == Failed ==> r == 0 && out.status == DEAD)
      ensures !isHead && w.Moved? && w' != Failed && old(NextFits()) ==> !Over(out.status)
      ensures !isHead && w.Moved? && old(!NextFits()) && w.count == old(Wanted(Specs(store.list))) ==>
                out.status == DEAD
      ensures !isHead && w.Moved? && old(|store.list|) == 1 && w.count == old(Wanted(Specs(store.list))) ==>
                w' != Failed || !Several() ==> out.status == DONE
      ensures !isHead && w.Moved? && w.count < old(Wanted(Specs(store.list))) ==> out.status == old(out.status)
      ensures !isHead && w.Moved? ==>
                store.list == old(if w.count == Wanted(Specs(store.list)) then store.list[1..] else store.list)
      ensures !isHead && !Over(out.status) ==> Whole() == old(Whole())
      ensures !isHead && !Over(out.status) ==>
                (InOrder(out.stream) <==> old(InOrder(out.stream)) && out.crossed == old(out.crossed))
      ensures !isHead ==>
                out.crossed == old(out.crossed) + if Moves(w) && old(out.bufferStart < out.bufferEnd) then 1 else 0
      ensures !isHead ==>
                (lost <==> w.Moved? && old(Closes(w.count, out.bufferEnd)))
    {
      hide Specs, Slices, Chain, Books, Outgoing.Consistent, AllInside, InOrder, Wanted, NextFits, Whole;
      FirstRange(store);
      if isHead {
        r := AnswerHead(w');
        return;
      }
      var bytesToWrite := store.ranges.stop - store.ranges.start + 1;
      if bytesToWrite > systemBufsize {
        bytesToWrite := systemBufsize;
      }
      match w {
        case Blocked =>
          return -1;
        case Failed =>
          out.status := DEAD;
          return 0;
        case Moved(n) =>
          r := HandOver(n, w');
      }
    }

    /** The socket has taken the first `n` bytes of the first range directly. */
    method HandOver(n: nat, w': IoResult) returns (r: int)
      requires Valid() && Running() && !isHead && n <= store.ranges.stop - store.ranges.start + 1
      modifies this`bytesWritten, this`delivered, this`lost
      modifies store`pool, store`free, store`freeBase, store`ranges, store`list, store`listBase, store.ranges
      modifies out, out.buffer
      ensures Valid() && 0 <= r <= 1 && (r == 0 ==> !Running())
      ensures old(delivered) <= delivered && |delivered| == |old(delivered)| + n
      ensures Shrinks(Specs(store.list), old(Specs(store.list)))
      ensures Tail(store.list, old(store.list)) && (Running() ==> out.status == old(out.status))
      ensures w' != Failed && old(NextFits()) ==> !Over(out.status)
      ensures old(!NextFits()) && n == old(Wanted(Specs(store.list))) ==> out.status == DEAD
      ensures old(|store.list|) == 1 && n == old(Wanted(Specs(store.list))) ==>
                w' != Failed || !Several() ==> out.status == DONE
      ensures store.list == if n == old(Wanted(Specs(store.list))) then old(store.list)[1..] else old(store.list)
      ensures n < old(Wanted(Specs(store.list))) ==> out.status == old(out.status)
      ensures !Over(out.status) ==> Whole() == old(Whole())
      ensures !Over(out.status) ==>
                (InOrder(out.stream) <==> old(InOrder(out.stream)) && out.crossed == old(out.crossed))
      ensures out.crossed == old(out.crossed) + if n > 0 && old(out.bufferStart < out.bufferEnd) then 1 else 0
      ensures lost <==> old(Closes(n, out.bufferEnd))
    {
      hide *;
      ghost var base, rs := out.stream.made, Specs(store.list);
      GoesOn(n);
      UnderwayIs(0);
      PaysIs(rs);
      SameMade(base);
      bytesWritten := bytesWritten + n;
      out.WriteDirect(Leading(file, rs, n));
      PartsFrom();
      PaysFrom(rs, n);
      UnderwayFrom(n);
      r := Advance(n, w', base);
    }

    lemma PaysIs(rs: seq<RangeSpec>)
      requires Pays(rs, 0)
      ensures AllInside(rs, |file|) && delivered + Slices(file, rs) == plan && (mapped ==> bytesWritten == |delivered|)
    {
    }

    lemma PaysFrom(rs: seq<RangeSpec>, n: nat)
      requires rs != [] && AllInside(rs, |file|) && rs[0].start + n <= rs[0].stop + 1
      requires delivered + Slices(file, rs) == plan && (mapped ==> bytesWritten == |delivered| + n)
      ensures Pays(rs, n)
    {
    }

    /** A HEAD request has no bytes of its ranges delivered. */
    method AnswerHead(w': IoResult) returns (r: int)
      requires Valid() && isHead && store.list != [] && out.Consistent()
      modifies store`pool, store`free, store`freeBase, store`ranges, store`list, store`listBase, store.ranges
      modifies this`lost, out`status, out`bufferStart, out`bufferEnd, out`sent, out`appended, out`stream, out.buffer
      ensures Valid() && 0 <= r <= 1 && (r == 0 ==> !Running()) && (Running() ==> out.status == old(out.status))
      ensures Shrinks(Specs(store.list), old(Specs(store.list))) && Tail(store.list, old(store.list))
      ensures old(out.appended) + delivered[|delivered|..] <= out.appended
      ensures !Several() ==> out.appended == old(out.appended) + delivered[|delivered|..]
    {
      hide *;
      HeadDone();
      r := CompleteResponse(w');
      HeadLeft(old(Specs(store.list)), old(store.list));
    }

    lemma HeadDone()
      requires Valid() && isHead && store.list != []
      ensures Books(Specs(store.list)[1..]) && !lost && Parts() && (Running() || Over(out.status))
      ensures Several() || |store.list| <= 1
    {
      InsideTail(Specs(store.list), |file|);
    }

    lemma HeadLeft(rs: seq<RangeSpec>, list: seq<Range>)
      requires rs != [] && list != [] && Specs(store.list) == rs[1..] && store.list == list[1..]
      ensures Shrinks(Specs(store.list), rs) && Tail(store.list, list)
      ensures out.status == DONE || Over(out.status) ==> !Running()
      ensures forall a: string :: a + delivered[|delivered|..] == a
    {
    }

    lemma GoesOn(n: nat)
      requires Valid() && Running() && !isHead && (n > 0 ==> n <= store.ranges.stop - store.ranges.start + 1)
      ensures store.ranges.start <= store.ranges.stop && Specs(store.list)[0].start + n <= Specs(store.list)[0].stop + 1
      ensures Underway(0) && n <= Wanted(Specs(store.list)) && |Leading(file, Specs(store.list), n)| == n
    {
      FirstRange(store);
      FirstInside(Specs(store.list), |file|);
    }

    /** Ranges are left to deliver; `n` bytes have been counted and are still to be booked. */
    ghost predicate Underway(n: nat)
      reads this, store, store.free, store.list, out, out.buffer
    {
      && Parts() && out.Consistent() && (Running() || Over(out.status)) && !lost && !isHead
      && store.list != [] && (Several() || |store.list| <= 1)
      && Pays(Specs(store.list), n)
    }

    /** `n` bytes are no more than the first range has. */
    ghost predicate Pays(rs: seq<RangeSpec>, n: nat)
      reads this`delivered, this`plan, this`mapped, this`bytesWritten
    {
      && rs != [] && AllInside(rs, |file|) && rs[0].start + n <= rs[0].stop + 1
      && delivered + Slices(file, rs) == plan
      && (mapped ==> bytesWritten == |delivered| + n)
    }

    /** `n` bytes of the first range have been handed over; the next range is up when it is done. */
    method Advance(n: nat, w': IoResult, ghost base: string) returns (r: int)
      requires Underway(n)
      requires out.stream.made == base + Leading(file, Specs(store.list), n)
      modifies this`delivered, this`lost
      modifies store`pool, store`free, store`freeBase, store`ranges, store`list, store`listBase, store.ranges
      modifies out`status, out`bufferStart, out`bufferEnd, out`sent, out`appended, out`stream, out.buffer
      ensures Valid() && 0 <= r <= 1 && (r == 0 ==> !Running())
      ensures old(out.appended) <= out.appended && (!Several() ==> out.appended == old(out.appended))
      ensures Shrinks(Specs(store.list), old(Specs(store.list)))
      ensures Tail(store.list, old(store.list)) && (Running() ==> out.status == old(out.status))
      ensures delivered == old(delivered) + old(Leading(file, Specs(store.list), n))
      ensures n < old(Wanted(Specs(store.list))) ==> unchanged(out, out.buffer)
      ensures store.list == if n == old(Wanted(Specs(store.list))) then old(store.list)[1..] else old(store.list)
      ensures n == old(Wanted(Specs(store.list))) && old(|store.list|) == 1 && w' != Failed ==> out.status == DONE
      ensures n == old(Wanted(Specs(store.list))) && old(|store.list|) == 1 && !Several() ==> out.status == DONE
      ensures !old(Over(out.status)) ==>
                && (!Over(out.status) ==> Whole() == base + old(Owed(Specs(store.list))))
                && (!Over(out.status) ==> (InOrder(out.stream) <==> old(InOrder(out.stream))))
                && (w' != Failed && old(NextFits()) ==> !Over(out.status))
                && (old(!NextFits()) && n == old(Wanted(Specs(store.list))) ==> out.status == DEAD)
                && (lost <==> old(Closes(n, out.bufferEnd)))
    {
      hide Specs, Slices, Chain, Books, Outgoing.Consistent, AllInside, PartHeader, Concat, InOrder, Leading, Rest;
      hide Further, Script, ClosingPart, Transfer.Valid, Transfer.Parts, Outgoing.Valid, RangeStore.Valid, Owed, Pays;
      hide NextHeader, Wanted;
      ghost var part, header := Leading(file, Specs(store.list), n), NextHeader(Specs(store.list));
      NoHeader(Specs(store.list));
      var done := Book(n);
      if done {
        r := FinishFirst(w', header);
      } else {
        ValidFrom();
        r := 1;
      }
      if !Over(out.status) {
        Assoc(base, part, if done then Further(file, Several(), contentType, Specs(store.list))
                          else Owed(Specs(store.list)));
      }
    }

    /** The start of the first range moves on; tells whether the range is done. */
    method Book(n: nat) returns (done: bool)
      requires Underway(n)
      modifies this`delivered, store.ranges`start
      ensures Parts() && store.list == old(store.list) && Specs(store.list)[1..] == old(Specs(store.list)[1..])
      ensures Books(if done then Specs(store.list)[1..] else Specs(store.list))
      ensures NextHeader(Specs(store.list)) == old(NextHeader(Specs(store.list)))
      ensures delivered == old(delivered) + old(Leading(file, Specs(store.list), n))
      ensures done <==> n == old(Wanted(Specs(store.list)))
      ensures old(Owed(Specs(store.list))) == old(Leading(file, Specs(store.list), n)) +
                if done then Further(file, Several(), contentType, Specs(store.list)[1..]) else Owed(Specs(store.list))
    {
      hide Specs, Slices, Chain, Books, Outgoing.Consistent, AllInside, PartHeader, Concat, InOrder, Leading, Rest;
      hide Further, Script, Transfer.Parts, Outgoing.Valid, RangeStore.Valid, Owed, Pays, NextHeader;
      ghost var rs := Specs(store.list);
      PartsKnown();
      FirstRange(store);
      Paid(rs, n);
      RestIs(rs, n);
      OwedStep(rs, n);
      delivered := delivered + Leading(file, rs, n);
      store.Advance(n);
      FirstRange(store);
      PartsFrom();
      NextSame(rs, Specs(store.list));
      Booked(Rest(rs, n));
      return store.ranges.stop + 1 - store.ranges.start == 0;
    }

    /** complete_response, with what it does to everything that is to be written. */
    method FinishFirst(w': IoResult, ghost header: string) returns (r: int)
      requires Parts() && store.list != [] && Books(Specs(store.list)[1..]) && !lost
      requires out.Consistent() && (Running() || Over(out.status)) && (Several() || |store.list| <= 1)
      requires header == NextHeader(Specs(store.list))
      modifies store`pool, store`free, store`freeBase, store`ranges, store`list, store`listBase, store.ranges
      modifies this`lost
      modifies out`status, out`bufferStart, out`bufferEnd, out`sent, out`appended, out`stream, out.buffer
      ensures Valid() && 0 <= r <= 1 && store.list == old(store.list)[1..] && (r == 0 ==> !Running())
      ensures Specs(store.list) == old(Specs(store.list)[1..])
      ensures old(out.appended) <= out.appended && (!Several() ==> out.appended == old(out.appended))
      ensures Running() ==> out.status == old(out.status)
      ensures old(|store.list|) == 1 && (w' != Failed || !Several()) ==> out.status == DONE
      ensures !old(Over(out.status)) ==>
                && (!Over(out.status) ==>
                      Whole() == old(out.stream.made) + Further(file, Several(), contentType, Specs(store.list)))
                && (!Over(out.status) ==> (InOrder(out.stream) <==> old(InOrder(out.stream))))
                && (w' != Failed && old(out.bufferEnd) + |header| <= BUFFER_SIZE ==> !Over(out.status))
                && (old(out.bufferEnd) + |header| > BUFFER_SIZE ==> out.status == DEAD)
                && (lost <==>
                      old(|store.list|) == 1 && Several() && old(out.bufferEnd) + |CLOSING_SEPARATOR| > BUFFER_SIZE)
    {
      hide Specs, Slices, Chain, Books, Outgoing.Consistent, AllInside, PartHeader, Concat, InOrder, Further, Script;
      hide ClosingPart, Transfer.Valid, Transfer.Parts, Outgoing.Valid, RangeStore.Valid, Owed, Whole, Fitting;
      ghost var rs := Specs(store.list);
      out.ConsistentIsValid();
      assert |rs| > 1 ==> rs[1..][0] == rs[1];
      r := CompleteResponse(w');
    }

    lemma Paid(rs: seq<RangeSpec>, n: nat)
      requires Pays(rs, n) && |file| < LONG_MIN
      ensures n <= Wanted(rs) && rs[0].start + n <= rs[0].stop + 1 <= |file| && |Leading(file, rs, n)| == n
      ensures AllInside(Rest(rs, n), |file|) && (mapped ==> bytesWritten == |delivered| + n)
      ensures Leading(file, rs, n) == Part(file, rs[0].start, rs[0].start + n)
      ensures delivered + Leading(file, rs, n) + Slices(file, Rest(rs, n)) == plan
    {
      hide Slices, AllInside, Part, Rest;
      FirstInside(rs, |file|);
      TakeBytes(file, rs, n);
      Assoc(delivered, Leading(file, rs, n), Slices(file, Rest(rs, n)));
    }

    lemma OwedStep(rs: seq<RangeSpec>, n: nat)
      requires Pays(rs, n) && |file| < LONG_MIN && !lost
      ensures Owed(rs) == Leading(file, rs, n) +
                if n == Wanted(rs) then Further(file, partial && store.numranges > 1, contentType, rs[1..])
                else Owed(Rest(rs, n))
    {
      hide Slices, AllInside, Part, Rest, Script, Further;
      Paid(rs, n);
      ScriptStep(file, partial && store.numranges > 1, contentType, rs, n);
    }

    lemma Booked(rs: seq<RangeSpec>)
      requires AllInside(rs, |file|) && delivered + Slices(file, rs) == plan && !isHead
      requires mapped ==> bytesWritten == |delivered|
      ensures Books(rs)
    {
    }

    lemma NoHeader(rs: seq<RangeSpec>)
      requires out.Consistent()
      ensures out.bufferEnd + |NextHeader(rs)| > BUFFER_SIZE ==> |rs| > 1
    {
    }

    lemma NextSame(rs: seq<RangeSpec>, ts: seq<RangeSpec>)
      requires |rs| == |ts| && rs != [] && rs[1..] == ts[1..]
      ensures NextHeader(rs) == NextHeader(ts)
    {
      assert |rs| > 1 ==> rs[1] == rs[1..][0] && ts[1] == ts[1..][0];
    }

    /** The next `n` bytes of the first range are read into the output buffer. */
    method Load(n: nat, w': IoResult) returns (r: int)
      requires Underway(n) && out.bufferEnd + n <= BUFFER_SIZE
      modifies this`delivered, this`lost
      modifies store`pool, store`free, store`freeBase, store`ranges, store`list, store`listBase, store.ranges
      modifies out`status, out`bufferStart, out`bufferEnd, out`sent, out`appended, out`stream, out.buffer
      ensures Valid() && 0 <= r <= 1 && (r == 0 ==> !Running()) && old(delivered) <= delivered
      ensures |delivered| == |old(delivered)| + n
      ensures n < old(Wanted(Specs(store.list))) ==> out.status == old(out.status)
      ensures store.list == if n == old(Wanted(Specs(store.list))) then old(store.list)[1..] else old(store.list)
      ensures Shrinks(Specs(store.list), old(Specs(store.list)))
      ensures Tail(store.list, old(store.list)) && (Running() ==> out.status == old(out.status))
      ensures old(out.appended) + delivered[|old(delivered)|..] <= out.appended
      ensures !Several() ==> out.appended == old(out.appended) + delivered[|old(delivered)|..]
      ensures n == old(Wanted(Specs(store.list))) && old(|store.list|) == 1 ==>
                w' != Failed || !Several() ==> out.status == DONE
      ensures !old(Over(out.status)) ==>
                && (!Over(out.status) ==> Whole() == old(Whole()))
                && (!Over(out.status) ==> (InOrder(out.stream) <==> old(InOrder(out.stream))))
                && (w' != Failed && old(n + out.bufferEnd + |NextHeader(Specs(store.list))| <= BUFFER_SIZE) ==>
                      !Over(out.status))
                && (old(n + out.bufferEnd + |NextHeader(Specs(store.list))| > BUFFER_SIZE) ==>
                      n == old(Wanted(Specs(store.list))) ==> out.status == DEAD)
                && (lost <==> old(Closes(n, n + out.bufferEnd)))
    {
      hide *;
      ghost var base, rs := out.stream.made, Specs(store.list);
      Fetchable(n);
      WholeIs();
      Fetch(n);
      FitsMeans();
      r := Advance(n, w', base);
    }

    /** The read itself. */
    method Fetch(n: nat)
      requires Underway(n) && out.bufferEnd + n <= BUFFER_SIZE
      modifies out`bufferEnd, out`appended, out`stream, out.buffer
      ensures Underway(n) && out.bufferEnd == old(out.bufferEnd) + n
      ensures out.appended == old(out.appended) + Leading(file, Specs(store.list), n)
      ensures out.stream.made == old(out.stream.made) + Leading(file, Specs(store.list), n)
      ensures InOrder(out.stream) <==> old(InOrder(out.stream))
    {
      hide *;
      UnderwayIs(n);
      out.ConsistentIsValid();
      Paid(Specs(store.list), n);
      out.Copy(Part(file, store.ranges.start, store.ranges.start + n));
      PartsFrom();
      UnderwayFrom(n);
    }

    lemma UnderwayIs(n: nat)
      requires Underway(n)
      ensures Parts() && out.Consistent() && (Running() || Over(out.status)) && !lost && !isHead && store.list != []
      ensures (Several() || |store.list| <= 1) && Pays(Specs(store.list), n)
      ensures store.Valid() && store.filesize == |file| < LONG_MIN
      ensures store.ranges == store.list[0] && Specs(store.list)[0] == RangeSpec(store.ranges.start, store.ranges.stop)
    {
      FirstRange(store);
    }

    lemma UnderwayFrom(n: nat)
      requires Parts() && out.Consistent() && (Running() || Over(out.status)) && !lost && !isHead && store.list != []
      requires (Several() || |store.list| <= 1) && Pays(Specs(store.list), n)
      ensures Underway(n)
    {
    }

    lemma FitsMeans()
      ensures NextFits() <==> out.bufferEnd + |NextHeader(Specs(store.list))| <= BUFFER_SIZE
    {
    }

    lemma Fetchable(n: nat)
      requires Underway(n)
      ensures !lost && |Leading(file, Specs(store.list), n)| == n
    {
      Paid(Specs(store.list), n);
    }

    lemma FirstIs()
      requires Parts() && store.list != []
      ensures store.ranges == store.list[0] && Specs(store.list)[0] == RangeSpec(store.ranges.start, store.ranges.stop)
      ensures |file| < LONG_MIN
    {
      FirstRange(store);
    }

    /** io_shuffle_sendfile: the kernel copies from the file to the socket and moves `start` on. */
    method IoShuffleSendfile(w: IoResult, w': IoResult) returns (r: int)
      requires Valid() && out.status == IOSHUFFLE && !mapped
      requires w.Moved? ==> w.count <= store.ranges.stop - store.ranges.start + 1 && w.count <= systemBufsize
      modifies this`bytesWritten, this`delivered, this`lost
      modifies store`pool, store`free, store`freeBase, store`ranges, store`list, store`listBase, store.ranges
      modifies out, out.buffer
      ensures Valid() && -1 <= r <= 1
      ensures old(delivered) <= delivered
      ensures r == -1 ==> delivered == old(delivered) && out.status == old(out.status)
      ensures Shrinks(Specs(store.list), old(Specs(store.list)))
      ensures Tail(store.list, old(store.list)) && (Running() ==> out.status == old(out.status))
      ensures !isHead && w.Moved? && systemBufsize > 0 ==> |delivered| == |old(delivered)| + w.count
      ensures r == 0 ==> !Running()
      ensures !isHead && systemBufsize > 0 ==> (r == -1 <==> w == Blocked || w == Moved(0))
      ensures !isHead && systemBufsize > 0 && w == Failed ==> r == 0 && out.status == DEAD
      ensures !isHead && systemBufsize > 0 && w.Moved? && w' != Failed && old(NextFits()) ==> !Over(out.status)
      ensures !isHead && systemBufsize > 0 && w.Moved? && old(!NextFits() && w.count == Wanted(Specs(store.list))) ==>
                out.status == DEAD
      ensures !isHead && systemBufsize > 0 && w.Moved? &&
              old(|store.list| == 1 && w.count == Wanted(Specs(store.list))) ==>
                w' != Failed || !Several() ==> out.status == DONE
      ensures !isHead && systemBufsize > 0 && w.Moved? && w.count < old(Wanted(Specs(store.list))) ==>
                out.status == old(out.status)
      ensures !isHead && systemBufsize > 0 && w.Moved? ==>
                store.list == old(if w.count == Wanted(Specs(store.list)) then store.list[1..] else store.list)
      ensures !isHead && systemBufsize > 0 && !Over(out.status) ==> Whole() == old(Whole())
      ensures !isHead && systemBufsize > 0 && !Over(out.status) ==>
                (InOrder(out.stream) <==> old(InOrder(out.stream)) && out.crossed == old(out.crossed))
      ensures !isHead && systemBufsize > 0 ==>
                out.crossed == old(out.crossed) + (if Moves(w) && old(out.bufferStart < out.bufferEnd) then 1 else 0)
      ensures !isHead && systemBufsize > 0 ==>
                (lost <==> w.Moved? && old(Closes(w.count, out.bufferEnd)))
    {
      hide Specs, Slices, Chain, Outgoing.Consistent, InOrder, NextFits, Whole;
      FirstRange(store);
      FirstInside(Specs(store.list), |file|);
      if isHead {
        r := AnswerHead(w');
        return;
      }
      var bytesToWrite := store.ranges.stop - store.ranges.start + 1;
      if bytesToWrite > systemBufsize {
        bytesToWrite := systemBufsize;
      }
      if bytesToWrite == 0 {
        r := HandOver(0, w');
        return;
      }
      match w {
        case Blocked =>
          return -1;
        case Failed =>
          out.status := DEAD;
          return 0;
        case Moved(n) =>
          if n == 0 {
            return -1;
          }
          r := HandOver(n, w');
      }
    }

    /** io_shuffle: a read from the file to the output buffer, then a write from the buffer to the socket. */
    method IoShuffle(rd: IoResult, w: IoResult, w': IoResult) returns (r: int)
      requires Valid() && out.status == IOSHUFFLE && !mapped
      requires rd.Moved? ==> rd.count <= store.ranges.stop - store.ranges.start + 1
                             && (rd.count == 0 || rd.count <= BUFFER_SIZE - out.bufferEnd - 256)
      modifies this`bytesWritten, this`delivered, this`dataFd, this`lost
      modifies store`pool, store`free, store`freeBase, store`ranges, store`list, store`listBase, store.ranges
      modifies out`status, out`bufferStart, out`bufferEnd, out`sent, out`appended, out`stream, out.buffer
      ensures Valid() && -1 <= r <= 1
      ensures old(delivered) <= delivered
      ensures dataFd <==> old(dataFd) && (isHead || rd != Moved(0) || BUFFER_SIZE - old(out.bufferEnd) <= 256)
      ensures old(out.appended) + delivered[|old(delivered)|..] <= out.appended
      ensures !Several() ==> out.appended == old(out.appended) + delivered[|old(delivered)|..]
      ensures Shrinks(Specs(store.list), old(Specs(store.list)))
      ensures Tail(store.list, old(store.list)) && (Running() ==> out.status == old(out.status))
      ensures r == 0 && Running() ==> !dataFd && out.bufferStart == out.bufferEnd
      ensures !isHead && Moves(rd) && old(dataFd) ==> |delivered| == |old(delivered)| + rd.count
      ensures !isHead && !Over(out.status) ==> Whole() == old(Whole()) && !lost
      ensures !isHead && !Over(out.status) ==> (InOrder(out.stream) <==> old(InOrder(out.stream)))
      ensures !isHead && rd != Failed && w != Failed && w' != Failed && |old(NextHeader(Specs(store.list)))| <= 256 ==>
                !Over(out.status)
    {
      hide *;
      GoesOnAlive();
      if isHead {
        r := AnswerHead(w');
        return;
      }
      var over;
      r, over := ShuffleIn(rd, w');
      if !over {
        ghost var made := out.stream.made;
        SameMade(made);
        r := ShuffleOut(w);
        SameMade(made);
      }
    }

    lemma GoesOnAlive()
      requires Valid() && out.status == IOSHUFFLE
      ensures Running() && !Over(out.status) && store.list != [] && out.Consistent()
    {
    }

    lemma SameMade(made: string)
      requires out.stream.made == made
      ensures Whole() == made + Owed(Specs(store.list))
      ensures (Running() ==> !Over(out.status)) && Over(DEAD)
    {
    }

    /** The first half of io_shuffle; tells whether there is no second one. */
    method ShuffleIn(rd: IoResult, w': IoResult) returns (r: int, over: bool)
      requires Valid() && out.status == IOSHUFFLE && !mapped && !isHead
      requires rd.Moved? ==> rd.count <= store.ranges.stop - store.ranges.start + 1
                             && (rd.count == 0 || rd.count <= BUFFER_SIZE - out.bufferEnd - 256)
      modifies this`delivered, this`dataFd, this`lost
      modifies store`pool, store`free, store`freeBase, store`ranges, store`list, store`listBase, store.ranges
      modifies out`status, out`bufferStart, out`bufferEnd, out`sent, out`appended, out`stream, out.buffer
      ensures Valid() && -1 <= r <= 1 && (over ==> r == 0 ==> !Running()) && (!over ==> Running())
      ensures old(delivered) <= delivered
      ensures dataFd <==> old(dataFd) && (rd != Moved(0) || BUFFER_SIZE - old(out.bufferEnd) <= 256)
      ensures old(out.appended) + delivered[|old(delivered)|..] <= out.appended
      ensures !Several() ==> out.appended == old(out.appended) + delivered[|old(delivered)|..]
      ensures Shrinks(Specs(store.list), old(Specs(store.list)))
      ensures Tail(store.list, old(store.list)) && (Running() ==> out.status == old(out.status))
      ensures Moves(rd) && old(dataFd) ==> |delivered| == |old(delivered)| + rd.count
      ensures !Over(out.status) ==> Whole() == old(Whole()) && !lost
      ensures !Over(out.status) ==> (InOrder(out.stream) <==> old(InOrder(out.stream)))
      ensures rd != Failed && w' != Failed && |old(NextHeader(Specs(store.list)))| <= 256 ==> !Over(out.status)
    {
      hide Specs, Slices, Chain, Part, Books, Outgoing.Consistent, AllInside, InOrder, Whole, NextHeader;
      hide RangeStore.Valid;
      r, over := 1, false;
      GoesOn(0);
      FirstIs();
      var bytesToRead := BUFFER_SIZE - out.bufferEnd - 256;
      var remaining := store.ranges.stop - store.ranges.start + 1;
      if bytesToRead > remaining {
        bytesToRead := remaining;
      }
      assert delivered[|delivered|..] == "" && out.appended + "" == out.appended;
      if bytesToRead > 0 && dataFd {
        match rd {
          case Blocked =>
            if out.bufferEnd - out.bufferStart == 0 {
              return -1, true;
            }
          case Failed =>
            out.status := DEAD;
            return 0, true;
          case Moved(n) =>
            if n == 0 {
              dataFd := false;
            } else {
              GoesOn(n);
              r := Load(n, w');
              over := n == remaining;
            }
        }
      }
    }

    /** The second half of io_shuffle. */
    method ShuffleOut(w: IoResult) returns (r: int)
      requires Valid() && Running() && !mapped
      modifies this`bytesWritten, out`status, out`bufferStart, out`bufferEnd, out`sent, out`stream
      ensures bytesWritten - old(bytesWritten) == |out.sent| - |old(out.sent)|
      ensures Valid() && -1 <= r <= 1 && (Running() ==> out.status == old(out.status))
      ensures r == 0 && Running() ==> !dataFd && out.bufferStart == out.bufferEnd
      ensures out.stream.made == old(out.stream.made)
      ensures Running() <==> w != Failed || old(out.bufferStart == out.bufferEnd)
      ensures (InOrder(out.stream) <==> old(InOrder(out.stream))) || out.status == DEAD
      ensures Running() || out.status == DEAD
    {
      hide Specs, Slices, Chain, AllInside, Outgoing.Consistent, InOrder;
      var bytesToWrite := out.bufferEnd - out.bufferStart;
      if bytesToWrite == 0 {
        if !dataFd {
          return 0;
        }
        out.Rewind();
        return 1;
      }
      match w {
        case Blocked =>
          return -1;
        case Failed =>
          out.status := DEAD;
          return 0;
        case Moved(count) =>
          var n := if count <= bytesToWrite then count else bytesToWrite;
          var _ := out.ReqFlush(Moved(n));
          bytesWritten := bytesWritten + n;
          return 1;
      }
    }

    /** The whole file becomes the one range when the request has none; tells whether it had any. */
    method Default() returns (given: bool)
      requires store.Valid()
      modifies store`pool, store`free, store`freeBase, store`ranges, store`list, store.pool
      ensures store.Valid() && (given <==> old(store.list) != [])
      ensures Specs(store.list) == Requested(old(Specs(store.list)))
      ensures given ==> store.list == old(store.list) && store.free == old(store.free)
      ensures !given ==> |store.list| == 1 && (fresh(store.list[0]) || store.list[0] in old(store.free))
                         && store.free == if old(store.free) == [] then [] else old(store.free)[1..]
    {
      hide NodeSet;
      ListEnd(store);
      given := store.ranges != null;
      if !given {
        store.OpenRange();
      }
    }

    /** ranges_fixup on the ranges of the request, or on the whole file when there are none. */
    method SetUpRanges() returns (ok: bool)
      requires store.Valid() && 0 < |file| < LONG_MIN && |store.list| <= store.numranges
      modifies this`partial, this`plan, store, store.free, store.list
      ensures store.Valid() && store.filesize == |file|
      ensures Specs(store.list) == FixList(Requested(old(Specs(store.list))), |file|)
      ensures plan == Slices(file, Specs(store.list)) && AllInside(Specs(store.list), |file|)
      ensures (ok <==> store.list != []) && (partial <==> old(store.list) != [])
      ensures store.numranges == old(store.numranges)
      ensures Several() || |store.list| <= 1
      ensures forall i :: 0 <= i < |store.list| ==>
                store.list[i] in old(store.list) || store.list[i] in old(store.free) || fresh(store.list[i])
    {
      hide NodeSet, Slices, FixList, Kept, AfterDrops, Chain, Specs, Pushed;
      store.filesize := |file|;
      HeadOf(store.pool, store.free, Pooled, store.freeBase);
      ghost var asked, nodes, free := Specs(store.list), store.list, store.free;
      partial := Default();
      ghost var specs, kept := Specs(store.list), store.list;
      ok := store.RangesFixup();
      KeptFrom(kept, specs, |file|, |kept|);
      FixListInside(specs, |file|);
      plan := Slices(file, Specs(store.list));
    }

    /** The header of the next range fits if the first range goes to the buffer whole, behind `end`. */
    ghost predicate CopyFits(rs: seq<RangeSpec>, end: int)
      reads store`numranges
    {
      256 < BUFFER_SIZE - end && Wanted(rs) <= BUFFER_SIZE - end ==> end + Wanted(rs) + |NextHeader(rs)| <= BUFFER_SIZE
    }

    /** The last range goes to the buffer whole, and the closing separator of several parts does not fit any more. */
    ghost predicate CopyCloses(rs: seq<RangeSpec>, end: int)
      reads this`partial, store`numranges
    {
      && 256 < BUFFER_SIZE - end && Wanted(rs) <= BUFFER_SIZE - end && |rs| == 1 && Several()
      && end + Wanted(rs) + |CLOSING_SEPARATOR| > BUFFER_SIZE
    }

    /** The first bytes of a mapped file go to the buffer, when it has more than 256 bytes left. */
    method FirstCopy(w': IoResult) returns (r: int)
      requires Valid() && out.Consistent() && out.status != DONE && store.list != []
      requires !isHead && mapped && bytesWritten == |delivered|
      modifies this`bytesWritten, this`delivered, this`lost
      modifies store`pool, store`free, store`freeBase, store`ranges, store`list, store`listBase, store.ranges
      modifies out`status, out`bufferStart, out`bufferEnd, out`sent, out`appended, out`stream, out.buffer
      ensures Valid() && 0 <= r <= 1 && (r == 0 ==> !Running())
      ensures Running() ==> out.status == old(out.status)
      ensures Shrinks(Specs(store.list), old(Specs(store.list)))
      ensures Tail(store.list, old(store.list))
      ensures old(delivered) <= delivered && old(out.appended) + delivered[|old(delivered)|..] <= out.appended
      ensures !Several() ==> out.appended == old(out.appended) + delivered[|old(delivered)|..]
      ensures !old(Over(out.status)) ==>
                && (!Over(out.status) ==> Whole() == old(Whole()))
                && (!Over(out.status) ==> (InOrder(out.stream) <==> old(InOrder(out.stream))))
                && (w' != Failed && old(CopyFits(Specs(store.list), out.bufferEnd)) ==> !Over(out.status))
                && (!old(CopyFits(Specs(store.list), out.bufferEnd)) ==> out.status == DEAD)
                && (!Over(out.status) && store.list != old(store.list) ==>
                      |old(NextHeader(Specs(store.list)))| <= BUFFER_SIZE)
                && (lost <==> old(CopyCloses(Specs(store.list), out.bufferEnd)))
    {
      hide *;
      ghost var rs := Specs(store.list);
      Starts();
      UnderwayIs(0);
      PaysIs(rs);
      StaysPut();
      CopyMeans(rs, out.bufferEnd);
      var bytesFree := BUFFER_SIZE - out.bufferEnd;
      if bytesFree > 256 {
        var want := store.ranges.stop - store.ranges.start + 1;
        if bytesFree > want {
          bytesFree := want;
        }
        bytesWritten := bytesWritten + bytesFree;
        PaysFrom(rs, bytesFree);
        UnderwayFrom(bytesFree);
        r := Load(bytesFree, w');
      } else {
        r := 1;
      }
    }

    lemma StaysPut()
      requires store.list != []
      ensures Shrinks(Specs(store.list), Specs(store.list)) && Tail(store.list, store.list)
      ensures (forall a: string :: a + delivered[|delivered|..] == a) && Over(DEAD)
    {
    }

    lemma CopyMeans(rs: seq<RangeSpec>, end: int)
      ensures CopyFits(rs, end) <==>
                (256 < BUFFER_SIZE - end && Wanted(rs) <= BUFFER_SIZE - end ==>
                   end + Wanted(rs) + |NextHeader(rs)| <= BUFFER_SIZE)
      ensures rs == Specs(store.list) ==>
                (CopyCloses(rs, end) <==>
                 256 < BUFFER_SIZE - end && Wanted(rs) <= BUFFER_SIZE - end && Closes(Wanted(rs), Wanted(rs) + end))
      ensures rs == Specs(store.list) ==> forall n: int, e: int :: n != Wanted(rs) ==> !Closes(n, e)
      ensures store.list != [] && Valid() ==> !lost
    {
    }

    lemma Starts()
      requires Valid() && out.Consistent() && out.status != DONE && store.list != [] && !isHead
      ensures Underway(0) && store.ranges == store.list[0] && store.ranges.start <= store.ranges.stop
      ensures Wanted(Specs(store.list)) == store.ranges.stop - store.ranges.start + 1
    {
      FirstRange(store);
      FirstInside(Specs(store.list), |file|);
    }

    /**
      init_get from the file size on: the ranges are set up, the response header goes to the buffer, and the first
      bytes of a mapped file follow it. An empty file has a header only.
      */
    method InitGet(mmapOk: bool, header: seq<string>, w': IoResult) returns (r: int)
      requires store.Valid() && out.Consistent() && out.status == WRITE && |file| < LONG_MIN
      requires delivered == "" && bytesWritten == 0 && |store.list| <= store.numranges && !lost
      modifies this, store, store.free, store.list
      modifies out`status, out`bufferStart, out`bufferEnd, out`sent, out`appended, out`stream, out.buffer
      ensures store.Valid() && out.Valid() && 0 <= r <= 1 && store.numranges == old(store.numranges)
      ensures |file| > 0 ==> plan == Slices(file, FixList(Requested(old(Specs(store.list))), |file|))
                             && (partial <==> old(store.list) != [])
      ensures |file| == 0 ==> out.appended == old(out.appended) + Fitting(header, old(out.bufferEnd))
                              && partial == old(partial) && plan == old(plan)
      ensures |file| == 0 || FixList(Requested(old(Specs(store.list))), |file|) == [] ==> r == 0 && delivered == ""
      ensures |file| > 0 && FixList(Requested(old(Specs(store.list))), |file|) == [] ==>
                unchanged(out, out.buffer) && Specs(store.list) == []
      ensures |file| > 0 && FixList(Requested(old(Specs(store.list))), |file|) != [] ==>
                var rs := FixList(Requested(old(Specs(store.list))), |file|);
                var opening := Opening(header, partial, store.numranges > 1, contentType, rs[0], |file|);
                && Valid() && (r == 0 ==> !Running()) && (Running() ==> (mapped <==> out.status == WRITE))
                && dataFd == !mapped && mapped == (|file| <= MAX_FILE_MMAP && mmapOk)
                && (!Several() ==>
                      out.appended == old(out.appended) + Fitting(opening, old(out.bufferEnd)) + delivered)
                && (old(out.bufferEnd) + |Concat(opening)| <= BUFFER_SIZE && !isHead ==>
                      Begun(old(out.stream.made), Concat(opening), rs, w', old(out.bufferEnd),
                            old(InOrder(out.stream))))
      ensures forall i :: 0 <= i < |store.list| ==>
                store.list[i] in old(store.list) || store.list[i] in old(store.free) || fresh(store.list[i])
    {
      hide Specs, Slices, Chain, FixList, Requested, AllInside, NodeSet, Fitting, Concat, PartHeader, Begun, InOrder;
      if |file| == 0 {
        WriteAll(header);
        return 0;
      }
      var ok := SetUpRanges();
      if !ok {
        return 0;
      }
      FirstRange(store);
      r := SendFirst(mmapOk, header, w');
    }

    /**
      The opening and everything behind it is written or is owed; the request has died exactly when a range that was
      copied whole left no room for the header of the next one.
      */
    ghost predicate Begun(made: string, opening: string, rs: seq<RangeSpec>, w': IoResult, end: nat, ordered: bool)
      reads this`lost, this`partial, this`mapped, store`numranges, store`list, store.list, out`status, out`stream
    {
      && (!Over(out.status) ==>
            Whole() == made + opening + Script(file, partial && store.numranges > 1, contentType, rs))
      && (!Over(out.status) ==> (InOrder(out.stream) <==> ordered))
      && (w' != Failed && (mapped ==> CopyFits(rs, end + |opening|)) ==> !Over(out.status))
      && (mapped && !CopyFits(rs, end + |opening|) ==> out.status == DEAD)
      && Shrinks(Specs(store.list), rs)
      && (!Over(out.status) && |store.list| < |rs| ==> |NextHeader(rs)| <= BUFFER_SIZE)
      && (lost <==> mapped && CopyCloses(rs, end + |opening|))
    }

    /** init_get, once the ranges are set up. */
    method SendFirst(mmapOk: bool, header: seq<string>, w': IoResult) returns (r: int)
      requires Parts() && out.Consistent() && out.status == WRITE && delivered == "" && bytesWritten == 0 && !lost
      requires AllInside(Specs(store.list), |file|) && plan == Slices(file, Specs(store.list))
      requires store.list != [] && (Several() || |store.list| <= 1)
      modifies this`mapped, this`dataFd, this`bytesWritten, this`delivered, this`lost
      modifies store`pool, store`free, store`freeBase, store`ranges, store`list, store`listBase, store.ranges
      modifies out`status, out`bufferStart, out`bufferEnd, out`sent, out`appended, out`stream, out.buffer
      ensures Valid() && 0 <= r <= 1 && (r == 0 ==> !Running())
      ensures dataFd == !mapped && mapped == (|file| <= MAX_FILE_MMAP && mmapOk)
      ensures Running() ==> (mapped <==> out.status == WRITE)
      ensures Shrinks(Specs(store.list), old(Specs(store.list)))
      ensures Tail(store.list, old(store.list))
      ensures var rs := old(Specs(store.list));
              var opening := Opening(header, partial, store.numranges > 1, contentType, rs[0], |file|);
              && (!Several() ==>
                    out.appended == old(out.appended) + Fitting(opening, old(out.bufferEnd)) + delivered)
              && (old(out.bufferEnd) + |Concat(opening)| <= BUFFER_SIZE && !isHead ==>
                    Begun(old(out.stream.made), Concat(opening), rs, w', old(out.bufferEnd), old(InOrder(out.stream))))
    {
      hide *;
      ghost var made, end, ordered := out.stream.made, out.bufferEnd, InOrder(out.stream);
      ghost var opening := SendOpening(mmapOk, header);
      SetOff();
      Alive(mapped);
      r := SendBody(w', made, Concat(opening), end, ordered);
      RunningMeans();
    }

    /** The end of init_get, behind an opening. */
    method SendBody(w': IoResult, ghost made: string, ghost opening: string, ghost end: nat, ghost ordered: bool)
      returns (r: int)
      requires Valid() && out.Consistent() && out.status != DONE && store.list != [] && !lost
      requires mapped ==> bytesWritten == |delivered|
      requires end + |opening| <= BUFFER_SIZE ==>
                 && !Over(out.status) && out.stream.made == made + opening && out.bufferEnd == end + |opening|
                 && (InOrder(out.stream) <==> ordered)
      modifies this`bytesWritten, this`delivered, this`lost
      modifies store`pool, store`free, store`freeBase, store`ranges, store`list, store`listBase, store.ranges
      modifies out`status, out`bufferStart, out`bufferEnd, out`sent, out`appended, out`stream, out.buffer
      ensures Valid() && 0 <= r <= 1 && (r == 0 ==> !Running()) && (Running() ==> out.status == old(out.status))
      ensures Shrinks(Specs(store.list), old(Specs(store.list)))
      ensures old(delivered) <= delivered && Tail(store.list, old(store.list))
      ensures !Several() ==> out.appended == old(out.appended) + delivered[|old(delivered)|..]
      ensures end + |opening| <= BUFFER_SIZE && !isHead ==>
                Begun(made, opening, old(Specs(store.list)), w', end, ordered)
    {
      hide *;
      ghost var rs := Specs(store.list);
      WholeIs();
      r := StartBody(w');
      if !isHead && end + |opening| <= BUFFER_SIZE {
        BegunFrom(made, opening, rs, w', end, ordered);
      }
    }

    lemma SetOff()
      requires Parts() && store.list != [] && !lost && out.status in {DEAD, WRITE, IOSHUFFLE}
      requires AllInside(Specs(store.list), |file|) && plan == Slices(file, Specs(store.list))
      requires delivered == "" && bytesWritten == 0 && (Several() || |store.list| <= 1)
      ensures Valid()
    {
      assert "" + plan == plan;
    }

    lemma RunningMeans()
      ensures Running() <==> out.status == WRITE || out.status == IOSHUFFLE
    {
    }

    lemma Alive(mapped: bool)
      ensures !Over(if mapped then WRITE else IOSHUFFLE) && Over(DEAD)
    {
    }

    /** init_get up to the response header */
    method SendOpening(mmapOk: bool, header: seq<string>) returns (ghost opening: seq<string>)
      requires Parts() && out.Consistent() && out.status == WRITE && store.list != []
      modifies this`mapped, this`dataFd, out`status, out`bufferEnd, out`appended, out`stream, out.buffer
      ensures Parts() && out.Consistent() && dataFd == !mapped && mapped == (|file| <= MAX_FILE_MMAP && mmapOk)
      ensures opening == Opening(header, partial, store.numranges > 1, contentType, Specs(store.list)[0], |file|)
      ensures out.appended == old(out.appended) + Fitting(opening, old(out.bufferEnd))
      ensures out.status == if old(out.bufferEnd) + |Concat(opening)| > BUFFER_SIZE then DEAD
                            else if mapped then WRITE else IOSHUFFLE
      ensures !Over(out.status) ==>
                && out.stream.made == old(out.stream.made) + Concat(opening)
                && out.bufferEnd == old(out.bufferEnd) + |Concat(opening)|
                && (InOrder(out.stream) <==> old(InOrder(out.stream)))
    {
      hide *;
      PartsKnown();
      Alive(|file| <= MAX_FILE_MMAP && mmapOk);
      mapped := |file| <= MAX_FILE_MMAP && mmapOk;
      dataFd := !mapped;
      if !mapped {
        out.status := IOSHUFFLE;
      }
      PartsFrom();
      FirstIs();
      out.ConsistentIsValid();
      var first := RangeSpec(store.ranges.start, store.ranges.stop);
      var texts := Opening(header, partial, store.numranges > 1, contentType, first, store.filesize);
      AllFitMeans(texts, out.bufferEnd);
      WriteAll(texts);
      PartsFrom();
      opening := texts;
    }

    lemma WholeIs()
      requires !lost
      ensures Whole() == out.stream.made + Owed(Specs(store.list))
      ensures Owed(Specs(store.list)) == Script(file, partial && store.numranges > 1, contentType, Specs(store.list))
    {
    }

    lemma BegunFrom(made: string, opening: string, rs: seq<RangeSpec>, w': IoResult, end: nat, ordered: bool)
      requires !Over(out.status) ==>
                 Whole() == made + opening + Script(file, partial && store.numranges > 1, contentType, rs)
      requires !Over(out.status) ==> (InOrder(out.stream) <==> ordered)
      requires w' != Failed && (mapped ==> CopyFits(rs, end + |opening|)) ==> !Over(out.status)
      requires mapped && !CopyFits(rs, end + |opening|) ==> out.status == DEAD
      requires Shrinks(Specs(store.list), rs)
      requires !Over(out.status) && |store.list| < |rs| ==> |NextHeader(rs)| <= BUFFER_SIZE
      requires lost <==> mapped && CopyCloses(rs, end + |opening|)
      ensures Begun(made, opening, rs, w', end, ordered)
    {
    }

    /** The end of init_get: nothing for HEAD, the first copy for a mapped file. */
    method StartBody(w': IoResult) returns (r: int)
      requires Valid() && out.Consistent() && out.status != DONE && store.list != []
      requires mapped ==> bytesWritten == |delivered|
      modifies this`bytesWritten, this`delivered, this`lost
      modifies store`pool, store`free, store`freeBase, store`ranges, store`list, store`listBase, store.ranges
      modifies out`status, out`bufferStart, out`bufferEnd, out`sent, out`appended, out`stream, out.buffer
      ensures Valid() && 0 <= r <= 1 && (r == 0 ==> !Running())
      ensures Running() ==> out.status == old(out.status)
      ensures Shrinks(Specs(store.list), old(Specs(store.list)))
      ensures old(delivered) <= delivered && Tail(store.list, old(store.list))
      ensures !Several() ==> out.appended == old(out.appended) + delivered[|old(delivered)|..]
      ensures !old(Over(out.status)) && !isHead ==>
                && (!Over(out.status) ==> Whole() == old(Whole()))
                && (!Over(out.status) ==> (InOrder(out.stream) <==> old(InOrder(out.stream))))
                && (w' != Failed && (mapped ==> old(CopyFits(Specs(store.list), out.bufferEnd))) ==> !Over(out.status))
                && (mapped && !old(CopyFits(Specs(store.list), out.bufferEnd)) ==> out.status == DEAD)
                && (!Over(out.status) && store.list != old(store.list) ==>
                      |old(NextHeader(Specs(store.list)))| <= BUFFER_SIZE)
                && (lost <==> mapped && old(CopyCloses(Specs(store.list), out.bufferEnd)))
    {
      hide Specs, Slices, Chain, CopyCloses, AllInside, CopyFits, Whole, InOrder, Outgoing.Consistent;
      if isHead {
        r := AnswerHead(w');
      } else if mapped {
        r := FirstCopy(w');
      } else {
        r := 1;
      }
    }

    /** What was delivered is always the front of the plan; a request that is done has delivered all of it. */
    lemma DeliveredInOrder()
      requires Valid() && !isHead
      ensures delivered <= plan
      ensures out.status == DONE ==> delivered == plan
      ensures Running() ==> |delivered| < |plan|
      ensures mapped ==> bytesWritten == |delivered|
    {
      hide Chain, Specs;
      var rest := Slices(file, Specs(store.list));
      assert plan[..|delivered|] == delivered;
      if store.list == [] {
        assert delivered + "" == delivered;
      }
    }

    // ----- the handlers

    /** The handler writes to the socket past the buffer. */
    predicate PastBuffer(haveSendfile: bool)
      reads out`status
    {
      out.status == WRITE || haveSendfile
    }

    /** Process_get or io_shuffle_sendfile, with a result that is cut to what the call asks for. */
    method HandleDirect(s: Step) returns (r: int)
      requires Valid() && !isHead && Running() && systemBufsize > 0 && (mapped <==> out.status == WRITE)
      modifies this`bytesWritten, this`delivered, this`lost
      modifies store`pool, store`free, store`freeBase, store`ranges, store`list, store`listBase, store.ranges
      modifies out, out.buffer
      ensures Valid() && -1 <= r <= 1 && (r == 0 ==> !Running()) && (Running() ==> out.status == old(out.status))
      ensures Shrinks(Specs(store.list), old(Specs(store.list)))
      ensures Tail(store.list, old(store.list)) && old(delivered) <= delivered
      ensures Moves(s.write) ==> |delivered| > |old(delivered)|
      ensures !Over(out.status) ==> Whole() == old(Whole())
      ensures !Over(out.status) ==>
                (InOrder(out.stream) <==> old(InOrder(out.stream)) && out.crossed == old(out.crossed))
      ensures out.crossed == old(out.crossed) + if Moves(s.write) && old(out.bufferStart < out.bufferEnd) then 1 else 0
      ensures s.write != Failed && s.last != Failed && old(NextFits()) ==> !Over(out.status)
      ensures Moves(s.write) && old(!NextFits()) && store.list != old(store.list) ==> out.status == DEAD
      ensures Moves(s.write) && !Several() ==> !Over(out.status)
      ensures lost ==> old(out.bufferEnd) + |CLOSING_SEPARATOR| > BUFFER_SIZE
    {
      hide Specs, Slices, Chain, Books, Outgoing.Consistent, AllInside, InOrder, NextFits, Whole, Shrinks, Tail;
      GoesOn(0);
      FirstIs();
      var most := store.ranges.stop - store.ranges.start + 1;
      if most > systemBufsize {
        most := systemBufsize;
      }
      var w := if s.write.Moved? && s.write.count > most then Moved(most) else s.write;
      if mapped {
        r := ProcessGet(w, s.last);
      } else {
        r := IoShuffleSendfile(w, s.last);
      }
    }

    /** Io_shuffle, with a read that is cut to what it asks for. */
    method HandleShuffle(s: Step) returns (r: int)
      requires Valid() && !isHead && out.status == IOSHUFFLE && !mapped
      modifies this`bytesWritten, this`delivered, this`dataFd, this`lost
      modifies store`pool, store`free, store`freeBase, store`ranges, store`list, store`listBase, store.ranges
      modifies out`status, out`bufferStart, out`bufferEnd, out`sent, out`appended, out`stream, out.buffer
      ensures Valid() && -1 <= r <= 1 && (Running() ==> out.status == old(out.status))
      ensures Shrinks(Specs(store.list), old(Specs(store.list)))
      ensures Tail(store.list, old(store.list)) && old(delivered) <= delivered
      ensures Moves(s.read) && old(dataFd) && old(out.bufferEnd) < BUFFER_SIZE - 256 ==>
                |delivered| > |old(delivered)| && dataFd
      ensures !Over(out.status) ==> Whole() == old(Whole()) && !lost
      ensures !Over(out.status) ==> (InOrder(out.stream) <==> old(InOrder(out.stream)))
      ensures s.read != Failed && s.write != Failed && s.last != Failed &&
              |old(NextHeader(Specs(store.list)))| <= 256 ==>
                !Over(out.status)
      ensures r == 0 && Running() ==> !dataFd && out.bufferStart == out.bufferEnd
    {
      hide Specs, Slices, Chain, Books, Outgoing.Consistent, AllInside, InOrder, NextHeader, Whole, Shrinks, Tail;
      GoesOn(0);
      FirstIs();
      var most := store.ranges.stop - store.ranges.start + 1;
      if most > BUFFER_SIZE - out.bufferEnd - 256 {
        most := if out.bufferEnd + 256 < BUFFER_SIZE then BUFFER_SIZE - out.bufferEnd - 256 else 0;
      }
      r := IoShuffle(if s.read.Moved? && s.read.count > most then Moved(most) else s.read, s.write, s.last);
    }
  }

  /**
    What the calls of one turn come back with: the flush, the read, the write, the flush of complete_response, and the
    flush of free_request.
    */
  datatype Step = Step(flush: IoResult, read: IoResult, write: IoResult, last: IoResult, free: IoResult)

  predicate Moves(w: IoResult) {
    w.Moved? && w.count > 0
  }

  lemma Behind(d: string, part: string)
    ensures d <= d + part && (d + part)[|d|..] == part
  {
  }

  /** 100K */
  const MAX_FILE_MMAP := 100 * 1024

  /** Without a Range header, the whole file is requested. */
  function Requested(rs: seq<RangeSpec>): seq<RangeSpec> {
    if rs == [] then [RangeSpec(0, NONE)] else rs
  }

  lemma DropFront(list: seq<Range>, had: seq<Range>, now: seq<Range>)
    requires |had| <= |list| && had == list[|list| - |had|..] && Tail(now, had)
    ensures |now| <= |list| && now == list[|list| - |now|..]
  {
  }

  lemma ListEnd(store: RangeStore)
    requires store.Valid()
    ensures store.ranges == null <==> store.list == []
  {
  }

  lemma FirstRange(store: RangeStore)
    requires store.Valid() && store.list != []
    ensures store.ranges == store.list[0] && Specs(store.list)[0] == RangeSpec(store.ranges.start, store.ranges.stop)
  {
  }

  // ----- what goes wrong with several parts

  /** A request for two ranges; the second is the first byte. */
  method TwoRanges(stop: word, filesize: word) returns (store: RangeStore)
    ensures fresh(store) && store.Valid() && store.numranges == 2 && store.filesize == filesize
    ensures Specs(store.list) == [RangeSpec(0, stop), RangeSpec(0, 0)]
    ensures forall i :: 0 <= i < |store.list| ==> fresh(store.list[i])
    ensures forall i :: 0 <= i < |store.free| ==> fresh(store.free[i])
  {
    hide NodeSet, Specs, Chain;
    store := new RangeStore();
    HeadIs(store.pool, store.free, Pooled, store.freeBase);
    store.RangeAdd(0, stop);
    HeadIs(store.pool, store.free, Pooled, store.freeBase);
    store.RangeAdd(0, 0);
    store.filesize := filesize;
  }

  /** A partial response to them, with nothing delivered yet. */
  method TwoParts(file: string, stop: word) returns (t: Transfer)
    requires 0 < |file| < LONG_MIN && stop < |file|
    ensures fresh(t) && fresh(t.store) && fresh(t.out) && fresh(t.out.buffer)
    ensures forall i :: 0 <= i < |t.store.list| ==> fresh(t.store.list[i])
    ensures t.Valid() && t.out.Consistent() && t.out.status == WRITE && t.mapped && t.Several() && !t.isHead
    ensures t.bytesWritten == |t.delivered| && t.out.bufferEnd == t.out.crossed == 0
    ensures t.store.list != [] && t.file == file
    ensures Specs(t.store.list) == [RangeSpec(0, stop), RangeSpec(0, 0)] && t.contentType == [] && t.systemBufsize == 1
  {
    hide Specs, Slices, Chain, RangeStore.Valid, Transfer.Valid, Transfer.Several, Outgoing.Consistent, NOTHING;
    var store := TwoRanges(stop, |file|);
    var out := new Outgoing(WRITE);
    t := new Transfer(file, store, out, false, 1, []);
    t.partial, t.mapped := true, true;
    t.plan := Slices(file, Specs(store.list));
    NewTransfer(t);
  }

  lemma NewTransfer(t: Transfer)
    requires t.store.Valid() && t.out.Valid() && t.store.filesize == |t.file| < LONG_MIN
    requires t.out.status == WRITE && t.partial && t.store.numranges == 2 && !t.isHead && !t.lost
    requires t.delivered == "" && t.bytesWritten == 0 && t.plan == Slices(t.file, Specs(t.store.list))
    requires t.store.list != [] && AllInside(Specs(t.store.list), |t.file|)
    ensures t.Valid() && t.Several() && t.out.Consistent()
  {
    assert "" + t.plan == t.plan;
  }

  /**
    The first range fills the buffer to its end: no header fits behind it, and the request dies. The 256 bytes that the
    comment in init_get relies on have not been kept free.
    */
  method PartKilled() returns (t: Transfer)
    ensures t.Several() && t.out.status == DEAD && |t.delivered| < |t.plan|
  {
    hide Specs, Slices, Chain, PartHeader, Concat, Outgoing.Consistent, InOrder, Transfer.Books, AllInside;
    hide RangeStore.Valid, Transfer.Whole;
    t := TwoParts(seq(BUFFER_SIZE, _ => 'x'), BUFFER_SIZE - 1);
    SecondHeader(t, Specs(t.store.list));
    FirstOf(t);
    var r := t.FirstCopy(Blocked);
    StillToCome(t);
  }

  lemma SecondHeader(t: Transfer, rs: seq<RangeSpec>)
    requires rs == [RangeSpec(0, BUFFER_SIZE - 1), RangeSpec(0, 0)]
    ensures !t.CopyFits(rs, 0) && 0 < BUFFER_SIZE < LONG_MIN
  {
    HeaderIsThere(t.store.numranges > 1, t.contentType, rs[1], |t.file|);
  }

  lemma FirstOf(t: Transfer)
    requires t.Valid()
    ensures t.store.ranges == if t.store.list == [] then null else t.store.list[0]
  {
  }

  lemma StillToCome(t: Transfer)
    requires t.Valid() && !t.isHead && t.store.list != []
    ensures |t.delivered| < |t.plan|
  {
    hide Specs, Chain;
    FirstInside(Specs(t.store.list), |t.file|);
  }

  /** Bytes wait in the buffer when the first part is written directly: the socket does not get them in order. */
  method Overtaken() returns (t: Transfer)
    ensures t.Valid() && t.out.status == WRITE && t.out.crossed == 1 && !InOrder(t.out.stream)
  {
    hide Specs, Slices, Chain, PartHeader, Concat, Outgoing.Consistent, InOrder, Transfer.Books, AllInside;
    hide RangeStore.Valid, Transfer.Whole;
    t := TwoParts("a", 0);
    t.ValidMeans();
    var written := t.out.ReqWrite("x");
    t.PartsFrom();
    t.ValidFrom();
    FirstOf(t);
    OneByte(t);
    var r := t.ProcessGet(Moved(1), Blocked);
    NowWriting(t);
  }

  /** Two parts of one byte; the first has been sent. */
  method OneToCome() returns (t: Transfer)
    ensures fresh(t) && fresh(t.store) && fresh(t.out) && fresh(t.out.buffer)
    ensures forall i :: 0 <= i < |t.store.list| ==> fresh(t.store.list[i])
    ensures t.Valid() && t.out.status == WRITE && t.mapped && t.Several() && !t.isHead && |t.store.list| == 1
    ensures t.systemBufsize == 1 && t.store.ranges == t.store.list[0] && t.store.ranges.start == t.store.ranges.stop
  {
    hide Specs, Slices, Chain, PartHeader, Concat, Outgoing.Consistent, InOrder, Transfer.Books, AllInside;
    hide RangeStore.Valid, Transfer.Whole;
    t := TwoParts("a", 0);
    FirstOf(t);
    OneByte(t);
    var r := t.ProcessGet(Moved(1), Blocked);
    NowWriting(t);
    FirstOf(t);
  }

  lemma OneByte(t: Transfer)
    requires t.Valid() && Specs(t.store.list) == [RangeSpec(0, 0), RangeSpec(0, 0)] && t.contentType == []
    requires t.out.bufferEnd <= 1 && |t.file| < LONG_MIN
    ensures t.store.ranges.start == t.store.ranges.stop && t.NextFits() && Wanted(Specs(t.store.list)) == 1
  {
    hide PartHeader, Concat;
    var several := t.store.numranges > 1;
    HeaderLength(several, [], RangeSpec(0, 0), |t.file|);
    ConcatStep([]);
  }

  lemma NowWriting(t: Transfer)
    requires t.Valid() && t.store.list != [] && !Over(t.out.status)
    ensures t.Running()
  {
  }

  /** The last part ends while the buffer is full: the request is done, and its closing separator is lost. */
  method SeparatorLost() returns (t: Transfer)
    ensures t.Valid() && t.out.status == DONE && t.Several() && t.lost && t.delivered == t.plan
  {
    hide Specs, Slices, Chain, PartHeader, Concat, Outgoing.Consistent, InOrder, Transfer.Books, AllInside;
    hide RangeStore.Valid, Transfer.Whole;
    t := OneToCome();
    t.ValidMeans();
    t.out.AliveIsConsistent();
    var room := BUFFER_SIZE - t.out.bufferEnd;
    var written := t.out.ReqWrite(seq(room, _ => 'x'));
    t.PartsFrom();
    t.ValidFrom();
    var r := t.ProcessGet(Moved(1), Blocked);
    t.DeliveredInOrder();
  }
}
