/** The event loop over select: src/select.c, without its signals. */
module SelectLoop {
  import opened RequestStatus
  import opened Queues
  import opened Scheduler

  /** FD_ISSET, in the set for the direction */
  predicate IsSet(w: Wait, readSet: set<int>, writeSet: set<int>) {
    w.fd in if w.events == READ then readSet else writeSet
  }

  /** io_shuffle is waiting for the file; fdset_update leaves its descriptor out when it sets the others again. */
  predicate LeftOut(s: Server, r: Request)
    reads r`status, r`bufferStart, r`bufferEnd
  {
    r.status == IOSHUFFLE && !s.haveSendfile && r.bufferEnd == 0 && r.bufferStart == 0
  }

  /** What fdset_update makes of a blocked request: its status, and whether it stays blocked. */
  function Judge(s: Server, r: Request, now: int, readSet: set<int>, writeSet: set<int>): Verdict
    reads r`status, r`fd, r`dataFd, r`postDataFd, r`bufferStart, r`bufferEnd
    reads r`timeLast, r`kacount, r`logline
  {
    if Expired(r, now, s.kaMax, s.kaTimeout) then Verdict(TIMED_OUT, false)
    else Verdict(r.status, !Over(r.status) && !IsSet(WaitsOn(r, s.haveSendfile), readSet, writeSet))
  }

  /** The descriptors that a blocked request is concerned with. */
  ghost function Own(s: Server, r: Request): (d: set<int>)
    reads r`status, r`fd, r`dataFd, r`postDataFd, r`bufferStart, r`bufferEnd
  {
    {r.fd, WaitsOn(r, s.haveSendfile).fd}
  }

  /** The sets are as they were but for these descriptors. */
  predicate SameBut(a: set<int>, b: set<int>, own: set<int>) {
    a - own == b - own
  }

  /** fdset_update, on one request */
  method Update(s: Server, req: Request, now: int, ghost k: nat) returns (stays: bool)
    requires s.Queued(null) && !s.usePoll && s.slot == [] && k < |s.blocked.items| && s.blocked.items[k] == req
    modifies s.ready, s.blocked, s.all`next, s.all`prev, s.all`home, s.all`rank
    modifies s`readSet, s`writeSet, s`maxFd, s`pfdLen, s`slot, s.pfds, req`status, req`pollfdId
    ensures s.Queued(null) && s.slot == []
    ensures var age, w := now - req.timeLast, old(WaitsOn(req, s.haveSendfile));
            var timeUp := age > REQUEST_TIMEOUT || (req.kacount < s.kaMax && age >= s.kaTimeout && !req.logline);
      && req.status == (if timeUp then TIMED_OUT else old(req.status))
      && (stays <==>
            !timeUp && !old(Over(req.status)) && w.fd !in old(if w.events == READ then s.readSet else s.writeSet))
      && (stays ==>
            (w.fd in (if w.events == READ then s.readSet else s.writeSet) <==>
             !(req.status == IOSHUFFLE && !s.haveSendfile && req.bufferEnd == 0 && req.bufferStart == 0)))
    ensures req.status == if old(Expired(req, now, s.kaMax, s.kaTimeout)) then TIMED_OUT else old(req.status)
    ensures stays <==>
              !Over(req.status) && !IsSet(WaitsOn(req, s.haveSendfile), old(s.readSet), old(s.writeSet))
    ensures stays ==> s.blocked.items == old(s.blocked.items) && s.ready.items == old(s.ready.items)
                      && (IsSet(WaitsOn(req, s.haveSendfile), s.readSet, s.writeSet) <==> !LeftOut(s, req))
    ensures !stays ==> s.ready.items == [req] + old(s.ready.items)
                       && s.blocked.items == Removed(old(s.blocked.items), k)
    ensures Verdict(req.status, stays) == old(Judge(s, req, now, s.readSet, s.writeSet))
    ensures stays ==> req.status == old(req.status)
    ensures old(Expired(req, now, s.kaMax, s.kaTimeout)) ==> !stays
    ensures SameBut(old(s.readSet), s.readSet, old(Own(s, req)))
    ensures SameBut(old(s.writeSet), s.writeSet, old(Own(s, req)))
  {
    hide Server.Queued, Removed;
    s.InQueues();
    ghost var before := WaitsOn(req, s.haveSendfile);
    var timeSince := now - req.timeLast;
    if req.kacount < s.kaMax && timeSince >= s.kaTimeout && !req.logline {
      req.status := TIMED_OUT;
    } else if timeSince > REQUEST_TIMEOUT {
      req.status := TIMED_OUT;
    }
    var w := WaitsOn(req, s.haveSendfile);
    assert w.fd == req.fd || w == before;
    hide WaitsOn;
    if Over(req.status) || IsSet(w, s.readSet, s.writeSet) {
      s.ReadyRequest(req, k);
      return false;
    }
    if !LeftOut(s, req) {
      s.Watch(req, w, []);
    }
    return true;
  }

  // ----- the walk over the blocked queue

  /** What fdset_update has decided on the first requests, and what it has done to them. */
  ghost predicate Settled(s: Server, seen: seq<Request>, v: seq<Verdict>, now: int)
    reads seen`status, seen`timeLast, seen`kacount, seen`logline
  {
    |v| == |seen| && forall i {:trigger v[i]} :: 0 <= i < |v| ==>
      && seen[i].status == v[i].status
      && (v[i].stays ==> !Over(v[i].status))
      && (Expired(seen[i], now, s.kaMax, s.kaTimeout) ==> v[i] == Verdict(TIMED_OUT, false))
  }

  ghost predicate Midway(s: Server, start: seq<Request>, v: seq<Verdict>, now: int, woken: seq<Request>)
    reads s.ready, s.blocked, start`status, start`timeLast, start`kacount, start`logline
  {
    && |v| <= |start| && Settled(s, start[..|v|], v, now) && AllDiffer(start)
    && s.blocked.items == Stayers(start, v, |v|) + start[|v|..]
    && s.ready.items == Movers(start, v, |v|) + woken
  }

  lemma Begins(s: Server, now: int)
    requires s.Queued(null)
    ensures Midway(s, s.blocked.items, [], now, s.ready.items)
  {
    s.blocked.Distinct();
    assert s.blocked.items[0..] == s.blocked.items;
    assert Stayers(s.blocked.items, [], 0) + s.blocked.items == s.blocked.items;
    assert Movers(s.blocked.items, [], 0) + s.ready.items == s.ready.items;
  }

  lemma Ends(s: Server, start: seq<Request>, v: seq<Verdict>, now: int, woken: seq<Request>)
    requires Midway(s, start, v, now, woken) && |v| == |start|
    ensures s.blocked.items == Stayers(start, v, |v|) && s.ready.items == Movers(start, v, |v|) + woken
    ensures Settled(s, start, v, now)
  {
    assert start[|v|..] == [] && start[..|v|] == start;
  }

  /** What is known about the next request, and about the others. */
  lemma Opened(s: Server, start: seq<Request>, v: seq<Verdict>, now: int, woken: seq<Request>)
    requires Midway(s, start, v, now, woken) && |v| < |start|
    ensures Settled(s, start[..|v|], v, now) && AllDiffer(start)
    ensures start[|v|] !in start[..|v|] && start[|v|] !in start[|v| + 1..]
    ensures start[..|v| + 1] == start[..|v|] + [start[|v|]]
    ensures var i, kept, items := |v|, Stayers(start, v, |v|), s.blocked.items;
      && items == kept + start[i..] && |items| == |kept| + |start| - i && items[|kept|] == start[i]
      && (i + 1 < |start| ==> items[|kept| + 1] == start[i + 1])
      && kept + start[i..] == kept + [start[i]] + start[i + 1..]
      && Removed(items, |kept|) == kept + start[i + 1..]
      && s.ready.items == Movers(start, v, i) + woken
  {
    hide Settled, Removed, Stayers, Movers;
    Others(start, |v|, start[..|v|]);
    Place(Stayers(start, v, |v|), start, |v|);
  }

  lemma Place(kept: seq<Request>, start: seq<Request>, i: nat)
    requires i < |start|
    ensures (kept + start[i..])[|kept|] == start[i]
    ensures |kept + start[i..]| == |kept| + |start| - i
    ensures i + 1 < |start| ==> (kept + start[i..])[|kept| + 1] == start[i + 1]
    ensures kept + start[i..] == kept + [start[i]] + start[i + 1..]
    ensures Removed(kept + start[i..], |kept|) == kept + start[i + 1..]
    ensures start[..i + 1] == start[..i] + [start[i]]
  {
  }

  lemma SettledOn(s: Server, seen: seq<Request>, v: seq<Verdict>, r: Request, x: Verdict, now: int)
    requires Settled(s, seen, v, now) && r.status == x.status && (x.stays ==> !Over(x.status))
    requires Expired(r, now, s.kaMax, s.kaTimeout) ==> x == Verdict(TIMED_OUT, false)
    ensures Settled(s, seen + [r], v + [x], now)
  {
    hide Expired, Over;
  }

  /** The verdict on the next request, in the queues. */
  lemma VerdictStep(start: seq<Request>, v: seq<Verdict>, x: Verdict, woken: seq<Request>)
    requires |v| < |start|
    ensures var i, w := |v|, v + [x];
      && Stayers(start, w, i + 1) == (if x.stays then Stayers(start, v, i) + [start[i]] else Stayers(start, v, i))
      && Movers(start, w, i + 1) + woken == (if x.stays then [] else [start[i]]) + (Movers(start, v, i) + woken)
  {
    MoreVerdicts(start, v, [x], |v|);
    StayersNext(start, v + [x], |v|);
    MoversNext(start, v + [x], |v|, woken);
  }

  lemma Closed(s: Server, start: seq<Request>, v: seq<Verdict>, now: int, woken: seq<Request>)
    requires |v| <= |start| && Settled(s, start[..|v|], v, now) && AllDiffer(start)
    requires s.blocked.items == Stayers(start, v, |v|) + start[|v|..] && s.ready.items == Movers(start, v, |v|) + woken
    ensures Midway(s, start, v, now, woken)
  {
  }

  /** fdset_update, on the next request */
  method UpdateNext(s: Server, current: Request, now: int,
                    ghost start: seq<Request>, ghost v: seq<Verdict>, ghost woken: seq<Request>)
    returns (next: Request?, ghost x: Verdict)
    requires s.Queued(null) && !s.usePoll && s.slot == [] && s.blocked.Valid()
    requires Midway(s, start, v, now, woken) && |v| < |start| && current == start[|v|]
    modifies s.ready, s.blocked, s.all`next, s.all`prev, s.all`home, s.all`rank
    modifies s`readSet, s`writeSet, s`maxFd, s`pfdLen, s`slot, s.pfds, current`status, current`pollfdId
    ensures s.Queued(null) && s.slot == [] && Midway(s, start, v + [x], now, woken)
    ensures next == if |v| + 1 < |start| then start[|v| + 1] else null
    ensures x == old(Judge(s, current, now, s.readSet, s.writeSet)) && current.status == x.status
    ensures x.stays ==> old(current.status) == current.status
    ensures x.stays ==> (IsSet(WaitsOn(current, s.haveSendfile), s.readSet, s.writeSet) <==> !LeftOut(s, current))
    ensures SameBut(old(s.readSet), s.readSet, old(Own(s, current)))
    ensures SameBut(old(s.writeSet), s.writeSet, old(Own(s, current)))
  {
    hide *;
    Opened(s, start, v, now, woken);
    ghost var kept := Stayers(start, v, |v|);
    next := s.blocked.After(current, |kept|);
    var stays := Update(s, current, now, |kept|);
    x := Verdict(current.status, stays);
    VerdictStep(start, v, x, woken);
    SettledOn(s, start[..|v|], v, current, x, now);
    Closed(s, start, v + [x], now, woken);
  }

  // ----- the descriptor sets

  /** No two of the requests are concerned with the same descriptor. */
  predicate AllApart(own: seq<set<int>>) {
    forall i, j :: 0 <= i < j < |own| ==> own[i] !! own[j]
  }

  ghost function Owns(s: Server, rs: seq<Request>): (o: seq<set<int>>)
    reads rs
    ensures |o| == |rs| && forall i :: 0 <= i < |rs| ==> o[i] == Own(s, rs[i])
  {
    if rs == [] then [] else [Own(s, rs[0])] + Owns(s, rs[1..])
  }

  /** What becomes of each request, by the sets as select has left them. */
  ghost function Judged(s: Server, rs: seq<Request>, now: int): (v: seq<Verdict>)
    reads s, rs
    ensures |v| == |rs| && forall i :: 0 <= i < |rs| ==> v[i] == Judge(s, rs[i], now, s.readSet, s.writeSet)
  {
    if rs == [] then [] else [Judge(s, rs[0], now, s.readSet, s.writeSet)] + Judged(s, rs[1..], now)
  }

  /** The requests to be looked at are as they were, and so are the sets as far as they are concerned. */
  ghost predicate Ahead(s: Server, rest: seq<Request>, own: seq<set<int>>, e: seq<Verdict>, now: int,
                        readSet: set<int>, writeSet: set<int>)
    reads rest`status, rest`fd, rest`dataFd, rest`postDataFd, rest`bufferStart, rest`bufferEnd
    reads rest`timeLast, rest`kacount, rest`logline
  {
    && |own| == |e| == |rest|
    && forall j {:trigger rest[j]} :: 0 <= j < |rest| ==>
         && own[j] == Own(s, rest[j])
         && e[j] == Judge(s, rest[j], now, readSet, writeSet)
  }

  /** A request that has stayed has its descriptor in its set, but for the case that is left out. */
  ghost predicate Behind(s: Server, seen: seq<Request>, own: seq<set<int>>, v: seq<Verdict>,
                         readSet: set<int>, writeSet: set<int>)
    reads seen`status, seen`fd, seen`dataFd, seen`postDataFd, seen`bufferStart, seen`bufferEnd
  {
    && |own| == |v| == |seen|
    && forall j {:trigger seen[j]} :: 0 <= j < |seen| && v[j].stays ==>
         && WaitsOn(seen[j], s.haveSendfile).fd in own[j]
         && (IsSet(WaitsOn(seen[j], s.haveSendfile), readSet, writeSet) <==> !LeftOut(s, seen[j]))
  }

  /** None of these is concerned with any of the descriptors `d`. */
  predicate Foreign(own: seq<set<int>>, d: set<int>) {
    forall j :: 0 <= j < |own| ==> own[j] !! d
  }

  lemma AheadMoves(s: Server, rest: seq<Request>, own: seq<set<int>>, e: seq<Verdict>, now: int, d: set<int>,
                   readSet: set<int>, writeSet: set<int>, readSet': set<int>, writeSet': set<int>)
    requires Ahead(s, rest, own, e, now, readSet, writeSet)
    requires SameBut(readSet, readSet', d) && SameBut(writeSet, writeSet', d)
    requires Foreign(own, d)
    ensures Ahead(s, rest, own, e, now, readSet', writeSet')
  {
    hide WaitsOn, Expired, Over;
    forall j | 0 <= j < |rest|
      ensures IsSet(WaitsOn(rest[j], s.haveSendfile), readSet, writeSet) <==>
              IsSet(WaitsOn(rest[j], s.haveSendfile), readSet', writeSet')
    {
      OutsideSame(WaitsOn(rest[j], s.haveSendfile), own[j], d, readSet, writeSet, readSet', writeSet');
    }
  }

  lemma BehindMoves(s: Server, seen: seq<Request>, own: seq<set<int>>, v: seq<Verdict>, d: set<int>,
                    readSet: set<int>, writeSet: set<int>, readSet': set<int>, writeSet': set<int>)
    requires Behind(s, seen, own, v, readSet, writeSet)
    requires SameBut(readSet, readSet', d) && SameBut(writeSet, writeSet', d)
    requires Foreign(own, d)
    ensures Behind(s, seen, own, v, readSet', writeSet')
  {
    hide WaitsOn, LeftOut;
    forall j | 0 <= j < |seen| && v[j].stays
      ensures IsSet(WaitsOn(seen[j], s.haveSendfile), readSet, writeSet) <==>
              IsSet(WaitsOn(seen[j], s.haveSendfile), readSet', writeSet')
    {
      OutsideSame(WaitsOn(seen[j], s.haveSendfile), own[j], d, readSet, writeSet, readSet', writeSet');
    }
  }

  lemma OutsideSame(w: Wait, own: set<int>, d: set<int>,
                    readSet: set<int>, writeSet: set<int>, readSet': set<int>, writeSet': set<int>)
    requires w.fd in own && own !! d
    requires SameBut(readSet, readSet', d) && SameBut(writeSet, writeSet', d)
    ensures IsSet(w, readSet, writeSet) <==> IsSet(w, readSet', writeSet')
  {
    assert w.fd !in d;
    assert w.fd in readSet <==> w.fd in readSet - d;
    assert w.fd in readSet' <==> w.fd in readSet' - d;
    assert w.fd in writeSet <==> w.fd in writeSet - d;
    assert w.fd in writeSet' <==> w.fd in writeSet' - d;
  }

  lemma BehindOn(s: Server, seen: seq<Request>, own: seq<set<int>>, v: seq<Verdict>, r: Request, d: set<int>,
                 x: Verdict, readSet: set<int>, writeSet: set<int>)
    requires Behind(s, seen, own, v, readSet, writeSet)
    requires x.stays ==> WaitsOn(r, s.haveSendfile).fd in d
    requires x.stays ==> (IsSet(WaitsOn(r, s.haveSendfile), readSet, writeSet) <==> !LeftOut(s, r))
    ensures Behind(s, seen + [r], own + [d], v + [x], readSet, writeSet)
  {
    hide WaitsOn, LeftOut, IsSet;
  }

  lemma AheadTail(s: Server, start: seq<Request>, own: seq<set<int>>, e: seq<Verdict>, i: nat, now: int)
    requires |own| == |e| == |start| && i < |start| && AllApart(own)
    requires Ahead(s, start[i..], own[i..], e[i..], now, s.readSet, s.writeSet)
    ensures Ahead(s, start[i + 1..], own[i + 1..], e[i + 1..], now, s.readSet, s.writeSet)
    ensures own[i] == Own(s, start[i]) && e[i] == Judge(s, start[i], now, s.readSet, s.writeSet)
    ensures WaitsOn(start[i], s.haveSendfile).fd in own[i]
    ensures Foreign(own[i + 1..], own[i]) && Foreign(own[..i], own[i])
  {
    hide WaitsOn, Expired, Over, IsSet;
    var rest, o, w := start[i..], own[i..], e[i..];
    assert rest[0] == start[i] && o[0] == own[i] && w[0] == e[i];
    assert start[i + 1..] == rest[1..] && own[i + 1..] == o[1..] && e[i + 1..] == w[1..];
    assert forall j :: 0 <= j < |rest[1..]| ==> rest[1..][j] == rest[j + 1];
  }

  /** Under distinct descriptors, the walk decides as if all were decided at its start. */
  ghost predicate Watching(s: Server, start: seq<Request>, own: seq<set<int>>, e: seq<Verdict>, v: seq<Verdict>,
                           now: int)
    reads s`readSet, s`writeSet, start`status, start`fd, start`dataFd, start`postDataFd
    reads start`bufferStart, start`bufferEnd, start`timeLast, start`kacount, start`logline
  {
    && |own| == |e| == |start| && |v| <= |start|
    && (AllApart(own) ==>
          && v == e[..|v|]
          && Behind(s, start[..|v|], own[..|v|], v, s.readSet, s.writeSet)
          && Ahead(s, start[|v|..], own[|v|..], e[|v|..], now, s.readSet, s.writeSet))
  }

  lemma WatchingBegins(s: Server, start: seq<Request>, now: int)
    ensures Watching(s, start, Owns(s, start), Judged(s, start, now), [], now)
  {
    hide WaitsOn, Expired, Over, IsSet, Own;
    var own, e := Owns(s, start), Judged(s, start, now);
    assert start[0..] == start && own[0..] == own && e[0..] == e;
    assert start[..0] == [] && own[..0] == [] && e[..0] == [];
  }

  /** The same step, with the descriptor sets. */
  method UpdateWatched(s: Server, current: Request, now: int, ghost start: seq<Request>, ghost v: seq<Verdict>,
                       ghost woken: seq<Request>, ghost own: seq<set<int>>, ghost e: seq<Verdict>)
    returns (next: Request?, ghost w: seq<Verdict>)
    requires s.Queued(null) && !s.usePoll && s.slot == [] && s.blocked.Valid()
    requires Midway(s, start, v, now, woken) && |v| < |start| && current == start[|v|]
    requires Watching(s, start, own, e, v, now)
    modifies s.ready, s.blocked, s.all`next, s.all`prev, s.all`home, s.all`rank
    modifies s`readSet, s`writeSet, s`maxFd, s`pfdLen, s`slot, s.pfds, current`status, current`pollfdId
    ensures s.Queued(null) && s.slot == [] && |w| == |v| + 1
    ensures Midway(s, start, w, now, woken) && Watching(s, start, own, e, w, now)
    ensures next == if |w| < |start| then start[|w|] else null
  {
    hide *;
    ghost var i, readSet, writeSet := |v|, s.readSet, s.writeSet;
    Opened(s, start, v, now, woken);
    WatchingSizes(s, start, own, e, v, now);
    if AllApart(own) {
      AheadTail(s, start, own, e, i, now);
    }
    ghost var x;
    next, x := UpdateNext(s, current, now, start, v, woken);
    w := v + [x];
    if AllApart(own) {
      AheadMoves(s, start[i + 1..], own[i + 1..], e[i + 1..], now, own[i], readSet, writeSet, s.readSet, s.writeSet);
      BehindMoves(s, start[..i], own[..i], v, own[i], readSet, writeSet, s.readSet, s.writeSet);
      BehindOn(s, start[..i], own[..i], v, current, own[i], x, s.readSet, s.writeSet);
      assert own[..i + 1] == own[..i] + [own[i]];
      assert e[..i + 1] == e[..i] + [e[i]];
    }
    WatchingFrom(s, start, own, e, w, now);
  }

  lemma WatchingSizes(s: Server, start: seq<Request>, own: seq<set<int>>, e: seq<Verdict>, v: seq<Verdict>, now: int)
    requires Watching(s, start, own, e, v, now)
    ensures |own| == |e| == |start| && |v| <= |start|
    ensures AllApart(own) ==>
              && v == e[..|v|]
              && Behind(s, start[..|v|], own[..|v|], v, s.readSet, s.writeSet)
              && Ahead(s, start[|v|..], own[|v|..], e[|v|..], now, s.readSet, s.writeSet)
  {
  }

  lemma WatchingFrom(s: Server, start: seq<Request>, own: seq<set<int>>, e: seq<Verdict>, v: seq<Verdict>, now: int)
    requires |own| == |e| == |start| && |v| <= |start|
    requires AllApart(own) ==>
              && v == e[..|v|]
              && Behind(s, start[..|v|], own[..|v|], v, s.readSet, s.writeSet)
              && Ahead(s, start[|v|..], own[|v|..], e[|v|..], now, s.readSet, s.writeSet)
    ensures Watching(s, start, own, e, v, now)
  {
  }

  /** fdset_update: the loop */
  method WalkBlocked(s: Server, now: int, ghost start: seq<Request>, ghost woken: seq<Request>,
                     ghost own: seq<set<int>>, ghost e: seq<Verdict>)
    returns (ghost v: seq<Verdict>)
    requires s.Queued(null) && !s.usePoll && s.slot == []
    requires s.blocked.items == start && Midway(s, start, [], now, woken) && Watching(s, start, own, e, [], now)
    modifies s.ready, s.blocked, s.all`next, s.all`prev, s.all`home, s.all`rank
    modifies s`readSet, s`writeSet, s`maxFd, s`pfdLen, s`slot, s.pfds
    modifies start`status, start`pollfdId
    ensures s.Queued(null) && s.slot == [] && |v| == |start|
    ensures Midway(s, start, v, now, woken) && Watching(s, start, own, e, v, now)
  {
    hide *;
    s.AreLists();
    s.blocked.First();
    var current := s.blocked.head;
    v := [];
    while current != null
      invariant s.Queued(null) && s.slot == [] && |v| <= |start|
      invariant Midway(s, start, v, now, woken) && Watching(s, start, own, e, v, now)
      invariant current == if |v| < |start| then start[|v|] else null
      decreases |start| - |v|
    {
      s.AreLists();
      current, v := UpdateWatched(s, current, now, start, v, woken, own, e);
    }
  }

  /**
    fdset_update. A request whose time is up is never left blocked. When no two requests are concerned with the same
    descriptor, each is decided on by the sets as select has left them, and the descriptor of a request that stays is
    in its set afterwards exactly when it is not the one that is left out.
    */
  method FdsetUpdate(s: Server, now: int) returns (ghost v: seq<Verdict>)
    requires s.Queued(null) && !s.usePoll && s.slot == []
    modifies s.ready, s.blocked, s.all`next, s.all`prev, s.all`home, s.all`rank
    modifies s`readSet, s`writeSet, s`maxFd, s`pfdLen, s`slot, s.pfds
    modifies s.blocked.items`status, s.blocked.items`pollfdId
    ensures s.Queued(null) && s.slot == [] && |v| == |old(s.blocked.items)|
    ensures Settled(s, old(s.blocked.items), v, now)
    ensures s.blocked.items == Stayers(old(s.blocked.items), v, |v|)
    ensures s.ready.items == Movers(old(s.blocked.items), v, |v|) + old(s.ready.items)
    ensures AllApart(old(Owns(s, s.blocked.items))) ==> v == old(Judged(s, s.blocked.items, now))
    ensures AllApart(old(Owns(s, s.blocked.items))) ==> Resting(s, old(s.blocked.items), v)
  {
    hide *;
    ghost var start, woken := s.blocked.items, s.ready.items;
    ghost var own, e := Owns(s, start), Judged(s, start, now);
    Begins(s, now);
    WatchingBegins(s, start, now);
    v := WalkBlocked(s, now, start, woken, own, e);
    Ends(s, start, v, now, woken);
    WatchingSizes(s, start, own, e, v, now);
    assert e[..|v|] == e && start[..|v|] == start;
    if AllApart(own) {
      BehindAll(s, start, own[..|v|], v);
    }
  }

  /** A request stays exactly when it is alive, its time is not up, and its descriptor is not left in the set. */
  lemma JudgedMeans(s: Server, rs: seq<Request>, now: int)
    ensures var v := Judged(s, rs, now);
      forall i {:trigger v[i]} :: 0 <= i < |v| ==>
        var r, w, age := rs[i], WaitsOn(rs[i], s.haveSendfile), now - rs[i].timeLast;
        var timeUp := age > REQUEST_TIMEOUT || (r.kacount < s.kaMax && age >= s.kaTimeout && !r.logline);
        && v[i].status == (if timeUp then TIMED_OUT else r.status)
        && (v[i].stays <==> !timeUp && !Over(r.status) && w.fd !in if w.events == READ then s.readSet else s.writeSet)
  {
    hide WaitsOn;
  }

  /** The descriptor of a request that has stayed is in its set, unless io_shuffle is waiting for its file. */
  lemma RestingMeans(s: Server, rs: seq<Request>, v: seq<Verdict>)
    requires Resting(s, rs, v)
    ensures forall i {:trigger rs[i]} :: 0 <= i < |rs| && v[i].stays ==>
      var r, w := rs[i], WaitsOn(rs[i], s.haveSendfile);
      (w.fd in (if w.events == READ then s.readSet else s.writeSet) <==>
       !(r.status == IOSHUFFLE && !s.haveSendfile && r.bufferEnd == 0 && r.bufferStart == 0))
  {
    hide WaitsOn;
  }

  /** Of the requests that have stayed, exactly those that are left out do not have their descriptor in its set. */
  ghost predicate Resting(s: Server, rs: seq<Request>, v: seq<Verdict>)
    reads s`readSet, s`writeSet
    reads rs`status, rs`fd, rs`dataFd, rs`postDataFd, rs`bufferStart, rs`bufferEnd
  {
    |v| == |rs| && forall i {:trigger rs[i]} :: 0 <= i < |rs| && v[i].stays ==>
      (IsSet(WaitsOn(rs[i], s.haveSendfile), s.readSet, s.writeSet) <==> !LeftOut(s, rs[i]))
  }

  lemma BehindAll(s: Server, rs: seq<Request>, own: seq<set<int>>, v: seq<Verdict>)
    requires Behind(s, rs, own, v, s.readSet, s.writeSet)
    ensures Resting(s, rs, v)
  {
  }

  /** select: it leaves some of the descriptors in the sets. */
  method Select(s: Server)
    modifies s`readSet, s`writeSet
    ensures s.readSet <= old(s.readSet) && s.writeSet <= old(s.writeSet)
  {
    var r: set<int>, w: set<int> := *, *;
    s.readSet, s.writeSet := s.readSet * r, s.writeSet * w;
  }

  /** The part of a round up to select, which is given the set `offered`: is the server socket found readable? */
  method Listen(s: Server, serverFd: int) returns (ghost offered: set<int>)
    requires s.Counted(0)
    modifies s`pending, s`readSet, s`writeSet, s`maxFd
    ensures s.Counted(0)
    ensures serverFd in offered <==> s.total <= s.maxConnections
    ensures s.total <= s.maxConnections ==> s.maxFd >= serverFd
    ensures offered == old(s.readSet) + {serverFd} || offered == old(s.readSet) - {serverFd}
    ensures s.readSet <= offered && s.writeSet <= old(s.writeSet)
    ensures s.pending <==> s.maxFd != 0 && serverFd in s.readSet
    ensures s.total > s.maxConnections ==> serverFd !in s.readSet
  {
    if s.total > s.maxConnections {
      s.readSet := s.readSet - {serverFd};
    } else {
      s.readSet := s.readSet + {serverFd};
      s.maxFd := if serverFd > s.maxFd then serverFd else s.maxFd;
    }
    offered := s.readSet;
    s.pending := false;
    if s.maxFd != 0 {
      var failed: bool := *;
      if !failed {
        Select(s);
      }
      if serverFd in s.readSet {
        s.pending := true;
      }
    }
  }

  /** One round of the loop */
  method Round(s: Server, serverFd: int)
    requires s.Valid() && !s.usePoll
    modifies s, s.ready, s.blocked, s.free, s.all, s.pfds
    ensures s.Valid() && s.pfds == old(s.pfds)
    ensures old(s.log) <= s.log && EndsWith(s.log[|old(s.log)|..], old(s.ready.items))
    ensures old(s.all) <= s.all && fresh(s.all - old(s.all))
  {
    hide *;
    ghost var was := s.ready.items;
    ValidToo(s);
    ghost var offered := Listen(s, serverFd);
    s.maxFd := -1;
    var now := *;
    assert s.Queued(null);
    s.InQueues();
    Refresh(s, now);
    ServeAny(s, was);
  }

  lemma ValidToo(s: Server)
    requires s.Valid() && !s.usePoll
    ensures s.Queued(null) && s.Counted(0) && s.slot == []
  {
  }

  /** process_requests is called when a connection or a request is waiting. */
  method ServeAny(s: Server, ghost was: seq<Request>)
    requires s.Valid() && EndsWith(s.ready.items, was)
    modifies s`all, s`total, s`pending, s`log, s`calls, s.ready, s.blocked, s.free, s.all
    modifies s`pfdLen, s`slot, s`readSet, s`writeSet, s`maxFd, s.pfds
    ensures s.Valid() && old(s.log) <= s.log && EndsWith(s.log[|old(s.log)|..], was)
    ensures old(s.all) <= s.all && fresh(s.all - old(s.all))
  {
    hide *;
    s.ReadyIsList();
    s.ready.First();
    EndsNone(s.ready.items, was);
    ghost var ready := s.ready.items;
    assert s.log[|s.log|..] == [];
    if s.pending || s.ready.head != null {
      ServeReady(s);
      EndsTwice(s.log[|old(s.log)|..], ready, was);
    }
  }

  /** The part of a round between select and process_requests. */
  method Refresh(s: Server, now: int)
    requires s.Queued(null) && s.Counted(0) && !s.usePoll && s.slot == []
    modifies s.ready, s.blocked, s.all`next, s.all`prev, s.all`home, s.all`rank
    modifies s`readSet, s`writeSet, s`maxFd, s`pfdLen, s`slot, s.pfds
    modifies s.blocked.items`status, s.blocked.items`pollfdId
    ensures s.Valid() && EndsWith(s.ready.items, old(s.ready.items))
  {
    hide *;
    ghost var blocked, was := s.blocked.items, s.ready.items;
    EndsSame(was);
    if s.blocked.head != null {
      ghost var v := FdsetUpdate(s, now);
      EndsAppended(Movers(blocked, v, |v|), was, was);
      StillCounted(s);
    }
    NothingWatched(s);
    s.Together();
  }

  lemma NothingWatched(s: Server)
    requires !s.usePoll && s.slot == []
    ensures s.Watched(s.blocked.items)
  {
  }

  /** loop: at the top of every round, however many there have been, the invariant holds. */
  method Loop(s: Server, serverFd: int, rounds: nat)
    requires s.Valid() && !s.usePoll
    modifies s, s.ready, s.blocked, s.free, s.all, s.pfds
    ensures s.Valid()
  {
    hide Server.Queued;
    s.maxFd := -1;
    s.readSet, s.writeSet := {}, {};
    for n := 0 to rounds
      invariant s.Valid() && s.pfds == old(s.pfds)
      invariant old(s.all) <= s.all && fresh(s.all - old(s.all))
    {
      Round(s, serverFd);
    }
  }

  /** A server and its first request, which is on no queue yet. */
  method OneNew() returns (s: Server, r: Request)
    ensures fresh(s) && fresh(s.ready) && fresh(s.blocked) && fresh(s.free) && fresh(s.pfds) && fresh(s.all)
    ensures s.Queued(r) && !s.usePoll && s.ready.items == s.blocked.items == [] && s.slot == [] && !s.pending
    ensures s.ready != s.blocked && 2 <= s.maxConnections + 1 <= FD_SETSIZE - 19 && !s.haveSendfile
    ensures r.bufferStart == r.bufferEnd == 0 && r.timeLast == 0 && r.kacount == s.kaMax && fresh(r)
  {
    hide *;
    OneConnection();
    s := new Server(1, 0, 0, false, false);
    QueuedToo(s);
    r := s.NewRequest(true, 0);
    Empty(r);
  }

  /** A server with one request, in io_shuffle, and with nothing in its buffer. */
  method OneReady() returns (s: Server, r: Request)
    ensures fresh(s) && fresh(s.ready) && fresh(s.blocked) && fresh(s.free) && fresh(s.pfds) && fresh(s.all)
    ensures s.Valid() && !s.usePoll && s.ready.items == [r] && s.blocked.items == [] && s.slot == []
    ensures r.status == IOSHUFFLE && r.dataFd == 6 && !s.haveSendfile && r.bufferStart == r.bufferEnd == 0
    ensures r.timeLast == 0 && r.kacount == s.kaMax && fresh(r)
  {
    hide *;
    s, r := OneNew();
    r.status, r.fd, r.dataFd := IOSHUFFLE, 5, 6;
    s.PutOn(s.ready, r);
    s.total := 1;
    s.FromBounds(0);
    NothingWatched(s);
    s.Together();
  }

  lemma OneConnection()
    ensures 2 <= FD_SETSIZE - 19 && 1 <= FD_SETSIZE - 20
  {
  }

  lemma Empty(r: Request)
    requires r.Cleared()
    ensures r.bufferStart == r.bufferEnd == 0
  {
  }

  lemma WaitsForFile(s: Server, r: Request)
    requires r.status == IOSHUFFLE && !s.haveSendfile && r.bufferStart == r.bufferEnd == 0
    ensures WaitsOn(r, s.haveSendfile) == Wait(r.dataFd, READ) && LeftOut(s, r) && !Over(r.status)
  {
  }

  /** What fdset_update makes of one blocked request, alone on a server, that waits for its file. */
  lemma OneJudged(s: Server, r: Request)
    requires s.blocked.items == [r] && LeftOut(s, r) && WaitsOn(r, s.haveSendfile) == Wait(6, READ) && 6 !in s.readSet
    requires r.timeLast == 0 && r.kacount == s.kaMax
    ensures AllApart(Owns(s, s.blocked.items)) && Judged(s, s.blocked.items, 0) == [Verdict(IOSHUFFLE, true)]
  {
    hide WaitsOn;
    assert !IsSet(WaitsOn(r, s.haveSendfile), s.readSet, s.writeSet);
    assert Judge(s, r, 0, s.readSet, s.writeSet) == Verdict(IOSHUFFLE, true);
  }

  /** It is blocked, and select finds nothing ready; fdset_update leaves it blocked, with its descriptor in no set. */
  method Forgotten() returns (s: Server, r: Request)
    ensures fresh(s) && s.Queued(null) && s.blocked.items == [r] && r.status == IOSHUFFLE
    ensures WaitsOn(r, s.haveSendfile) == Wait(6, READ)
    ensures !IsSet(WaitsOn(r, s.haveSendfile), s.readSet, s.writeSet)
  {
    hide *;
    s, r := OneReady();
    s.BlockRequest(r, 0);
    QueuedToo(s);
    s.readSet, s.writeSet := {}, {};
    WaitsForFile(s, r);
    OneJudged(s, r);
    ghost var v := FdsetUpdate(s, 0);
    OneStays(s, r, v);
  }

  lemma QueuedToo(s: Server)
    requires s.Valid()
    ensures s.Queued(null)
  {
  }

  lemma OneStays(s: Server, r: Request, v: seq<Verdict>)
    requires v == [Verdict(IOSHUFFLE, true)] && Settled(s, [r], v, 0) && Resting(s, [r], v)
    requires !s.haveSendfile && r.bufferStart == r.bufferEnd == 0
    ensures Stayers([r], v, |v|) == [r] && r.status == IOSHUFFLE
    ensures !IsSet(WaitsOn(r, s.haveSendfile), s.readSet, s.writeSet)
  {
    assert Stayers([r], v, 0) == [];
    assert [r][0].status == v[0].status;
    WaitsForFile(s, [r][0]);
  }
}
