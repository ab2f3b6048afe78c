/** The event loop over poll: src/poll.c, without its signals. */
module PollLoop {
  import opened RequestStatus
  import opened Queues
  import opened Scheduler

  /** What update_blocked makes of a blocked request. */
  function Examine(r: Request, revents: Returned, now: int, kaMax: nat, kaTimeout: nat): Verdict
    reads r`timeLast, r`kacount, r`logline, r`status
  {
    if revents == Broken then Verdict(DEAD, false)
    else if Expired(r, now, kaMax, kaTimeout) then Verdict(TIMED_OUT, false)
    else Verdict(r.status, revents == Quiet)
  }

  /** The entries of the table still stand for the requests that are to be looked at, which are as they were. */
  ghost predicate Unseen(s: Server, table: array<PollFd>, rest: seq<Request>, v: seq<Verdict>, now: int)
    reads table, rest`pollfdId, rest`status, rest`fd, rest`dataFd, rest`postDataFd
    reads rest`bufferStart, rest`bufferEnd, rest`timeLast, rest`kacount, rest`logline
  {
    && |v| == |rest|
    && forall j {:trigger rest[j]} :: 0 <= j < |rest| ==>
         && rest[j].pollfdId < table.Length
         && Wait(table[rest[j].pollfdId].fd, table[rest[j].pollfdId].events) == WaitsOn(rest[j], s.haveSendfile)
         && v[j] == Examine(rest[j], table[rest[j].pollfdId].revents, now, s.kaMax, s.kaTimeout)
  }

  lemma UnseenTail(s: Server, table: array<PollFd>, start: seq<Request>, v: seq<Verdict>, i: nat, now: int)
    requires i < |start| == |v| && Unseen(s, table, start[i..], v[i..], now)
    ensures Unseen(s, table, start[i + 1..], v[i + 1..], now)
    ensures start[i].pollfdId < table.Length
    ensures var e := table[start[i].pollfdId];
            && Wait(e.fd, e.events) == WaitsOn(start[i], s.haveSendfile)
            && v[i] == Examine(start[i], e.revents, now, s.kaMax, s.kaTimeout)
  {
    hide Examine, WaitsOn;
    assert start[i..][0] == start[i] && v[i..][0] == v[i];
    var rest, w := start[i..], v[i..];
    assert start[i + 1..] == rest[1..] && v[i + 1..] == w[1..];
    assert forall j :: 0 <= j < |rest[1..]| ==> rest[1..][j] == rest[j + 1];
  }

  /** The requests kept so far have the first entries of the other table, in order. */
  ghost predicate Moved(s: Server, entries: seq<PollFd>, kept: seq<Request>)
    reads kept`pollfdId, kept`status, kept`fd, kept`dataFd, kept`postDataFd, kept`bufferStart, kept`bufferEnd
  {
    && |kept| == |entries|
    && forall j {:trigger kept[j]} :: 0 <= j < |kept| ==>
         && kept[j].pollfdId == j
         && Wait(entries[j].fd, entries[j].events) == WaitsOn(kept[j], s.haveSendfile)
  }

  lemma MovedOn(s: Server, entries: seq<PollFd>, kept: seq<Request>, e: PollFd, r: Request)
    requires Moved(s, entries, kept) && r.pollfdId == |kept| && Wait(e.fd, e.events) == WaitsOn(r, s.haveSendfile)
    ensures Moved(s, entries + [e], kept + [r])
  {
    hide WaitsOn;
  }

  /** update_blocked, on one request */
  method Update(s: Server, other: array<PollFd>, req: Request, now: int, ghost v: Verdict, ghost k: nat)
    returns (stays: bool)
    requires s.Queued(null) && k < |s.blocked.items| && s.blocked.items[k] == req && k == s.pfdLen
    requires s.pfds != other && s.pfds.Length == other.Length == MAX_FD && req.pollfdId < MAX_FD && k < MAX_FD
    requires v == Examine(req, s.pfds[req.pollfdId].revents, now, s.kaMax, s.kaTimeout)
    modifies s.ready, s.blocked, s.all`next, s.all`prev, s.all`home, s.all`rank, s`readSet, s`writeSet
    modifies s`pfdLen, req`status, req`pollfdId, other
    ensures s.Queued(null) && stays == v.stays && req.status == v.status
    ensures var revents, age := old(s.pfds[req.pollfdId].revents), now - req.timeLast;
            var timeUp := age > REQUEST_TIMEOUT || (req.kacount < s.kaMax && age >= s.kaTimeout && !req.logline);
      && (stays <==> revents == Quiet && !timeUp)
      && req.status == if revents == Broken then DEAD else if timeUp then TIMED_OUT else old(req.status)
    ensures stays ==> req.status == old(req.status) && s.pfdLen == k + 1 && req.pollfdId == k
                      && s.blocked.items == old(s.blocked.items)
                      && s.ready.items == old(s.ready.items)
                      && other[k].fd == s.pfds[old(req.pollfdId)].fd
                      && other[k].events == s.pfds[old(req.pollfdId)].events
    ensures !stays ==> s.pfdLen == k && req.pollfdId == old(req.pollfdId) && s.ready.items == [req] + old(s.ready.items)
                       && s.blocked.items == Removed(old(s.blocked.items), k)
    ensures forall j :: 0 <= j < MAX_FD && j != k ==> other[j] == old(other[j])
    ensures other[..k] == old(other[..k]) && (stays ==> other[..k + 1] == old(other[..k]) + [other[k]])
  {
    hide Server.Queued, Removed;
    s.InQueues();
    var timeSince := now - req.timeLast;
    var revents := s.pfds[req.pollfdId].revents;
    if revents == Broken {
      req.status := DEAD;
    } else if timeSince > REQUEST_TIMEOUT {
      req.status := TIMED_OUT;
    } else if req.kacount < s.kaMax && timeSince >= s.kaTimeout && !req.logline {
      req.status := TIMED_OUT;
    } else if revents == Quiet {
      other[s.pfdLen] := PollFd(s.pfds[req.pollfdId].fd, s.pfds[req.pollfdId].events, other[s.pfdLen].revents);
      req.pollfdId := s.pfdLen;
      s.pfdLen := s.pfdLen + 1;
      return true;
    }
    s.ReadyRequest(req, k);
    return false;
  }

  /** The blocked queue in the middle of update_blocked: those kept, and those still to be looked at. */
  ghost predicate Midway(s: Server, other: array<PollFd>, start: seq<Request>, v: seq<Verdict>, i: nat, now: int)
    reads s, s.blocked, other, s.pfds, start
  {
    && |v| == |start| <= MAX_FD && i <= |start| && s.pfds != other && s.pfds.Length == other.Length == MAX_FD
    && AllDiffer(start)
    && var kept := Stayers(start, v, i);
    && s.blocked.items == kept + start[i..] && s.pfdLen == |kept|
    && (forall j :: 0 <= j < |kept| ==> kept[j] in start)
    && |kept| <= i && Moved(s, other[..|kept|], kept) && Unseen(s, s.pfds, start[i..], v[i..], now)
  }

  /** The same, which leaves the requests before and behind it as they are. */
  method UpdateAlone(s: Server, other: array<PollFd>, req: Request, now: int, ghost v: Verdict,
                     ghost kept: seq<Request>, ghost rest: seq<Request>, ghost verdicts: seq<Verdict>)
    returns (stays: bool)
    requires s.Queued(null) && |kept| < |s.blocked.items| && s.blocked.items[|kept|] == req && |kept| == s.pfdLen
    requires s.pfds != other && s.pfds.Length == other.Length == MAX_FD && req.pollfdId < MAX_FD && |kept| < MAX_FD
    requires v == Examine(req, s.pfds[req.pollfdId].revents, now, s.kaMax, s.kaTimeout)
    requires Unseen(s, s.pfds, rest, verdicts, now) && req !in rest && Moved(s, other[..|kept|], kept) && req !in kept
    modifies s.ready, s.blocked, s.all`next, s.all`prev, s.all`home, s.all`rank, s`readSet, s`writeSet
    modifies s`pfdLen, req`status, req`pollfdId, other
    ensures s.Queued(null) && stays == v.stays && req.status == v.status
    ensures stays ==> req.status == old(req.status) && s.pfdLen == |kept| + 1 && req.pollfdId == |kept|
                      && s.blocked.items == old(s.blocked.items)
                      && s.ready.items == old(s.ready.items)
                      && other[|kept|].fd == s.pfds[old(req.pollfdId)].fd
                      && other[|kept|].events == s.pfds[old(req.pollfdId)].events
    ensures !stays ==> s.pfdLen == |kept| && s.ready.items == [req] + old(s.ready.items)
                       && s.blocked.items == Removed(old(s.blocked.items), |kept|)
    ensures other[..|kept|] == old(other[..|kept|])
    ensures stays ==> other[..|kept| + 1] == old(other[..|kept|]) + [other[|kept|]]
    ensures Unseen(s, s.pfds, rest, verdicts, now) && Moved(s, old(other[..|kept|]), kept)
  {
    hide *;
    stays := Update(s, other, req, now, v, |kept|);
  }

  /** update_blocked, on the next request */
  method UpdateNext(s: Server, other: array<PollFd>, ghost start: seq<Request>, ghost v: seq<Verdict>, ghost i: nat,
                    current: Request, now: int)
    returns (next: Request?)
    requires s.Queued(null) && Midway(s, other, start, v, i, now) && i < |start| && current == start[i]
    requires s.blocked.Valid()
    modifies s.ready, s.blocked, s.all`next, s.all`prev, s.all`home, s.all`rank, s`readSet, s`writeSet
    modifies s`pfdLen, current`status, current`pollfdId, other
    ensures s.Queued(null) && Midway(s, other, start, v, i + 1, now) && current.status == v[i].status
    ensures s.ready.items == (if v[i].stays then [] else [current]) + old(s.ready.items)
    ensures next == if i + 1 < |start| then start[i + 1] else null
  {
    hide *;
    Opened(s, other, start, v, i, now);
    ghost var kept, rest := Stayers(start, v, i), start[i + 1..];
    StayersNext(start, v, i);
    ghost var entries := other[..|kept|];
    next := NextBlocked(s, current, start, i, |kept|);
    var stays := UpdateAlone(s, other, current, now, v[i], kept, rest, v[i + 1..]);
    if stays {
      MovedOn(s, entries, kept, other[|kept|], current);
    }
    Closed(s, other, start, v, i + 1, now);
  }

  method NextBlocked(s: Server, current: Request, ghost start: seq<Request>, ghost i: nat, ghost k: nat)
    returns (next: Request?)
    requires s.blocked.Valid() && i < |start| && |s.blocked.items| == k + |start| - i && s.blocked.items[k] == current
    requires i + 1 < |start| ==> s.blocked.items[k + 1] == start[i + 1]
    ensures next == if i + 1 < |start| then start[i + 1] else null
  {
    hide *;
    next := s.blocked.After(current, k);
  }

  /** What is known about the next request, and about the others. */
  lemma Opened(s: Server, other: array<PollFd>, start: seq<Request>, v: seq<Verdict>, i: nat, now: int)
    requires Midway(s, other, start, v, i, now) && i < |start|
    ensures |v| == |start| <= MAX_FD && s.pfds != other && s.pfds.Length == other.Length == MAX_FD && AllDiffer(start)
    ensures var kept, r, items := Stayers(start, v, i), start[i], s.blocked.items;
      && items == kept + start[i..] && s.pfdLen == |kept| <= i && r !in kept && r !in start[i + 1..]
      && |items| == |kept| + |start| - i && items[|kept|] == r
      && (i + 1 < |start| ==> items[|kept| + 1] == start[i + 1])
      && Removed(items, |kept|) == kept + start[i + 1..]
      && Moved(s, other[..|kept|], kept) && Unseen(s, s.pfds, start[i + 1..], v[i + 1..], now)
      && r.pollfdId < MAX_FD
      && var e := s.pfds[r.pollfdId];
      && Wait(e.fd, e.events) == WaitsOn(r, s.haveSendfile)
      && v[i] == Examine(r, e.revents, now, s.kaMax, s.kaTimeout)
  {
    hide Unseen, Moved, Examine, WaitsOn;
    UnseenTail(s, s.pfds, start, v, i, now);
    StayersStep(start, v, i);
    Others(start, i, Stayers(start, v, i));
  }

  lemma Closed(s: Server, other: array<PollFd>, start: seq<Request>, v: seq<Verdict>, i: nat, now: int)
    requires i <= |start| == |v| <= MAX_FD && AllDiffer(start)
    requires s.pfds != other && s.pfds.Length == other.Length == MAX_FD
    requires var kept := Stayers(start, v, i);
      && s.blocked.items == kept + start[i..] && s.pfdLen == |kept|
      && Moved(s, other[..|kept|], kept) && Unseen(s, s.pfds, start[i..], v[i..], now)
    ensures Midway(s, other, start, v, i, now)
  {
    hide Unseen, Moved;
  }

  /** What update_blocked will make of each request, by the returned events of its entry. */
  ghost function Verdicts(s: Server, waiting: seq<Request>, now: int): (v: seq<Verdict>)
    requires forall i :: 0 <= i < |waiting| ==> waiting[i].pollfdId < s.pfds.Length
    reads s, s.pfds, waiting
    ensures |v| == |waiting|
    ensures forall j :: 0 <= j < |v| ==>
              v[j] == Examine(waiting[j], s.pfds[waiting[j].pollfdId].revents, now, s.kaMax, s.kaTimeout)
  {
    if waiting == [] then []
    else [Examine(waiting[0], s.pfds[waiting[0].pollfdId].revents, now, s.kaMax, s.kaTimeout)]
         + Verdicts(s, waiting[1..], now)
  }

  lemma VerdictsMean(s: Server, waiting: seq<Request>, v: seq<Verdict>, now: int)
    requires forall i :: 0 <= i < |waiting| ==> waiting[i].pollfdId < s.pfds.Length
    requires v == Verdicts(s, waiting, now)
    ensures forall i :: 0 <= i < |v| ==>
      var r := waiting[i];
      var revents, age := s.pfds[r.pollfdId].revents, now - r.timeLast;
      var timeUp := age > REQUEST_TIMEOUT || (r.kacount < s.kaMax && age >= s.kaTimeout && !r.logline);
      && (v[i].stays <==> revents == Quiet && !timeUp)
      && v[i].status == if revents == Broken then DEAD else if timeUp then TIMED_OUT else r.status
  {
  }

  lemma HasEntries(s: Server)
    requires s.Registered(s.pfds, s.slot, s.blocked.items)
    ensures forall i :: 0 <= i < |s.blocked.items| ==> s.blocked.items[i].pollfdId < s.pfds.Length
  {
  }

  lemma TableSize(s: Server)
    requires s.Registered(s.pfds, s.slot, s.blocked.items)
    ensures s.pfds.Length == MAX_FD && |s.blocked.items| <= MAX_FD
  {
  }

  lemma AllUnseen(s: Server, v: seq<Verdict>, now: int)
    requires s.Registered(s.pfds, s.slot, s.blocked.items)
    requires forall i :: 0 <= i < |s.blocked.items| ==> s.blocked.items[i].pollfdId < s.pfds.Length
    requires v == Verdicts(s, s.blocked.items, now)
    ensures Unseen(s, s.pfds, s.blocked.items, v, now)
  {
    hide Examine, WaitsOn;
  }

  lemma Begins(s: Server, other: array<PollFd>, v: seq<Verdict>, now: int)
    requires s.blocked.Valid() && s.Registered(s.pfds, s.slot, s.blocked.items) && s.pfdLen == 0
    requires s.pfds != other && other.Length == MAX_FD
    requires forall i :: 0 <= i < |s.blocked.items| ==> s.blocked.items[i].pollfdId < s.pfds.Length
    requires v == Verdicts(s, s.blocked.items, now)
    ensures Midway(s, other, s.blocked.items, v, 0, now)
    ensures forall i, j :: 0 <= i < j < |s.blocked.items| ==> s.blocked.items[i] != s.blocked.items[j]
  {
    hide Examine, Queue.Valid, Server.Registered, Unseen, Verdicts;
    ghost var start := s.blocked.items;
    s.blocked.Distinct();
    AllUnseen(s, v, now);
    assert s.pfds.Length == MAX_FD && |start| <= MAX_FD by { TableSize(s); }
    assert start[0..] == start && v[0..] == v && [] + start == start && other[..0] == [];
  }

  lemma Ends(s: Server, other: array<PollFd>, start: seq<Request>, v: seq<Verdict>, now: int)
    requires Midway(s, other, start, v, |start|, now)
    ensures s.blocked.items == Stayers(start, v, |start|) && s.pfdLen == |s.blocked.items|
    ensures s.Registered(other, s.blocked.items, s.blocked.items)
  {
    assert s.blocked.items == Stayers(start, v, |start|);
  }

  /** update_blocked: the loop */
  method WalkBlocked(s: Server, other: array<PollFd>, ghost start: seq<Request>, ghost v: seq<Verdict>, now: int)
    requires s.Queued(null) && start == s.blocked.items && Midway(s, other, start, v, 0, now)
    modifies s.ready, s.blocked, s.all`next, s.all`prev, s.all`home, s.all`rank, s`readSet, s`writeSet
    modifies s`pfdLen, start`status, start`pollfdId, other
    ensures s.Queued(null) && |v| == |start| && Midway(s, other, start, v, |start|, now)
    ensures s.ready.items == Movers(start, v, |start|) + old(s.ready.items)
    ensures forall i :: 0 <= i < |v| ==> start[i].status == v[i].status
  {
    hide *;
    s.AreLists();
    s.blocked.First();
    Bounds(s, other, start, v, now);
    var current := s.blocked.head;
    ghost var i := 0;
    while current != null
      invariant s.Queued(null) && i <= |start| == |v| && Midway(s, other, start, v, i, now)
      invariant current == if i < |start| then start[i] else null
      invariant s.ready.items == Movers(start, v, i) + old(s.ready.items)
      invariant forall j :: 0 <= j < i ==> start[j].status == v[j].status
      decreases |start| - i
    {
      s.AreLists();
      MoversNext(start, v, i, old(s.ready.items));
      current := UpdateNext(s, other, start, v, i, current, now);
      i := i + 1;
    }
  }

  lemma Bounds(s: Server, other: array<PollFd>, start: seq<Request>, v: seq<Verdict>, now: int)
    requires Midway(s, other, start, v, 0, now)
    ensures |v| == |start| && forall i, j :: 0 <= i < j < |start| ==> start[i] != start[j]
    ensures Movers(start, v, 0) == []
  {
  }

  /**
   * update_blocked. The requests that stay blocked keep their order, and have the first entries of the other table
   * in that order; the others are on the ready queue, with the statuses that they are to be served under.
   */
  method UpdateBlocked(s: Server, other: array<PollFd>, now: int) returns (ghost v: seq<Verdict>)
    requires s.Queued(null) && s.Registered(s.pfds, s.slot, s.blocked.items) && s.pfdLen == 0
    requires s.pfds != other && other.Length == MAX_FD
    modifies s.ready, s.blocked, s.all`next, s.all`prev, s.all`home, s.all`rank, s`readSet, s`writeSet
    modifies s`pfdLen, s`slot, s.blocked.items`status, s.blocked.items`pollfdId, other
    ensures s.Queued(null) && s.Registered(other, s.slot, s.blocked.items) && s.pfdLen == |s.slot|
    ensures v == old(Verdicts(s, s.blocked.items, now))
    ensures forall i :: 0 <= i < |v| ==>
      var r := old(s.blocked.items)[i];
      var revents, age := old(s.pfds[s.blocked.items[i].pollfdId].revents), now - old(s.blocked.items[i].timeLast);
      var timeUp := age > REQUEST_TIMEOUT
                    || (old(s.blocked.items[i].kacount) < s.kaMax && age >= s.kaTimeout
                        && !old(s.blocked.items[i].logline));
      && (v[i].stays <==> revents == Quiet && !timeUp)
      && r.status == if revents == Broken then DEAD else if timeUp then TIMED_OUT else old(s.blocked.items[i].status)
    ensures s.blocked.items == Stayers(old(s.blocked.items), v, |v|)
    ensures s.ready.items == Movers(old(s.blocked.items), v, |v|) + old(s.ready.items)
    ensures forall i :: 0 <= i < |v| ==> old(s.blocked.items)[i].status == v[i].status
    ensures old(s.Counted(0)) ==> s.Counted(0)
  {
    hide *;
    ghost var start := s.blocked.items;
    s.AreLists();
    HasEntries(s);
    v := Verdicts(s, start, now);
    VerdictsMean(s, start, v, now);
    Begins(s, other, v, now);
    WalkBlocked(s, other, start, v, now);
    Ends(s, other, start, v, now);
    s.slot := s.blocked.items;
    StillCounted(s);
  }

  /** poll: any events may be returned for the first `n` entries. */
  method Poll(table: array<PollFd>, n: nat)
    requires n <= table.Length
    modifies table
    ensures forall i :: 0 <= i < table.Length ==>
              table[i].fd == old(table[i].fd) && table[i].events == old(table[i].events)
    ensures forall i :: n <= i < table.Length ==> table[i] == old(table[i])
  {
    for i := 0 to n
      invariant forall j :: 0 <= j < table.Length ==>
                  table[j].fd == old(table[j].fd) && table[j].events == old(table[j].events)
      invariant forall j :: n <= j < table.Length ==> table[j] == old(table[j])
    {
      var e: Returned := *;
      table[i] := PollFd(table[i].fd, table[i].events, e);
    }
  }

  /** The part of a round up to poll: whether the server socket is watched, and what poll says of it. */
  method Listen(s: Server, serverFd: int) returns (goesOn: bool)
    requires s.Valid() && s.usePoll
    modifies s`pending, s`pfdLen, s.pfds
    ensures goesOn ==> s.Queued(null) && s.Counted(0) && s.Registered(s.pfds, s.slot, s.blocked.items)
    ensures goesOn && s.total < s.maxConnections ==>
              var e := s.pfds[old(s.pfdLen)];
              s.pfdLen == old(s.pfdLen) + 1 && e.fd == serverFd && e.events == READ
              && s.pending == (e.revents == Happened)
    ensures goesOn && s.total >= s.maxConnections ==> s.pfdLen == old(s.pfdLen) && !s.pending
  {
    hide Server.Queued, WaitsOn;
    var watchServer := s.total < s.maxConnections;
    var serverPfd := 0;
    if watchServer {
      serverPfd := s.pfdLen;
      s.pfdLen := s.pfdLen + 1;
      s.pfds[serverPfd] := PollFd(serverFd, READ, s.pfds[serverPfd].revents);
    }
    s.pending := false;
    if s.pfdLen != 0 {
      Poll(s.pfds, s.pfdLen);
      if watchServer {
        match s.pfds[serverPfd].revents {
          case Broken => return false;
          case Happened => s.pending := true;
          case Quiet =>
        }
      }
    }
    return true;
  }

  /** The part of a round between poll and process_requests. */
  method Refresh(s: Server, other: array<PollFd>, now: int)
    requires s.Queued(null) && s.Counted(0) && s.Registered(s.pfds, s.slot, s.blocked.items) && s.usePoll
    requires s.pfds != other && other.Length == MAX_FD
    modifies s.ready, s.blocked, s.all`next, s.all`prev, s.all`home, s.all`rank, s`readSet, s`writeSet
    modifies s`pfdLen, s`slot, s`pfds, s.blocked.items`status, s.blocked.items`pollfdId, other
    ensures s.Valid() && s.pfds == other && EndsWith(s.ready.items, old(s.ready.items))
  {
    hide *;
    ghost var was := s.ready.items;
    EndsSame(was);
    s.AreLists();
    s.blocked.First();
    s.pfdLen := 0;
    if s.blocked.head != null {
      ghost var blocked := s.blocked.items;
      ghost var v := UpdateBlocked(s, other, now);
      EndsAppended(Movers(blocked, v, |v|), was, was);
    } else {
      NoneRegistered(s, other);
      s.slot := [];
    }
    Swap(s, other);
  }

  /** The other table is the one in use from now on. */
  method Swap(s: Server, other: array<PollFd>)
    requires s.Queued(null) && s.Counted(0) && s.usePoll
    requires s.pfdLen == |s.slot| && s.Registered(other, s.slot, s.blocked.items)
    modifies s`pfds
    ensures s.Valid() && s.pfds == other
  {
    hide Server.Queued, Server.Registered;
    s.pfds := other;
  }

  lemma NoneRegistered(s: Server, table: array<PollFd>)
    requires table.Length == MAX_FD
    ensures s.Registered(table, [], [])
  {
  }

  /** One round of the loop. The server gives up when poll reports an error on its own socket. */
  method Round(s: Server, other: array<PollFd>, serverFd: int) returns (goesOn: bool)
    requires s.Valid() && s.usePoll && other != s.pfds && other.Length == MAX_FD
    modifies s, s.ready, s.blocked, s.free, s.all, s.pfds, other
    ensures goesOn ==> s.Valid() && s.pfds == other
    ensures goesOn ==> old(s.log) <= s.log && EndsWith(s.log[|old(s.log)|..], old(s.ready.items))
    ensures old(s.all) <= s.all && fresh(s.all - old(s.all))
  {
    hide Server.Queued, Server.Registered;
    goesOn := Listen(s, serverFd);
    if !goesOn {
      return;
    }
    var now := *;
    assert s.Queued(null);
    s.InQueues();
    Refresh(s, other, now);
    ghost var ready := s.ready.items;
    ServeReady(s);
    EndsTwice(s.log[|old(s.log)|..], ready, old(s.ready.items));
  }

  /** loop: at the top of every round, however many there have been, the invariant holds. */
  method Loop(s: Server, serverFd: int, rounds: nat) returns (goesOn: bool)
    requires s.Valid() && s.usePoll
    modifies s, s.ready, s.blocked, s.free, s.all, s.pfds
    ensures goesOn ==> s.Valid()
  {
    hide Server.Queued, WaitsOn;
    var other := new PollFd[MAX_FD](_ => PollFd(0, READ, Quiet));
    for n := 0 to rounds
      invariant s.Valid() && other != s.pfds && other.Length == MAX_FD
      invariant s.pfds == old(s.pfds) || fresh(s.pfds)
      invariant other == old(s.pfds) || fresh(other)
      invariant old(s.all) <= s.all && fresh(s.all - old(s.all))
    {
      var table := s.pfds;
      goesOn := Round(s, other, serverFd);
      if !goesOn {
        return;
      }
      other := table;
    }
    return true;
  }
}
