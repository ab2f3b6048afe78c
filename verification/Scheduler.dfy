/** The request scheduler: src/request.c, src/queue.c and the counters they keep. */
module Scheduler {
  import opened CStrings
  import opened RequestStatus
  import opened Queues

  const FD_SETSIZE := 1024
  const MAX_FD := FD_SETSIZE

  datatype Direction = READ | WRITING

  /** Returned events: none, some that were asked for, or POLLNVAL or POLLERR. */
  datatype Returned = Quiet | Happened | Broken

  datatype PollFd = PollFd(fd: int, events: Direction, revents: Returned)

  /** The descriptor a request is blocked on, and for what. */
  datatype Wait = Wait(fd: int, events: Direction)

  /** What accept and the set-up of the new connection come to. */
  datatype Accepted = NoConnection | Refused | Connection(fd: int, memory: bool, setUp: bool)

  /** A call of a handler: its request, its result, and whether it has left bytes in the buffer that can be sent. */
  datatype Call = Call(req: Request, result: int, left: bool)

  /** What becomes of a request that free_request is given. */
  datatype Fate = Unsent | KeptAlive | Released

  class Server {
    const ready: Queue
    const blocked: Queue
    const free: Queue
    const maxConnections: nat
    const kaMax: nat
    const kaTimeout: nat
    /** HAVE_SENDFILE, HAVE_POLL */
    const haveSendfile: bool
    const usePoll: bool
    var total: nat
    var pending: bool
    /** The poll table in use; select's sets. */
    var pfds: array<PollFd>
    var pfdLen: nat
    var readSet: set<int>
    var writeSet: set<int>
    var maxFd: int
    /** Every request ever allocated, and the owner of each entry of the poll table. */
    ghost var all: set<Request>
    ghost var slot: seq<Request>
    /** The requests in the order in which they were served. */
    ghost var log: seq<Request>
    /** The calls of handlers, in the order in which they were made. */
    ghost var calls: seq<Call>

    // ----- the invariant

    ghost predicate Apart() {
      ready.home == OnReady && blocked.home == OnBlocked && free.home == OnFree
    }

    /** The queue holds exactly the requests that say they are on it. */
    ghost predicate Covers(q: Queue)
      reads this`all, all`home, q`items
    {
      && (forall i {:trigger q.items[i]} :: 0 <= i < |q.items| ==> q.items[i] in all)
      && (forall r :: r in all && r.home == q.home ==> r in q.items)
    }

    /** Three disjoint doubly linked lists hold every request allocated, but the one in hand. */
    ghost predicate Queued(inHand: Request?)
      reads this`all, ready, blocked, free, all`home, all`rank, all`next, all`prev
    {
      && Apart()
      && Covers(ready) && Covers(blocked) && Covers(free)
      && ready.Valid() && blocked.Valid() && free.Valid()
      && (forall r :: r in all ==> (r.home == Nowhere <==> r == inHand))
      && (inHand != null ==> inHand in all)
    }

    ghost predicate Counted(inHand: nat)
      reads this`total, this`pending, ready`items, blocked`items
    {
      && total == |ready.items| + |blocked.items| + inHand
      && total <= maxConnections + 1 <= FD_SETSIZE - 19
      && (pending ==> total <= maxConnections)
    }

    /** pollfd_id is a bijection from these requests to the entries, which name what each of them waits on. */
    ghost predicate Registered(table: array<PollFd>, slot: seq<Request>, waiting: seq<Request>)
      reads table, waiting`pollfdId
      reads slot`pollfdId, slot`status, slot`fd, slot`dataFd, slot`postDataFd, slot`bufferStart, slot`bufferEnd
    {
      && table.Length == MAX_FD
      && |slot| == |waiting| <= MAX_FD
      && (forall r :: r in waiting ==> r.pollfdId < |slot| && slot[r.pollfdId] == r)
      && (forall i {:trigger slot[i]} :: 0 <= i < |slot| ==>
            slot[i] in waiting && slot[i].pollfdId == i
            && Wait(table[i].fd, table[i].events) == WaitsOn(slot[i], haveSendfile))
    }

    ghost predicate Watched(waiting: seq<Request>)
      reads this`pfds, this`pfdLen, this`slot, pfds, waiting`pollfdId
      reads slot`pollfdId, slot`status, slot`fd, slot`dataFd, slot`postDataFd, slot`bufferStart, slot`bufferEnd
    {
      if usePoll then pfdLen == |slot| && Registered(pfds, slot, waiting) else slot == []
    }

    ghost predicate Valid()
      reads this, ready, blocked, free, all, pfds, blocked.items, slot
    {
      Queued(null) && Counted(0) && Watched(blocked.items)
    }

    lemma InQueues()
      requires exists r :: Queued(r)
      ensures forall i :: 0 <= i < |ready.items| ==> ready.items[i] in all && ready.items[i].home == OnReady
      ensures forall i :: 0 <= i < |blocked.items| ==> blocked.items[i] in all && blocked.items[i].home == OnBlocked
      ensures forall i :: 0 <= i < |free.items| ==> free.items[i] in all && free.items[i].home == OnFree
      ensures Apart()
    {
    }

    lemma Known()
      requires Valid()
      ensures forall i :: 0 <= i < |ready.items| ==> ready.items[i] in all
      ensures forall i :: 0 <= i < |blocked.items| ==> blocked.items[i] in all
      ensures forall i :: 0 <= i < |free.items| ==> free.items[i] in all
      ensures ready != blocked && ready != free && blocked != free
    {
    }

    lemma Together()
      requires Queued(null) && Counted(0) && Watched(blocked.items)
      ensures Valid()
    {
    }

    lemma Bounds(inHand: nat)
      requires Counted(inHand)
      ensures total == |ready.items| + |blocked.items| + inHand && total <= maxConnections + 1 < MAX_FD
      ensures pending ==> total <= maxConnections
      ensures maxConnections + 1 <= FD_SETSIZE - 19
    {
    }

    lemma FromBounds(inHand: nat)
      requires total == |ready.items| + |blocked.items| + inHand && total <= maxConnections + 1 <= FD_SETSIZE - 19
      requires pending ==> total <= maxConnections
      ensures Counted(inHand)
    {
    }

    lemma AreLists()
      requires Queued(null)
      ensures ready.Valid() && blocked.Valid() && free.Valid()
    {
    }

    lemma ReadyIsList()
      requires Valid()
      ensures ready.Valid()
    {
    }

    /** A request that is not blocked has no entry in the poll table. */
    lemma NotWatched()
      requires Queued(null) && Watched(blocked.items)
      ensures forall r :: r in slot || r in blocked.items ==> r in all && r !in free.items && r !in ready.items
    {
      hide Linked, Tagged;
      blocked.Elsewhere(ready);
      blocked.Elsewhere(free);
    }

    lemma ReadyNotWatched(k: nat)
      requires Valid() && k < |ready.items|
      ensures Queued(null) && Counted(0) && Watched(blocked.items)
      ensures ready.items[k] !in slot && ready.items[k] !in blocked.items
    {
      hide Queued, Watched, Linked, Tagged;
      NotWatched();
    }

    /** Every request allocated is on exactly one of the queues. */
    lemma QueuesPartition()
      requires Valid()
      ensures forall r :: r in ready.items ==> r !in blocked.items && r !in free.items
      ensures forall r :: r in blocked.items ==> r !in free.items
      ensures forall r :: r in all <==> r in ready.items || r in blocked.items || r in free.items
    {
      hide Linked, Tagged;
      ready.Elsewhere(blocked);
      ready.Elsewhere(free);
      blocked.Elsewhere(free);
      forall r | r in all ensures r in ready.items || r in blocked.items || r in free.items {
        assert r.home != Nowhere;
      }
    }

    lemma ReadyNotFree(k: nat)
      requires Valid() && k < |ready.items|
      ensures ready.items[k] !in free.items
    {
      QueuesPartition();
    }

    ghost predicate Owned(entry: int)
      reads blocked, blocked.items`pollfdId
    {
      exists i :: 0 <= i < |blocked.items| && blocked.items[i].pollfdId == entry
    }

    /** No two blocked requests have the same entry, no entry is without one, and all are in the table. */
    lemma OneEntryEach()
      requires Valid() && usePoll
      ensures pfdLen == |blocked.items| < MAX_FD == pfds.Length
      ensures forall i, j :: 0 <= i < j < |blocked.items| ==> blocked.items[i].pollfdId != blocked.items[j].pollfdId
      ensures forall e :: 0 <= e < pfdLen ==> Owned(e)
      ensures forall i :: 0 <= i < |blocked.items| ==>
                var r := blocked.items[i];
                r.pollfdId < pfdLen && var e := pfds[r.pollfdId]; Wait(e.fd, e.events) == WaitsOn(r, haveSendfile)
    {
      hide Linked, Tagged, WaitsOn;
      blocked.Distinct();
      forall e | 0 <= e < pfdLen ensures Owned(e) {
        assert slot[e] in blocked.items && slot[e].pollfdId == e;
        var i :| 0 <= i < |blocked.items| && blocked.items[i] == slot[e];
      }
    }

    /** No request has been made, and nothing is watched. */
    constructor (maxConnections: nat, kaMax: nat, kaTimeout: nat, haveSendfile: bool, usePoll: bool)
      requires maxConnections <= FD_SETSIZE - 20
      ensures Valid() && all == {} && total == 0
      ensures this.maxConnections == maxConnections && this.kaMax == kaMax && this.usePoll == usePoll
      ensures this.haveSendfile == haveSendfile && slot == [] && !pending
      ensures ready.items == blocked.items == free.items == []
      ensures fresh(ready) && fresh(blocked) && fresh(free) && fresh(pfds) && ready != blocked
    {
      ready := new Queue(OnReady);
      blocked := new Queue(OnBlocked);
      free := new Queue(OnFree);
      this.maxConnections, this.kaMax, this.kaTimeout := maxConnections, kaMax, kaTimeout;
      this.haveSendfile, this.usePoll := haveSendfile, usePoll;
      total, pending := 0, false;
      pfds := new PollFd[MAX_FD](_ => PollFd(0, READ, Quiet));
      pfdLen, readSet, writeSet, maxFd := 0, {}, {}, -1;
      all, slot, log, calls := {}, [], [], [];
    }

    /** dequeue, from one of the three queues */
    method TakeOff(q: Queue, req: Request, ghost k: nat)
      requires Queued(null) && q in {ready, blocked, free}
      requires k < |q.items| && q.items[k] == req
      modifies q`head, q`items, q`base, q.items`next, q.items`prev, q.items`rank, req`home
      ensures Queued(req) && req.home == Nowhere && q.items == Removed(old(q.items), k)
    {
      hide Removed, Queue.Valid;
      q.Distinct();
      RemovedMembers(q.items, k);
      q.Elsewhere(ready);
      q.Elsewhere(blocked);
      q.Elsewhere(free);
      q.Dequeue(req, k);
    }

    /** enqueue, on one of the three queues */
    method PutOn(q: Queue, req: Request)
      requires Queued(req) && q in {ready, blocked, free}
      modifies q`head, q`items, q`base, q.items`prev, req`next, req`prev, req`home, req`rank
      ensures Queued(null) && q.items == [req] + old(q.items) && req.home == q.home
    {
      hide Queue.Valid;
      q.Elsewhere(ready);
      q.Elsewhere(blocked);
      q.Elsewhere(free);
      ready.Distinct();
      blocked.Distinct();
      free.Distinct();
      q.Enqueue(req);
    }

    // ----- descriptors

    /** BOA_FD_SET */
    method Watch(req: Request, w: Wait, ghost waiting: seq<Request>)
      requires Watched(waiting) && req !in waiting && |waiting| < MAX_FD && w == WaitsOn(req, haveSendfile)
      modifies `pfdLen, `slot, `readSet, `writeSet, `maxFd, pfds, req`pollfdId
      ensures Watched([req] + waiting) && slot == old(slot) + (if usePoll then [req] else [])
      ensures !usePoll ==>
                req.pollfdId == old(req.pollfdId) && maxFd == (if w.fd > old(maxFd) then w.fd else old(maxFd))
      ensures !usePoll ==> readSet == old(readSet) + (if w.events == READ then {w.fd} else {})
      ensures !usePoll ==> writeSet == old(writeSet) + (if w.events == READ then {} else {w.fd})
    {
      if usePoll {
        assert forall i :: 0 <= i < |slot| ==> slot[i] != req;
        pfds[pfdLen] := PollFd(w.fd, w.events, pfds[pfdLen].revents);
        req.pollfdId := pfdLen;
        pfdLen := pfdLen + 1;
        slot := slot + [req];
      } else {
        if w.events == READ {
          readSet := readSet + {w.fd};
        } else {
          writeSet := writeSet + {w.fd};
        }
        maxFd := if w.fd > maxFd then w.fd else maxFd;
      }
    }

    /** BOA_FD_CLR: nothing to do for poll */
    method Unwatch(w: Wait)
      modifies `readSet, `writeSet
      ensures readSet == old(readSet) - (if !usePoll && w.events == READ then {w.fd} else {})
      ensures writeSet == old(writeSet) - (if usePoll || w.events == READ then {} else {w.fd})
    {
      if !usePoll {
        if w.events == READ {
          readSet := readSet - {w.fd};
        } else {
          writeSet := writeSet - {w.fd};
        }
      }
    }

    // ----- moves between the queues

    /** block_request */
    method BlockRequest(req: Request, ghost k: nat)
      requires Valid() && k < |ready.items| && ready.items[k] == req
      modifies ready, blocked, all`next, all`prev, all`home, all`rank
      modifies `pfdLen, `slot, `readSet, `writeSet, `maxFd, pfds, req`pollfdId
      ensures Valid() && slot == old(slot) + (if usePoll then [req] else [])
      ensures ready.items == Removed(old(ready.items), k) && blocked.items == [req] + old(blocked.items)
      ensures var w := old(WaitsOn(req, haveSendfile));
        && (!usePoll ==> readSet == old(readSet) + if w.events == READ then {w.fd} else {})
        && (!usePoll ==> writeSet == old(writeSet) + if w.events == READ then {} else {w.fd})
    {
      hide *;
      ReadyNotWatched(k);
      Bounds(0);
      InQueues();
      TakeOff(ready, req, k);
      InQueues();
      PutOn(blocked, req);
      Watch(req, WaitsOn(req, haveSendfile), old(blocked.items));
      FromBounds(0);
      Together();
    }

    /** ready_request */
    method ReadyRequest(req: Request, ghost k: nat)
      requires Queued(null) && k < |blocked.items| && blocked.items[k] == req
      modifies ready, blocked, all`next, all`prev, all`home, all`rank, `readSet, `writeSet
      ensures Queued(null)
      ensures var w := WaitsOn(req, haveSendfile);
        && readSet == old(readSet) - (if !usePoll && w.events == READ then {w.fd} else {})
        && writeSet == old(writeSet) - (if usePoll || w.events == READ then {} else {w.fd})
      ensures blocked.items == Removed(old(blocked.items), k) && ready.items == [req] + old(ready.items)
    {
      hide Removed, Queued, Queue.Valid;
      InQueues();
      TakeOff(blocked, req, k);
      InQueues();
      PutOn(ready, req);
      Unwatch(WaitsOn(req, haveSendfile));
    }

    // ----- new requests

    /** sanitize_request: what it does to these fields */
    method Sanitize(req: Request, isNew: bool, now: int)
      modifies req`status, req`keepalive, req`responseStatus, req`pollfdId, req`dataFd, req`postDataFd, req`logline
      modifies req`bufferStart, req`bufferEnd, req`kacount, req`timeLast
      ensures req.Cleared() && req.status == READ_HEADER
      ensures req.kacount == if isNew then kaMax else old(req.kacount)
      ensures req.timeLast == if isNew then now else old(req.timeLast)
    {
      if isNew {
        req.kacount, req.timeLast := kaMax, now;
      }
      req.status, req.keepalive, req.responseStatus, req.pollfdId := READ_HEADER, KA_INACTIVE, 0, 0;
      req.dataFd, req.postDataFd, req.logline := 0, 0, false;
      req.bufferStart, req.bufferEnd := 0, 0;
    }

    /** new_request */
    method NewRequest(memory: bool, now: int) returns (r: Request?)
      requires Queued(null)
      modifies `all, free, free.items
      ensures Queued(r) && (r == null <==> old(free.items) == [] && !memory)
      ensures old(free.items) != [] ==> r == old(free.items)[0] && all == old(all) && free.items == old(free.items)[1..]
      ensures old(free.items) == [] ==> all == old(all) + (if r == null then {} else {r}) && free.items == []
      ensures old(free.items) == [] && r != null ==> fresh(r)
      ensures r != null ==> r.Cleared() && r.status == READ_HEADER && r.kacount == kaMax && r.timeLast == now
    {
      hide Removed, Linked, Tagged;
      free.First();
      InQueues();
      if free.head != null {
        r := free.head;
        TakeOff(free, r, 0);
        assert Removed(old(free.items), 0) == old(free.items)[1..];
      } else {
        if !memory {
          return null;
        }
        r := new Request();
        all := all + {r};
      }
      Sanitize(r, true, now);
    }

    /** get_request */
    method GetRequest(a: Accepted, now: int) returns (conn: Request?)
      requires Valid() && pending
      modifies `all, `total, `pending, ready, free, all`next, all`prev, all`home, all`rank, free.items
      ensures Valid()
      ensures conn != null <==>
                a.Connection? && a.fd < FD_SETSIZE && a.setUp && (old(free.items) != [] || a.memory)
      ensures conn == null ==> ready.items == old(ready.items) && pending == (a != NoConnection)
      ensures conn == null && old(free.items) != [] ==> free.items == old(free.items) && all == old(all)
      ensures conn != null ==> ready.items == [conn] + old(ready.items) && conn.fd == a.fd && conn.kacount == kaMax
      ensures conn != null ==> pending == (total <= maxConnections) && conn.timeLast == now
      ensures conn != null && total <= maxConnections ==> conn.status == READ_HEADER && conn.Reset()
      ensures conn != null && total > maxConnections ==>
                conn.status == DONE && conn.keepalive == KA_STOPPED && conn.responseStatus == 503
      ensures total == old(total) + if conn == null then 0 else 1
      ensures conn != null && old(free.items) != [] ==> conn == old(free.items)[0] && free.items == old(free.items)[1..]
      ensures conn != null && old(free.items) == [] ==> fresh(conn) && free.items == []
      ensures old(all) <= all && fresh(all - old(all))
    {
      hide Queued, Watched, Queue.Valid, Removed;
      conn := null;
      if a == NoConnection {
        pending := false;
        return;
      }
      if a.Refused? || a.fd >= FD_SETSIZE {
        return;
      }
      InQueues();
      NotWatched();
      var r := NewRequest(a.memory, now);
      if r != null {
        conn := SetUp(r, a.fd, a.setUp);
      }
    }

    /** get_request, once it has a struct */
    method SetUp(r: Request, fd: int, works: bool) returns (conn: Request?)
      requires Queued(r) && Counted(0) && Watched(blocked.items) && pending && r !in slot && r !in blocked.items
      requires r.kacount == kaMax && r.status == READ_HEADER && r.Reset()
      modifies `total, `pending, ready, free, all`next, all`prev, all`home, all`rank, r
      ensures Valid()
      ensures conn == if works then r else null
      ensures conn == null ==> ready.items == old(ready.items) && pending && free.items == [r] + old(free.items)
      ensures conn != null ==> ready.items == [conn] + old(ready.items) && free.items == old(free.items)
      ensures conn != null ==> conn.fd == fd && conn.kacount == kaMax && pending == (total <= maxConnections)
      ensures conn != null ==> conn.timeLast == old(r.timeLast)
      ensures conn != null && total <= maxConnections ==> conn.status == READ_HEADER && conn.Reset()
      ensures conn != null && total > maxConnections ==>
                conn.status == DONE && conn.keepalive == KA_STOPPED && conn.responseStatus == 503
      ensures total == old(total) + if conn == null then 0 else 1
    {
      hide Queued, Watched, Queue.Valid, Counted;
      InQueues();
      r.fd := fd;
      if !works {
        PutOn(free, r);
        return null;
      }
      Admit(r);
      return r;
    }

    /** get_request: one connection more. */
    method Admit(r: Request)
      requires Queued(r) && Counted(0) && Watched(blocked.items) && pending && r !in slot && r !in blocked.items
      requires r.status == READ_HEADER && r.Reset()
      modifies `total, `pending, ready, all`next, all`prev, all`home, all`rank, r
      ensures Valid() && ready.items == [r] + old(ready.items)
      ensures r.fd == old(r.fd) && r.kacount == old(r.kacount) && pending == (total <= maxConnections)
      ensures total <= maxConnections ==> r.status == READ_HEADER && r.Reset()
      ensures total > maxConnections ==> r.status == DONE && r.keepalive == KA_STOPPED && r.responseStatus == 503
      ensures total == old(total) + 1 && r.timeLast == old(r.timeLast)
    {
      hide *;
      InQueues();
      Bounds(0);
      total := total + 1;
      if total > maxConnections {
        TurnAway(r);
      }
      PutOn(ready, r);
      FromBounds(0);
      Together();
    }

    /** send_r_service_unavailable. What the response leaves in the buffer is an oracle's. */
    method TurnAway(r: Request)
      modifies `pending, r`keepalive, r`responseStatus, r`bufferStart, r`bufferEnd, r`status
      ensures !pending && r.status == DONE && r.keepalive == KA_STOPPED && r.responseStatus == 503
    {
      pending := false;
      r.keepalive, r.responseStatus := KA_STOPPED, 503;
      r.bufferStart, r.bufferEnd := *, *;
      r.status := DONE;
    }

    // ----- the end of a request

    /** free_request */
    method FreeRequest(req: Request, w: IoResult, now: int, ghost k: nat) returns (fate: Fate)
      requires Valid() && k < |ready.items| && ready.items[k] == req
      modifies `total, ready, blocked, free, all`next, all`prev, all`home, all`rank
      modifies req, `pfdLen, `slot, `readSet, `writeSet, `maxFd, pfds
      ensures Valid()
      ensures fate == Unsent <==> old(Sends(req)) && w.Moved? && w.count != old(req.bufferEnd - req.bufferStart)
      ensures fate == KeptAlive <==>
                && fate != Unsent && !(old(Sends(req)) && w == Failed) && !old(Over(req.status))
                && old(req.keepalive) == KA_ACTIVE && 0 < old(req.responseStatus) < 500 && old(req.kacount) > 0
      ensures fate == Unsent ==> req.status == DONE && ready.items == old(ready.items)
      ensures fate != Unsent ==> ready.items == Removed(old(ready.items), k)
      ensures fate == KeptAlive ==>
                req.status == READ_HEADER && req.Reset() && req.kacount == old(req.kacount) - 1
      ensures req.fd == old(req.fd) && req.timeLast == old(req.timeLast)
      ensures fate != Unsent && !usePoll ==> req.fd !in writeSet && (req.fd in readSet <==> fate == KeptAlive)
      ensures fate == Released ==>
                req.responseStatus ==
                  if old(req.status) == TIMED_OUT && old(req.responseStatus) == 0 then 408 else old(req.responseStatus)
      ensures blocked.items == (if fate == KeptAlive then [req] else []) + old(blocked.items)
      ensures free.items == (if fate == Released then [req] else []) + old(free.items)
      ensures total == old(total) - if fate == Released then 1 else 0
    {
      hide Queued, Watched, Queue.Valid, Removed;
      InQueues();
      NotWatched();
      if req.bufferEnd != 0 && !Over(req.status) {
        req.status := DONE;
        var i := Flush(req, w);
        if i == -2 {
          req.status := DEAD;
        } else if i > 0 {
          return Unsent;
        }
      }
      fate := Retire(req, now, k);
    }

    /** free_request, with nothing left to send: off the ready queue, and on to one of the others. */
    method Retire(req: Request, now: int, ghost k: nat) returns (fate: Fate)
      requires Valid() && k < |ready.items| && ready.items[k] == req
      modifies `total, ready, blocked, free, all`next, all`prev, all`home, all`rank
      modifies req, `pfdLen, `slot, `readSet, `writeSet, `maxFd, pfds
      ensures Valid() && fate != Unsent
      ensures fate == KeptAlive <==>
                && !old(Over(req.status)) && old(req.keepalive) == KA_ACTIVE
                && 0 < old(req.responseStatus) < 500 && old(req.kacount) > 0
      ensures ready.items == Removed(old(ready.items), k)
      ensures fate == KeptAlive ==>
                req.status == READ_HEADER && req.Reset() && req.kacount == old(req.kacount) - 1
      ensures req.fd == old(req.fd) && req.timeLast == old(req.timeLast)
      ensures fate != Unsent && !usePoll ==> req.fd !in writeSet && (req.fd in readSet <==> fate == KeptAlive)
      ensures fate == Released ==>
                req.responseStatus ==
                  if old(req.status) == TIMED_OUT && old(req.responseStatus) == 0 then 408 else old(req.responseStatus)
      ensures blocked.items == (if fate == KeptAlive then [req] else []) + old(blocked.items)
      ensures free.items == (if fate == Released then [req] else []) + old(free.items)
      ensures total == old(total) - if fate == Released then 1 else 0
    {
      hide *;
      ReadyNotWatched(k);
      Bounds(0);
      InQueues();
      TimedOutIsOver();
      TakeOff(ready, req, k);
      InQueues();
      CloseFiles(req);
      FromBounds(1);
      if !Over(req.status) && req.keepalive == KA_ACTIVE && req.responseStatus < 500 && req.responseStatus != 0
         && req.kacount > 0 {
        Renew(req, now);
        return KeptAlive;
      }
      Release(req);
      return Released;
    }

    /** free_request: the status that is logged for a time-out; then data_fd and post_data_fd. */
    method CloseFiles(req: Request)
      modifies req`responseStatus, `readSet, `writeSet
      ensures req.responseStatus ==
                if req.status == TIMED_OUT && old(req.responseStatus) == 0 then 408 else old(req.responseStatus)
      ensures readSet == old(readSet) - (if !usePoll && req.dataFd != 0 then {req.dataFd} else {})
      ensures writeSet == old(writeSet) - (if !usePoll && req.postDataFd != 0 then {req.postDataFd} else {})
    {
      if req.status == TIMED_OUT && req.responseStatus == 0 {
        req.responseStatus := 408;
      }
      if req.dataFd != 0 {
        Unwatch(Wait(req.dataFd, READ));
      }
      if req.postDataFd != 0 {
        Unwatch(Wait(req.postDataFd, WRITING));
      }
    }

    /** free_request: one keep-alive request less. */
    method Restart(req: Request, now: int)
      requires req.kacount > 0
      modifies req`status, req`keepalive, req`responseStatus, req`pollfdId, req`dataFd, req`postDataFd, req`logline
      modifies req`bufferStart, req`bufferEnd, req`kacount, req`timeLast
      ensures req.timeLast == old(req.timeLast)
      ensures req.status == READ_HEADER && req.Reset() && req.kacount == old(req.kacount) - 1
      ensures WaitsOn(req, haveSendfile) == Wait(req.fd, READ)
    {
      Sanitize(req, false, now);
      req.kacount := req.kacount - 1;
    }

    method WatchForNext(req: Request, ghost waiting: seq<Request>)
      requires Watched(waiting) && req !in waiting && |waiting| < MAX_FD
      requires WaitsOn(req, haveSendfile) == Wait(req.fd, READ)
      modifies `pfdLen, `slot, `readSet, `writeSet, `maxFd, pfds, req`pollfdId
      ensures Watched([req] + waiting)
      ensures !usePoll ==> req.fd in readSet && req.fd !in writeSet
    {
      hide Watched, WaitsOn;
      Watch(req, Wait(req.fd, READ), waiting);
      Unwatch(Wait(req.fd, WRITING));
    }

    /** free_request: the connection waits for the next request on it. */
    method Renew(req: Request, now: int)
      requires Queued(req) && Watched(blocked.items) && req !in slot && req !in blocked.items && req.kacount > 0
      requires Counted(1)
      modifies blocked, all`next, all`prev, all`home, all`rank, req, `pfdLen, `slot, `readSet, `writeSet, `maxFd, pfds
      ensures Valid() && blocked.items == [req] + old(blocked.items)
      ensures req.fd == old(req.fd) && req.timeLast == old(req.timeLast)
      ensures !usePoll ==> req.fd in readSet && req.fd !in writeSet
      ensures req.status == READ_HEADER && req.Reset() && req.kacount == old(req.kacount) - 1
    {
      hide *;
      InQueues();
      Bounds(1);
      Restart(req, now);
      PutOn(blocked, req);
      WatchForNext(req, old(blocked.items));
      FromBounds(0);
      Together();
    }

    /** free_request: the connection is closed. */
    method Release(req: Request)
      requires Queued(req) && Watched(blocked.items) && req !in slot && req !in blocked.items
      requires Counted(1)
      modifies `total, free, all`next, all`prev, all`home, all`rank, `readSet, `writeSet
      modifies req`next, req`prev, req`home, req`rank
      ensures Valid() && free.items == [req] + old(free.items) && total == old(total) - 1
      ensures !usePoll ==> req.fd !in readSet && req.fd !in writeSet
    {
      hide *;
      InQueues();
      Bounds(1);
      Unwatch(Wait(req.fd, READ));
      Unwatch(Wait(req.fd, WRITING));
      total := total - 1;
      PutOn(free, req);
      FromBounds(0);
      Together();
    }

    lemma SendsMeans(req: Request)
      ensures Sends(req) <==> req.bufferEnd != 0 && req.bufferStart != req.bufferEnd && !Over(req.status)
    {
    }

    /** There is something in the buffer that may still be sent. */
    ghost predicate Sends(req: Request)
      reads req`bufferStart, req`bufferEnd, req`status
    {
      req.bufferEnd != 0 && req.bufferStart != req.bufferEnd && !Over(req.status)
    }

    /** req_flush, on the bounds of the buffer */
    method Flush(req: Request, w: IoResult) returns (r: int)
      modifies req`status, req`bufferStart, req`bufferEnd
      ensures -2 <= r && (r >= 0 ==> r == req.bufferEnd)
      ensures r == -2 <==> old(Over(req.status)) || (old(req.bufferStart != req.bufferEnd) && w == Failed)
      ensures r == -1 <==> !old(Over(req.status)) && old(req.bufferStart != req.bufferEnd) && w == Blocked
      ensures r > 0 <==> !old(Over(req.status)) && old(req.bufferEnd) != 0 && old(req.bufferStart != req.bufferEnd)
                         && w.Moved? && w.count != old(req.bufferEnd - req.bufferStart)
      ensures req.status == if r == -2 && !old(Over(req.status)) then DEAD else old(req.status)
      ensures r == -1 ==> req.bufferStart == old(req.bufferStart) && req.bufferEnd == old(req.bufferEnd)
      ensures r > 0 ==> req.bufferStart == old(req.bufferStart) + w.count && req.bufferEnd == old(req.bufferEnd)
      ensures r == 0 && old(req.bufferEnd) != 0 ==> req.bufferStart == 0
      ensures r == -2 && !old(Over(req.status)) ==> req.bufferStart == req.bufferEnd == 0
      ensures !old(Over(req.status)) && old(req.bufferStart == req.bufferEnd) ==> req.bufferStart == req.bufferEnd == 0
    {
      var bytesToWrite := req.bufferEnd - req.bufferStart;
      if Over(req.status) {
        return -2;
      }
      if bytesToWrite != 0 {
        match w {
          case Blocked =>
            return -1;
          case Failed =>
            req.bufferStart, req.bufferEnd := 0, 0;
            req.status := DEAD;
            return -2;
          case Moved(n) =>
            req.bufferStart := req.bufferStart + n;
        }
      }
      if req.bufferStart == req.bufferEnd {
        req.bufferStart, req.bufferEnd := 0, 0;
      }
      return req.bufferEnd;
    }

    // ----- a pass over the ready queue

    /** Whatever a handler may do to its request: block it (-1), finish it (0), or want another turn (1). */
    method Handle(req: Request) returns (r: int)
      modifies req`status, req`keepalive, req`responseStatus, req`bufferStart, req`bufferEnd
      modifies req`dataFd, req`postDataFd, req`logline
      ensures -1 <= r <= 1
    {
      req.status, req.keepalive, req.responseStatus := *, *, *;
      req.bufferStart, req.bufferEnd := *, *;
      req.dataFd, req.postDataFd, req.logline := *, *, *;
      var blocks, finishes := *, *;
      r := if blocks then -1 else if finishes then 0 else 1;
    }

    /** The handler of the status is called: nothing is to be flushed first, or the flush has gone on. */
    predicate Calls(req: Request, w: IoResult)
      reads req`status, req`bufferStart, req`bufferEnd
    {
      !Over(req.status) && req.status != DONE && (req.bufferEnd == 0 || req.bufferStart == req.bufferEnd || w.Moved?)
    }

    /** What a finished request wants when the flush of its last `n` bytes comes back with `w`. */
    function Flushed(w: IoResult, n: int): int {
      match w
      case Blocked => -1
      case Failed => 0
      case Moved(m) => if m == n then 0 else 1
    }

    /** process_requests: the part of a turn up to the outcome. The flushes come back with `w` and `last`. */
    method Service(req: Request, w: IoResult, last: IoResult) returns (r: int, ghost made: seq<Call>)
      modifies `log, `calls, req`status, req`keepalive, req`responseStatus, req`bufferStart, req`bufferEnd
      modifies req`dataFd, req`postDataFd, req`logline
      ensures -1 <= r <= 1 && log == old(log) + [req] && calls == old(calls) + made
      ensures made == if old(Calls(req, w)) then [Call(req, r, Sends(req))] else []
      ensures old(Over(req.status)) ==>
                r == 0 && req.status == old(req.status) && req.bufferEnd == 0 && req.keepalive == KA_STOPPED
      ensures old(req.status) == DONE ==>
                (req.status == DONE || req.status == DEAD) && (r == 0 ==> req.bufferEnd == 0)
      ensures old(req.status == DONE && req.bufferStart == req.bufferEnd) ==>
                r == 0 && req.status == DONE && req.keepalive == old(req.keepalive)
                && req.responseStatus == old(req.responseStatus)
      ensures old(!Over(req.status) && !Calls(req, w) && req.status != DONE) ==>
                if w == Failed then r == 0 && req.status == DEAD else r == -1 && req.status == old(req.status)
      ensures old(req.status == DONE && req.bufferEnd != 0 && req.bufferStart != req.bufferEnd) ==>
        var n := old(req.bufferEnd - req.bufferStart);
        var again := w.Moved? && w.count != n;
        && r == (if again then Flushed(last, n - w.count) else Flushed(w, n))
        && req.status == if w == Failed || (again && last == Failed) then DEAD else DONE
    {
      hide Sends;
      log := log + [req];
      r, made := 1, [];
      if req.bufferEnd != 0 && !Over(req.status) {
        r := Flush(req, w);
        if r == -2 {
          req.status := DEAD;
          r := 0;
        } else if r >= 0 {
          r := 1;
        }
      }
      if r == 1 {
        r, made := Dispatch(req, last);
      }
    }

    /** The switch over the status. */
    method Dispatch(req: Request, last: IoResult) returns (r: int, ghost made: seq<Call>)
      modifies `calls, req`status, req`keepalive, req`responseStatus, req`bufferStart, req`bufferEnd
      modifies req`dataFd, req`postDataFd, req`logline
      ensures -1 <= r <= 1 && calls == old(calls) + made
      ensures made == if old(!Over(req.status) && req.status != DONE) then [Call(req, r, Sends(req))] else []
      ensures old(Over(req.status)) ==>
                r == 0 && req.status == old(req.status) && req.bufferEnd == 0 && req.keepalive == KA_STOPPED
      ensures old(req.status) == DONE ==>
                && (req.status == DONE || req.status == DEAD) && (r == 0 ==> req.bufferEnd == 0)
                && req.keepalive == old(req.keepalive) && req.responseStatus == old(req.responseStatus)
                && (old(req.bufferStart == req.bufferEnd) ==> r == 0 && req.status == DONE)
                && (old(req.bufferEnd != 0 && req.bufferStart != req.bufferEnd) ==>
                      && r == Flushed(last, old(req.bufferEnd - req.bufferStart))
                      && req.status == if last == Failed then DEAD else DONE)
    {
      hide Sends;
      made := [];
      match req.status {
        case DONE =>
          r := Flush(req, last);
          if r == -2 {
            req.status := DEAD;
            r := 0;
          } else if r > 0 {
            r := 1;
          }
        case TIMED_OUT | DEAD =>
          r := 0;
          req.bufferEnd := 0;
          req.keepalive := KA_STOPPED;
        case _ =>
          r := Handle(req);
          made := [Call(req, r, Sends(req))];
          calls := calls + made;
      }
    }

    /** Serving a ready request does not touch any queue, nor the poll table. */
    method Serve(req: Request, ghost k: nat) returns (r: int, ghost made: seq<Call>)
      requires Valid() && k < |ready.items| && ready.items[k] == req
      modifies `log, `calls, req`status, req`keepalive, req`responseStatus, req`bufferStart, req`bufferEnd
      modifies req`dataFd, req`postDataFd, req`logline
      ensures Valid() && -1 <= r <= 1 && log == old(log) + [req]
      ensures calls == old(calls) + made && |made| <= 1
      ensures made != [] ==> old(!Over(req.status) && req.status != DONE) && made[0] == Call(req, r, Sends(req))
      ensures old(!Over(req.status) && req.status != DONE && req.bufferEnd == 0) ==> made != []
      ensures old(Over(req.status)) ==> r == 0 && Over(req.status)
      ensures old(req.status == DONE && req.bufferStart == req.bufferEnd) ==>
                r == 0 && req.status == DONE && req.bufferEnd == 0 && req.keepalive == old(req.keepalive)
                && req.responseStatus == old(req.responseStatus)
    {
      hide Queued, Watched;
      ReadyNotWatched(k);
      var w: IoResult, last: IoResult := *, *;
      r, made := Service(req, w, last);
    }

    /** process_requests: a connection is accepted between serving a request and settling what becomes of it. */
    method Accept() returns (ghost accepted: seq<Request>)
      requires Valid()
      modifies `all, `total, `pending, ready, free, all`next, all`prev, all`home, all`rank, free.items
      ensures Valid() && ready.items == accepted + old(ready.items)
      ensures |accepted| <= 1 && forall r :: r in accepted ==> r in old(free.items) || fresh(r)
      ensures (!old(pending) ==> accepted == []) && total == old(total) + |accepted|
      ensures old(all) <= all && fresh(all - old(all))
    {
      hide Queued, Watched, Queue.Valid;
      accepted := [];
      if pending {
        var a: Accepted := *;
        var now := *;
        var conn := GetRequest(a, now);
        if conn != null {
          accepted := [conn];
        }
      }
    }

    /** process_requests: what the outcome of a turn means for its request, when its last flush comes back with `w`. */
    method Settle(req: Request, r: int, w: IoResult, now: int, ghost k: nat) returns (ghost stays: bool)
      requires Valid() && k < |ready.items| && ready.items[k] == req && -1 <= r <= 1
      modifies `total, ready, blocked, free, all`next, all`prev, all`home, all`rank
      modifies req, `pfdLen, `slot, `readSet, `writeSet, `maxFd, pfds
      ensures Valid() && ready.items == if stays then old(ready.items) else Removed(old(ready.items), k)
      ensures r == -1 ==> !stays && blocked.items == [req] + old(blocked.items)
      ensures r == 1 ==> stays
      ensures r != 0 ==> free.items == old(free.items) && total == old(total)
      ensures r == 1 ==> blocked.items == old(blocked.items)
      ensures req.timeLast == if r == -1 then old(req.timeLast) else now
      ensures r == 0 ==>
        var left := old(req.bufferEnd != 0 && req.bufferStart != req.bufferEnd && !Over(req.status));
        var again := !old(Over(req.status)) && !(left && w == Failed) && old(req.keepalive) == KA_ACTIVE
                     && 0 < old(req.responseStatus) < 500 && old(req.kacount) > 0;
        && (stays <==> left && w.Moved? && w.count != old(req.bufferEnd - req.bufferStart))
        && (stays ==> req.status == DONE)
        && blocked.items == (if !stays && again then [req] else []) + old(blocked.items)
        && free.items == (if !stays && !again then [req] else []) + old(free.items)
        && total == old(total) - (if !stays && !again then 1 else 0)
        && (!stays && again ==> req.status == READ_HEADER && req.Reset() && req.kacount == old(req.kacount) - 1)
    {
      hide Queued, Watched, Queue.Valid, Removed;
      InQueues();
      NotWatched();
      if r == -1 {
        BlockRequest(req, k);
        return false;
      }
      req.timeLast := now;
      if r == 1 {
        return true;
      }
      var fate := FreeRequest(req, w, now, k);
      return fate == Unsent;
    }

    /** The part of a turn in front of its outcome. */
    method ServeThenAccept(req: Request, ghost k: nat)
      returns (r: int, ghost made: seq<Call>, ghost accepted: seq<Request>)
      requires Valid() && k < |ready.items| && ready.items[k] == req
      modifies `all, `total, `pending, `log, `calls, ready, free, all
      ensures Valid() && -1 <= r <= 1 && log == old(log) + [req] && ready.items == accepted + old(ready.items)
      ensures |accepted| <= 1 && forall r :: r in accepted ==> r in old(free.items) || fresh(r)
      ensures calls == old(calls) + made && |made| <= 1
      ensures made != [] ==> old(!Over(req.status) && req.status != DONE) && made[0] == Call(req, r, Sends(req))
      ensures old(!Over(req.status) && req.status != DONE && req.bufferEnd == 0) ==> made != []
      ensures old(Over(req.status)) ==> r == 0 && Over(req.status)
      ensures old(req.status == DONE && req.bufferStart == req.bufferEnd) ==>
                r == 0 && req.status == DONE && req.bufferEnd == 0 && req.keepalive == old(req.keepalive)
                && req.responseStatus == old(req.responseStatus) && req.kacount == old(req.kacount)
      ensures total == old(total) + |accepted| && blocked.items == old(blocked.items)
      ensures old(all) <= all && fresh(all - old(all))
    {
      hide *;
      Known();
      ReadyNotFree(k);
      r, made := Serve(req, k);
      accepted := Accept();
    }

    /**
     * One turn of process_requests. What was behind the request stays behind it, in its order; in front come
     * a connection accepted during the turn, and the request itself when it keeps its place.
     */
    method Turn(req: Request, ghost k: nat)
      returns (next: Request?, ghost accepted: seq<Request>, ghost made: seq<Call>, ghost stays: bool)
      requires Valid() && k < |ready.items| && ready.items[k] == req
      modifies `all, `total, `pending, `log, `calls, ready, blocked, free, all
      modifies `pfdLen, `slot, `readSet, `writeSet, `maxFd, pfds
      ensures Valid() && log == old(log) + [req]
      ensures ready.items ==
                accepted + old(ready.items)[..k] + (if stays then [req] else []) + old(ready.items)[k + 1..]
      ensures |accepted| <= 1 && forall r :: r in accepted ==> r in old(free.items) || fresh(r)
      ensures next == if k + 1 < |old(ready.items)| then old(ready.items)[k + 1] else null
      ensures calls == old(calls) + made && |made| <= 1
      ensures made != [] ==> old(!Over(req.status) && req.status != DONE) && made[0].req == req
      ensures old(!Over(req.status) && req.status != DONE && req.bufferEnd == 0) ==> made != []
      ensures made != [] && made[0].result == 1 ==> stays
      ensures made != [] && made[0].result == -1 ==> !stays && blocked.items == [req] + old(blocked.items)
      ensures made != [] && made[0].result == 0 && !made[0].left ==>
                !stays && (req in free.items || blocked.items == [req] + old(blocked.items))
      ensures old(Over(req.status)) ==> req in free.items && !stays && total == old(total) + |accepted| - 1
      ensures old(req.status == DONE && req.bufferStart == req.bufferEnd) ==>
        var again := old(req.keepalive) == KA_ACTIVE && 0 < old(req.responseStatus) < 500 && old(req.kacount) > 0;
        && !stays && blocked.items == (if again then [req] else []) + old(blocked.items)
        && (again ==> req.status == READ_HEADER) && (!again ==> req in free.items)
        && total == old(total) + |accepted| - if again then 0 else 1
      ensures old(all) <= all && fresh(all - old(all))
    {
      hide *;
      ghost var was := ready.items;
      var r;
      r, made, accepted := ServeThenAccept(req, k);
      ReadyIsList();
      Known();
      next := ready.After(req, |accepted| + k);
      var now, w: IoResult := *, *;
      DoneIsAlive();
      SendsMeans(req);
      stays := Settle(req, r, w, now, |accepted| + k);
      Spliced(accepted, was, k);
    }

    /** A turn in the middle of the walk: it only changes what is behind the walk. */
    method TurnOf(current: Request, ghost front: seq<Request>, ghost start: seq<Request>, ghost i: nat)
      returns (next: Request?, ghost behind: seq<Request>)
      requires Valid() && i < |start| && ready.items == front + start[i..] && current == start[i]
      modifies `all, `total, `pending, `log, `calls, ready, blocked, free, all
      modifies `pfdLen, `slot, `readSet, `writeSet, `maxFd, pfds
      ensures Valid() && log == old(log) + [current] && ready.items == behind + start[i + 1..]
      ensures old(calls) <= calls && |calls| <= |old(calls)| + 1
      ensures next == if i + 1 < |start| then start[i + 1] else null
      ensures old(all) <= all && fresh(all - old(all))
    {
      hide *;
      OneFurther(front, start, i);
      ghost var accepted, made, stays;
      next, accepted, made, stays := Turn(current, |front|);
      behind := accepted + front + if stays then [current] else [];
    }

    /** process_requests: the walk from the head of the ready queue. */
    method Walk()
      requires Valid()
      modifies `all, `total, `pending, `log, `calls, ready, blocked, free, all
      modifies `pfdLen, `slot, `readSet, `writeSet, `maxFd, pfds
      ensures Valid() && log == old(log) + old(ready.items)
      ensures old(calls) <= calls && |calls| <= |old(calls)| + |old(ready.items)|
      ensures old(all) <= all && fresh(all - old(all))
    {
      hide *;
      ReadyIsList();
      ready.First();
      ghost var start := ready.items;
      ghost var behind: seq<Request> := [];
      var current := ready.head;
      ghost var i := 0;
      assert behind + start[0..] == start;
      while current != null
        invariant Valid() && i <= |start|
        invariant log == old(log) + start[..i] && ready.items == behind + start[i..]
        invariant old(calls) <= calls && |calls| <= |old(calls)| + i
        invariant current == if i < |start| then start[i] else null
        invariant old(all) <= all && fresh(all - old(all))
        decreases |start| - i
      {
        OneFurther(behind, start, i);
        assert old(log) + start[..i] + [current] == old(log) + start[..i + 1];
        current, behind := TurnOf(current, behind, start, i);
        i := i + 1;
      }
    }

    /**
     * process_requests. The requests that are ready when the walk begins are each served once, in order,
     * and no other is, although requests leave the ready queue and come onto it during the walk.
     */
    method ProcessRequests() returns (ghost first: seq<Request>, ghost start: seq<Request>)
      requires Valid()
      modifies `all, `total, `pending, `log, `calls, ready, blocked, free, all
      modifies `pfdLen, `slot, `readSet, `writeSet, `maxFd, pfds
      ensures Valid() && start == first + old(ready.items) && log == old(log) + start
      ensures old(calls) <= calls && |calls| <= |old(calls)| + |start|
      ensures |first| <= 1 && (first != [] ==> old(pending) && (first[0] in old(free.items) || fresh(first[0])))
      ensures forall i, j :: 0 <= i < j < |start| ==> start[i] != start[j]
      ensures old(all) <= all && fresh(all - old(all))
    {
      hide Queued, Watched, Queue.Valid;
      InQueues();
      first := Accept();
      AreLists();
      ready.Distinct();
      start := ready.items;
      Walk();
    }
  }

  /** process_requests, as the event loops see it: whoever is ready is served. */
  method ServeReady(s: Server)
    requires s.Valid()
    modifies s`all, s`total, s`pending, s`log, s`calls, s.ready, s.blocked, s.free, s.all
    modifies s`pfdLen, s`slot, s`readSet, s`writeSet, s`maxFd, s.pfds
    ensures s.Valid() && old(s.log) <= s.log && EndsWith(s.log[|old(s.log)|..], old(s.ready.items))
    ensures old(s.all) <= s.all && fresh(s.all - old(s.all))
  {
    hide *;
    ghost var ready := s.ready.items;
    ghost var first, start := s.ProcessRequests();
    EndsSame(ready);
    EndsAppended(first, ready, ready);
    assert s.log[|old(s.log)|..] == start;
  }

  /** The requests `t` are the last of `s`, in their order. */
  ghost predicate EndsWith(s: seq<Request>, t: seq<Request>) {
    |t| <= |s| && s[|s| - |t|..] == t
  }

  lemma EndsSame(t: seq<Request>)
    ensures EndsWith(t, t)
  {
  }

  /** Nobody was ready. */
  lemma EndsNone(s: seq<Request>, t: seq<Request>)
    requires EndsWith(s, t)
    ensures s == [] ==> t == []
    ensures EndsWith([], [])
  {
  }

  lemma EndsTwice(s: seq<Request>, t: seq<Request>, u: seq<Request>)
    requires EndsWith(s, t) && EndsWith(t, u)
    ensures EndsWith(s, u)
  {
    assert s[|s| - |u|..] == s[|s| - |t|..][|t| - |u|..];
  }

  lemma EndsAppended(a: seq<Request>, s: seq<Request>, t: seq<Request>)
    requires EndsWith(s, t)
    ensures EndsWith(a + s, t)
  {
  }

  const REQUEST_TIMEOUT := 60

  lemma TimedOutIsOver()
    ensures Over(TIMED_OUT)
  {
  }

  /** The time-outs of a blocked request: of any request, and of a kept connection on which nothing has come. */
  predicate Expired(r: Request, now: int, kaMax: nat, kaTimeout: nat)
    reads r`timeLast, r`kacount, r`logline
  {
    now - r.timeLast > REQUEST_TIMEOUT || (r.kacount < kaMax && now - r.timeLast >= kaTimeout && !r.logline)
  }

  /** What a pass over the blocked queue makes of a request: its status, and whether it stays blocked. */
  datatype Verdict = Verdict(status: Status, stays: bool)

  /** The first `n` requests' stayers, in order; and the others, in the order that leaves them on the ready queue. */
  ghost function Stayers(s: seq<Request>, v: seq<Verdict>, n: nat): (t: seq<Request>)
    requires n <= |s| && n <= |v|
    ensures |t| <= n && forall j :: 0 <= j < |t| ==> t[j] in s[..n]
  {
    if n == 0 then [] else Stayers(s, v, n - 1) + if v[n - 1].stays then [s[n - 1]] else []
  }

  ghost function Movers(s: seq<Request>, v: seq<Verdict>, n: nat): (t: seq<Request>)
    requires n <= |s| && n <= |v|
    ensures |t| + |Stayers(s, v, n)| == n
  {
    if n == 0 then [] else (if v[n - 1].stays then [] else [s[n - 1]]) + Movers(s, v, n - 1)
  }

  /** Verdicts on later requests change nothing. */
  lemma {:induction false} MoreVerdicts(s: seq<Request>, v: seq<Verdict>, w: seq<Verdict>, n: nat)
    requires n <= |s| && n <= |v|
    ensures Stayers(s, v + w, n) == Stayers(s, v, n) && Movers(s, v + w, n) == Movers(s, v, n)
  {
    if n > 0 {
      MoreVerdicts(s, v, w, n - 1);
    }
  }

  lemma StayersStep(start: seq<Request>, v: seq<Verdict>, i: nat)
    requires i < |start| && i < |v|
    ensures var kept := Stayers(start, v, i);
            && Stayers(start, v, i + 1) == kept + (if v[i].stays then [start[i]] else [])
            && (kept + start[i..])[|kept|] == start[i]
            && kept + start[i..] == kept + [start[i]] + start[i + 1..]
            && Removed(kept + start[i..], |kept|) == kept + [] + start[i + 1..]
            && forall j :: 0 <= j < |kept| ==> kept[j] in start[..i]
  {
  }

  /** The requests of a queue are different. */
  ghost predicate AllDiffer(s: seq<Request>) {
    forall a, b :: 0 <= a < b < |s| ==> s[a] != s[b]
  }

  lemma Others(start: seq<Request>, i: nat, kept: seq<Request>)
    requires i < |start| && AllDiffer(start)
    requires forall j :: 0 <= j < |kept| ==> kept[j] in start[..i]
    ensures start[i] !in kept && start[i] !in start[i + 1..]
  {
  }

  lemma StayersNext(start: seq<Request>, v: seq<Verdict>, i: nat)
    requires i < |start| && i < |v|
    ensures var kept := Stayers(start, v, i);
            && Stayers(start, v, i + 1) == (if v[i].stays then kept + [start[i]] else kept)
            && kept + start[i..] == kept + [start[i]] + start[i + 1..]
  {
  }

  lemma MoversNext(start: seq<Request>, v: seq<Verdict>, i: nat, woken: seq<Request>)
    requires i < |start| && i < |v|
    ensures Movers(start, v, i + 1) + woken == (if v[i].stays then [] else [start[i]]) + (Movers(start, v, i) + woken)
  {
  }

  twostate lemma StillCounted(s: Server)
    requires s.total == old(s.total) && s.pending == old(s.pending)
    requires |s.ready.items| + |s.blocked.items| == old(|s.ready.items| + |s.blocked.items|)
    ensures old(s.Counted(0)) ==> s.Counted(0)
  {
  }

  lemma OneFurther(front: seq<Request>, start: seq<Request>, i: nat)
    requires i < |start|
    ensures var was := front + start[i..];
            was[|front|] == start[i] && was[..|front|] == front && was[|front| + 1..] == start[i + 1..]
    ensures start[..i] + [start[i]] == start[..i + 1]
  {
  }

  lemma DoneIsAlive()
    ensures !Over(DONE)
  {
  }

  lemma Spliced(accepted: seq<Request>, s: seq<Request>, k: nat)
    requires k < |s|
    ensures accepted + s == accepted + s[..k] + [s[k]] + s[k + 1..]
    ensures Removed(accepted + s, |accepted| + k) == accepted + s[..k] + [] + s[k + 1..]
  {
  }

  /** The descriptor and direction that block_request registers. */
  function WaitsOn(r: Request, haveSendfile: bool): Wait
    reads r`status, r`fd, r`dataFd, r`postDataFd, r`bufferStart, r`bufferEnd
  {
    if r.bufferEnd != 0 then Wait(r.fd, WRITING)
    else match r.status
      case IOSHUFFLE =>
        if !haveSendfile && r.bufferEnd - r.bufferStart == 0 then Wait(r.dataFd, READ) else Wait(r.fd, WRITING)
      case WRITE | PIPE_WRITE | DONE => Wait(r.fd, WRITING)
      case PIPE_READ => Wait(r.dataFd, READ)
      case BODY_WRITE => Wait(r.postDataFd, WRITING)
      case _ => Wait(r.fd, READ)
  }

  // ----- what a status waits for is what its next step uses

  datatype Handler =
    | ReadHeader | ReadBody | WriteBody | ProcessGet | ReadFromPipe | WriteFromPipe
    | IoShuffle | IoShuffleSendfile | LastFlush

  /** The switch of process_requests; None for a request that is over. */
  function HandlerOf(status: Status, haveSendfile: bool): Option<Handler> {
    match status
    case READ_HEADER | ONE_CR | ONE_LF | TWO_CR => Some(ReadHeader)
    case BODY_READ => Some(ReadBody)
    case BODY_WRITE => Some(WriteBody)
    case WRITE => Some(ProcessGet)
    case PIPE_READ => Some(ReadFromPipe)
    case PIPE_WRITE => Some(WriteFromPipe)
    case IOSHUFFLE => Some(if haveSendfile then IoShuffleSendfile else IoShuffle)
    case DONE => Some(LastFlush)
    case TIMED_OUT | DEAD => None
  }

  /** The descriptor and direction of the first call that a handler makes. */
  function FirstCall(h: Handler, r: Request): Wait
    reads r`fd, r`dataFd, r`postDataFd
  {
    match h
    case ReadHeader | ReadBody => Wait(r.fd, READ)
    case WriteBody => Wait(r.postDataFd, WRITING)
    case ReadFromPipe | IoShuffle => Wait(r.dataFd, READ)
    case ProcessGet | WriteFromPipe | IoShuffleSendfile | LastFlush => Wait(r.fd, WRITING)
  }

  /** A blocked request waits for the flush of its buffer, and without one for the first call of its handler. */
  lemma WaitsForNextStep(r: Request, haveSendfile: bool)
    requires !Over(r.status)
    ensures r.bufferEnd != 0 ==> WaitsOn(r, haveSendfile) == Wait(r.fd, WRITING)
    ensures r.bufferEnd == 0 && (r.status == IOSHUFFLE ==> r.bufferStart == 0) ==>
              HandlerOf(r.status, haveSendfile).Some?
              && WaitsOn(r, haveSendfile) == FirstCall(HandlerOf(r.status, haveSendfile).value, r)
  {
  }
}
