/** The intrusive doubly linked request queues: src/queue.c, and the request fields that scheduling looks at. */
module Queues {
  import opened RequestStatus

  datatype KeepAlive = KA_INACTIVE | KA_ACTIVE | KA_STOPPED

  /** The queue that a request is on. */
  datatype Home = Nowhere | OnReady | OnBlocked | OnFree

  /** struct request; the ghost fields record the queue it is on, and its place there. */
  class Request {
    var next: Request?
    var prev: Request?
    var status: Status
    var keepalive: KeepAlive
    var responseStatus: nat
    var bufferStart: nat
    var bufferEnd: nat
    var fd: int
    var dataFd: int
    var postDataFd: int
    var kacount: nat
    /** req->logline is set. */
    var logline: bool
    var timeLast: int
    var pollfdId: nat
    ghost var home: Home
    ghost var rank: int

    /** Nothing is left of an earlier request. */
    ghost predicate Reset()
      reads this`keepalive, this`responseStatus, this`dataFd, this`postDataFd
      reads this`logline, this`bufferStart, this`bufferEnd
    {
      && keepalive == KA_INACTIVE && responseStatus == 0 && dataFd == 0 && postDataFd == 0
      && !logline && bufferStart == bufferEnd == 0
    }

    /** What sanitize_request's memset leaves of the fields in front of fd, but for the status. */
    ghost predicate Cleared()
      reads this`keepalive, this`responseStatus, this`pollfdId, this`dataFd, this`postDataFd
      reads this`logline, this`bufferStart, this`bufferEnd
    {
      Reset() && pollfdId == 0
    }

    constructor ()
      ensures next == null && prev == null && home == Nowhere
    {
      next, prev, home := null, null, Nowhere;
    }
  }

  /** The sequence without its element at `k`. */
  ghost function Removed(s: seq<Request>, k: nat): (t: seq<Request>)
    requires k < |s|
    ensures |t| == |s| - 1
    ensures forall i {:trigger t[i]} :: 0 <= i < |t| ==> t[i] == if i < k then s[i] else s[i + 1]
  {
    s[..k] + s[k + 1..]
  }

  /** A doubly linked list from `head` through exactly these requests. */
  ghost predicate Linked(s: seq<Request>, head: Request?)
    reads s`next, s`prev
  {
    && head == (if s == [] then null else s[0])
    && (s != [] ==> s[0].prev == null && s[|s| - 1].next == null)
    && (forall i {:trigger s[i].next} :: 0 <= i < |s| - 1 ==> s[i].next == s[i + 1])
    && (forall i {:trigger s[i].prev} :: 0 < i < |s| ==> s[i].prev == s[i - 1])
  }

  /** Every request knows its queue, and its place there counted from `base`. */
  ghost predicate Tagged(s: seq<Request>, home: Home, base: int)
    reads s`home, s`rank
  {
    && (forall i {:trigger s[i].home} :: 0 <= i < |s| ==> s[i].home == home)
    && (forall i {:trigger s[i].rank} :: 0 <= i < |s| ==> s[i].rank == base + i)
  }

  /** What is left is a list when the neighbours of `s[k]` point past it. */
  lemma ClosedUp(s: seq<Request>, k: nat, head: Request?)
    requires k < |s|
    requires head == if k > 0 then s[0] else if |s| > 1 then s[1] else null
    requires k > 0 ==> s[0].prev == null
    requires k == 0 && |s| > 1 ==> s[1].prev == null
    requires k < |s| - 1 ==> s[|s| - 1].next == null
    requires 0 < k == |s| - 1 ==> s[k - 1].next == null
    requires 0 < k < |s| - 1 ==> s[k - 1].next == s[k + 1] && s[k + 1].prev == s[k - 1]
    requires forall i :: 0 <= i < |s| - 1 && i != k - 1 && i != k ==> s[i].next == s[i + 1]
    requires forall i :: 0 < i < |s| && i != k && i != k + 1 ==> s[i].prev == s[i - 1]
    ensures Linked(Removed(s, k), head)
  {
    var t := Removed(s, k);
    forall i | 0 <= i < |t| - 1 ensures t[i].next == t[i + 1] {
      assert t[i] == if i < k then s[i] else s[i + 1];
    }
    forall i | 0 < i < |t| ensures t[i].prev == t[i - 1] {
      assert t[i] == if i < k then s[i] else s[i + 1];
    }
  }

  lemma RemovedMembers(s: seq<Request>, k: nat)
    requires k < |s| && forall i :: 0 <= i < |s| && i != k ==> s[i] != s[k]
    ensures forall r :: r in Removed(s, k) <==> r in s && r != s[k]
  {
    var t := Removed(s, k);
    forall r | r in s && r != s[k] ensures r in t {
      var i :| 0 <= i < |s| && s[i] == r;
      assert r == t[if i < k then i else i - 1];
    }
  }

  class Queue {
    var head: Request?
    ghost const home: Home
    ghost var items: seq<Request>
    ghost var base: int

    ghost predicate Valid()
      reads this, items`next, items`prev, items`home, items`rank
    {
      home != Nowhere && Linked(items, head) && Tagged(items, home, base)
    }

    constructor (ghost home: Home)
      requires home != Nowhere
      ensures Valid() && items == [] && this.home == home
    {
      head, this.home, items, base := null, home, [], 0;
    }

    /** The requests on a queue are different from each other and from those elsewhere. */
    lemma Distinct()
      requires Valid()
      ensures forall i, j :: 0 <= i < j < |items| ==> items[i] != items[j]
      ensures forall r :: r in items ==> r.home == home
    {
      forall i, j | 0 <= i < j < |items| ensures items[i] != items[j] {
        assert items[i].rank != items[j].rank;
      }
    }

    lemma First()
      requires Valid()
      ensures head == if items == [] then null else items[0]
    {
    }

    /** current->next */
    method After(req: Request, ghost k: nat) returns (next: Request?)
      requires Valid() && k < |items| && items[k] == req
      ensures next == if k + 1 < |items| then items[k + 1] else null
    {
      assert k + 1 < |items| ==> items[k].next == items[k + 1];
      return req.next;
    }

    lemma Elsewhere(q: Queue)
      requires Valid() && q.Valid()
      ensures q.home != home ==> forall r :: r in q.items ==> r !in items
    {
      hide Linked;
      Distinct();
      q.Distinct();
    }

    /** enqueue: at the head */
    method Enqueue(req: Request)
      requires Valid() && req.home == Nowhere
      modifies this`head, this`items, this`base, items`prev, req`next, req`prev, req`home, req`rank
      ensures Valid() && items == [req] + old(items) && req.home == home
    {
      if head != null {
        head.prev := req;
      }
      req.next := head;
      req.prev := null;
      head := req;
      base := base - 1;
      req.home, req.rank := home, base;
      items := [req] + items;
    }

    /** dequeue, from anywhere on this queue */
    method Dequeue(req: Request, ghost k: nat)
      requires Valid() && k < |items| && items[k] == req
      modifies this`head, this`items, this`base, items`next, items`prev, items`rank, req`home
      ensures Valid() && items == Removed(old(items), k)
      ensures req.home == Nowhere && req.next == null && req.prev == null
    {
      hide Removed, Linked, Tagged;
      Unlink(req, k);
      Renumber(req, k);
    }

    /** The pointer surgery: the neighbours of the request are linked up with each other. */
    method Unlink(req: Request, ghost k: nat)
      requires Linked(items, head) && Tagged(items, home, base) && k < |items| && items[k] == req
      modifies this`head, items`next, items`prev
      ensures req.next == null && req.prev == null
      ensures Linked(Removed(items, k), head)
    {
      hide Removed;
      assert forall i :: 0 <= i < |items| ==> items[i].rank == base + i;
      assert k > 0 ==> req.prev == items[k - 1];
      assert k < |items| - 1 ==> req.next == items[k + 1];
      if head == req {
        head := req.next;
      }
      if req.prev != null {
        req.prev.next := req.next;
      }
      if req.next != null {
        req.next.prev := req.prev;
      }
      req.next := null;
      req.prev := null;
      ClosedUp(items, k, head) by { hide Linked; }
    }

    /** The ghost part of dequeue: the places of the requests in front move up by one. */
    ghost method Renumber(req: Request, k: nat)
      requires Tagged(items, home, base) && k < |items| && items[k] == req
      modifies this`items, this`base, items`rank, req`home
      ensures items == Removed(old(items), k) && req.home == Nowhere
      ensures Tagged(items, home, base)
    {
      hide Removed;
      var was := items;
      assert forall i :: 0 <= i < |was| ==> was[i].rank == base + i;
      req.home := Nowhere;
      base := base + 1;
      forall i | 0 <= i < k {
        was[i].rank := was[i].rank + 1;
      }
      items := Removed(was, k);
    }
  }
}
