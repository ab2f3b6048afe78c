/**
  The header state machine of a connection: read_header (src/read.c) on the client stream buffer, and the step of
  sanitize_request (src/request.c) that carries unread bytes over to the next request.
  */
module HeaderReader {
  import opened CStrings
  import opened RequestStatus
  import opened HeaderSyntax

  const CLIENT_STREAM_SIZE := 8192

  /**
    How read_header returns: with the result of process_header_end, with 0 (close the request), with 1 (stay on the
    ready list) or with -1 (blocked).
    */
  datatype Outcome = HeaderDone | Close | Stay | Block

  predicate InHeader(s: Status) {
    s == READ_HEADER || s == ONE_CR || s == ONE_LF || s == TWO_CR
  }

  /** The machine's state after the characters `cur` of the current line. */
  predicate StateOf(status: Status, cur: string, first: bool) {
    if cur == "" then status == if first then READ_HEADER else ONE_LF
    else if !first && StripCr(cur) == "" then status == TWO_CR
    else status == if cur[|cur| - 1] == '\r' then ONE_CR else READ_HEADER
  }

  /** The transition that read_header makes on one character. */
  function NextStatus(status: Status, uc: char): Status {
    match status
    case READ_HEADER => if uc == '\r' then ONE_CR else if uc == '\n' then ONE_LF else READ_HEADER
    case ONE_CR => if uc == '\n' then ONE_LF else if uc == '\r' then ONE_CR else READ_HEADER
    case ONE_LF => if uc == '\r' then TWO_CR else if uc == '\n' then BODY_READ else READ_HEADER
    case TWO_CR => if uc == '\n' then BODY_READ else if uc == '\r' then TWO_CR else READ_HEADER
    case _ => status
  }

  lemma StripCrSnoc(t: string, c: char)
    ensures StripCr(t + [c]) == if c == '\r' then StripCr(t) else t + [c]
  {
    assert (t + [c])[..|t|] == t;
  }

  /** On a character other than LF the machine stays in step with the line; an LF ends the line, or the header. */
  lemma Transition(status: Status, cur: string, first: bool, uc: char)
    requires InHeader(status) && StateOf(status, cur, first)
    ensures uc != '\n' ==> InHeader(NextStatus(status, uc)) && StateOf(NextStatus(status, uc), cur + [uc], first)
                           && NextStatus(status, uc) != ONE_LF
    ensures uc == '\n' ==> NextStatus(status, uc) == if !first && StripCr(cur) == "" then BODY_READ else ONE_LF
    ensures status == READ_HEADER ==> StripCr(cur) == cur
    ensures NextStatus(status, uc) == ONE_CR ==> uc == '\r' && (status == READ_HEADER || status == ONE_CR)
    ensures NextStatus(status, uc) == ONE_LF ==> status == READ_HEADER || status == ONE_CR
  {
    StripCrSnoc(cur, uc);
    if cur != "" {
      assert cur == cur[..|cur| - 1] + [cur[|cur| - 1]];
      StripCrSnoc(cur[..|cur| - 1], cur[|cur| - 1]);
    }
  }

  /** Whatever follows `front`, splitting starts with `lines` and goes on behind it. */
  ghost predicate Led(front: string, lines: seq<string>, judge: Judge) {
    forall x :: Split(front + x, [], judge) == Split(x, lines, judge)
  }

  predicate NoLf(t: string) {
    forall i :: 0 <= i < |t| ==> t[i] != '\n'
  }

  /** A line has been read to its LF: what splitting the whole input amounts to. */
  lemma LineRead(front: string, cur: string, rest: string, lines: seq<string>, judge: Judge)
    requires Led(front, lines, judge) && AllLegal(cur) && NoLf(cur)
    ensures var line := StripCr(cur); var now := lines + [line];
      Split(front + (cur + ['\n'] + rest), [], judge) ==
        if lines != [] && line == "" then Parsed(lines, Complete(rest))
        else if |line| >= MAX_HEADER_LENGTH then Parsed(lines, Refused)
        else if judge(now) == Reject then Parsed(now, Refused)
        else if judge(now) == Simple && lines == [] then Parsed(now, Complete(rest))
        else Split(rest, now, judge)
  {
    hide Split;
    SplitLine(cur, rest, lines, judge);
  }

  lemma LedOn(front: string, cur: string, lines: seq<string>, judge: Judge)
    requires Led(front, lines, judge) && AllLegal(cur) && NoLf(cur)
    requires var line := StripCr(cur); var now := lines + [line];
             !(lines != [] && line == "") && |line| < MAX_HEADER_LENGTH && judge(now) != Reject
             && !(judge(now) == Simple && lines == [])
    ensures Led(front + (cur + ['\n']), lines + [StripCr(cur)], judge)
  {
    hide Split;
    forall x ensures Split(front + (cur + ['\n']) + x, [], judge) == Split(x, lines + [StripCr(cur)], judge) {
      LineRead(front, cur, x, lines, judge);
      Assoc(front, cur + ['\n'], x);
    }
  }

  /** The same for a line that lies between two positions of the input. */
  lemma LineTaken(s: string, h: nat, p: nat, lines: seq<string>, judge: Judge)
    requires h < p <= |s| && s[p - 1] == '\n' && Led(s[..h], lines, judge)
    requires AllLegal(s[h..p - 1]) && NoLf(s[h..p - 1]) && (lines == [] || StripCr(s[h..p - 1]) != "")
    ensures var line := StripCr(s[h..p - 1]); var now := lines + [line]; var all := Split(s, [], judge);
      if |line| >= MAX_HEADER_LENGTH then all == Parsed(lines, Refused)
      else if judge(now) == Reject then all == Parsed(now, Refused)
      else if judge(now) == Simple && lines == [] then all == Parsed(now, Complete(s[p..]))
      else Led(s[..p], now, judge)
  {
    hide Split, Led, StripCr, AllLegal, NoLf;
    var cur := s[h..p - 1];
    assert s[..h] + (cur + ['\n'] + s[p..]) == s;
    assert s[..h] + (cur + ['\n']) == s[..p];
    LineRead(s[..h], cur, s[p..], lines, judge);
    var now := lines + [StripCr(cur)];
    if |StripCr(cur)| < MAX_HEADER_LENGTH && judge(now) != Reject && !(judge(now) == Simple && lines == []) {
      LedOn(s[..h], cur, lines, judge);
    }
  }

  class Reader {
    const clientStream: array<char>
    const judge: Judge
    var clientStreamPos: nat
    var parsePos: nat
    var headerLine: nat
    var headerEnd: nat
    var status: Status
    /** The lines given to process_logline and process_option_line; the first one sets req->logline. */
    var lines: seq<string>
    /** The bytes of this request that were read, as they were read. */
    ghost var input: string

    ghost predicate Buffered()
      reads this, clientStream
    {
      && clientStream.Length == CLIENT_STREAM_SIZE
      && parsePos <= clientStreamPos == |input| <= CLIENT_STREAM_SIZE
      && forall i :: parsePos <= i < clientStreamPos ==> clientStream[i] == input[i]
    }

    /** The line being read, as far as it has been parsed. */
    ghost function Current(): string
      requires headerLine <= parsePos <= |input|
      reads this
    {
      input[headerLine..parsePos]
    }

    ghost predicate Valid()
      reads this, clientStream
    {
      && Buffered() && headerLine <= parsePos
      && (forall i :: headerLine <= i < clientStreamPos ==> clientStream[i] == input[i])
      && InHeader(status) && StateOf(status, Current(), lines == [])
      && AllLegal(Current()) && NoLf(Current())
      && (status == ONE_CR ==> headerEnd == headerLine + |StripCr(Current())|)
      && Led(input[..headerLine], lines, judge)
    }

    constructor (judge: Judge)
      ensures Valid() && input == "" && lines == [] && this.judge == judge && fresh(clientStream)
    {
      this.judge := judge;
      clientStream := new char[CLIENT_STREAM_SIZE];
      clientStreamPos, parsePos, headerLine, headerEnd, status := 0, 0, 0, 0, READ_HEADER;
      lines, input := [], "";
      new;
      LedNothing(judge);
      assert Current() == "" && input[..headerLine] == "";
    }

    /** Handing a line over leaves its part of the buffer in any state. */
    method Scribble(from: nat, to: nat)
      requires from <= to <= clientStream.Length
      modifies clientStream
      ensures forall i :: 0 <= i < clientStream.Length && !(from <= i < to) ==> clientStream[i] == old(clientStream[i])
    {
      var f: nat -> char := *;
      forall i | from <= i < to {
        clientStream[i] := f(i);
      }
    }

    /** The part of the loop of read_header that is done on LF, with the line in header_line..header_end. */
    method TakeLine() returns (r: Option<Outcome>)
      requires Buffered() && headerLine <= headerEnd < parsePos && input[parsePos - 1] == '\n'
      requires forall i :: headerLine <= i < headerEnd ==> clientStream[i] == input[i]
      requires var cur := input[headerLine..parsePos - 1];
               AllLegal(cur) && NoLf(cur) && StripCr(cur) == input[headerLine..headerEnd]
               && (lines == [] || StripCr(cur) != "")
      requires Led(input[..headerLine], lines, judge) && status == ONE_LF
      modifies this`headerLine, this`lines, clientStream
      ensures Buffered()
      ensures r == None ==> Valid()
      ensures r == Some(HeaderDone) ==> Split(input, [], judge) == Parsed(lines, Complete(input[parsePos..]))
      ensures r == Some(Close) ==> Split(input, [], judge) == Parsed(lines, Refused)
      ensures r.Some? ==> r.value == HeaderDone || r.value == Close
    {
      hide Split, Led, StripCr, AllLegal, NoLf, StateOf;
      LineTaken(input, headerLine, parsePos, lines, judge);
      var line := clientStream[headerLine..headerEnd];
      assert line == input[headerLine..headerEnd];
      clientStream[headerEnd] := '\0';
      if headerEnd - headerLine >= MAX_HEADER_LENGTH {
        return Some(Close);
      }
      var first := lines == [];
      lines := lines + [line];
      var verdict := judge(lines);
      Scribble(headerLine, headerEnd);
      if verdict == Reject {
        return Some(Close);
      }
      if first && verdict == Simple {
        return Some(HeaderDone);
      }
      headerLine := parsePos;
      NextLine();
      return None;
    }

    /** Behind an LF, the machine is at the start of a line. */
    lemma NextLine()
      requires Buffered() && headerLine == parsePos && status == ONE_LF && lines != []
      requires Led(input[..headerLine], lines, judge)
      ensures Valid()
    {
      assert Current() == "";
      NothingRead();
    }

    /** The body of the loop of read_header: one character. */
    method TakeChar() returns (r: Option<Outcome>)
      requires Valid() && parsePos < clientStreamPos
      modifies this`parsePos, this`headerLine, this`headerEnd, this`status, this`lines, clientStream
      ensures Buffered() && parsePos <= old(parsePos) + 1
      ensures r == None ==> Valid() && parsePos == old(parsePos) + 1
      ensures r == Some(HeaderDone) ==> Split(input, [], judge) == Parsed(lines, Complete(input[parsePos..]))
      ensures r == Some(Close) ==> Split(input, [], judge) == Parsed(lines, Refused)
      ensures r.Some? ==> r.value == HeaderDone || r.value == Close
    {
      hide Split, Led, StripCr, StateOf, NextStatus, IsLegal;
      ghost var cur, rest, front := Current(), input[parsePos + 1..], input[..headerLine];
      var uc := clientStream[parsePos];
      Cut(input, headerLine, parsePos);
      if !IsLegal(uc) {
        IllegalRead(front, cur, uc, rest, lines, judge);
        return Some(Close);
      }
      Move(uc);
      if status == ONE_LF {
        r := TakeLine();
      } else if status == BODY_READ {
        LineRead(front, cur, rest, lines, judge);
        r := Some(HeaderDone);
      } else {
        r := None;
      }
    }

    /** The switch of read_header, on a legal character. */
    method Move(uc: char)
      requires Valid() && parsePos < clientStreamPos && uc == clientStream[parsePos] && IsLegal(uc)
      modifies this`parsePos, this`headerEnd, this`status
      ensures parsePos == old(parsePos) + 1
      ensures uc != '\n' ==> Valid() && status != ONE_LF && status != BODY_READ
      ensures uc == '\n' ==> status == if lines != [] && StripCr(old(Current())) == "" then BODY_READ else ONE_LF
      ensures status == ONE_LF ==> headerEnd == headerLine + |StripCr(old(Current()))|
    {
      hide Split, Led, StripCr, StateOf, NextStatus, IsLegal, AllLegal, NoLf;
      ghost var cur := Current();
      LegalSnoc(cur, uc);
      Cut(input, headerLine, parsePos);
      Transition(status, cur, lines == [], uc);
      StripCrSnoc(cur, uc);
      if status == READ_HEADER && (uc == '\r' || uc == '\n') {
        headerEnd := parsePos;
      }
      status := NextStatus(status, uc);
      parsePos := parsePos + 1;
      assert Current() == cur + [uc];
    }

    /** The loop of read_header over the bytes that are in the buffer. */
    method Scan() returns (r: Option<Outcome>)
      requires Valid()
      modifies this`parsePos, this`headerLine, this`headerEnd, this`status, this`lines, clientStream
      ensures Buffered()
      ensures r == None ==> Valid() && Split(input, [], judge) == Parsed(lines, More)
      ensures r == Some(HeaderDone) ==> Split(input, [], judge) == Parsed(lines, Complete(input[parsePos..]))
      ensures r == Some(Close) ==> Split(input, [], judge) == Parsed(lines, Refused)
      ensures r.Some? ==> r.value == HeaderDone || r.value == Close
    {
      hide Split, Led, StateOf;
      while parsePos < clientStreamPos
        invariant Valid()
        decreases clientStreamPos - parsePos
      {
        r := TakeChar();
        if r.Some? {
          return;
        }
      }
      assert Current() == input[headerLine..];
      SplitMore(Current(), lines, judge);
      LedTo(input, headerLine, lines, judge);
      return None;
    }

    /**
      read_header: what is in the buffer is parsed, and then more is read when the header is not complete.
      The result depends on the bytes of the request only, not on the reads they came in.
      */
    method ReadHeader(rd: ReadResult) returns (r: Outcome)
      requires Valid()
      requires rd.Got? ==> |rd.data| <= CLIENT_STREAM_SIZE - clientStreamPos
      modifies this`parsePos, this`headerLine, this`headerEnd, this`status, this`lines, this`clientStreamPos, this`input
      modifies clientStream
      ensures Buffered()
      ensures var p := Split(old(input), [], judge);
        match p.end
        case Complete(rest) => r == HeaderDone && lines == p.lines && input == old(input) && input[parsePos..] == rest
        case Refused => r == Close && lines == p.lines && input == old(input)
        case More =>
          && lines == p.lines
          && (if |old(input)| == CLIENT_STREAM_SIZE || rd == ReadError || rd == Got("")
              then r == Close && input == old(input) && (|input| == CLIENT_STREAM_SIZE ==> status == DEAD)
              else Valid() && input == (if rd.Got? then old(input) + rd.data else old(input))
                   && r == if rd == WouldBlock then Block else Stay)
    {
      hide Split, Led, StateOf;
      var s := Scan();
      if s.Some? {
        return s.value;
      }
      if CLIENT_STREAM_SIZE - clientStreamPos < 1 {
        status := DEAD;
        return Close;
      }
      match rd {
        case Interrupted => return Stay;
        case WouldBlock => return Block;
        case ReadError => return Close;
        case Got(data) =>
          if data == "" {
            return Close;
          }
          Fill(data);
          return Stay;
      }
    }

    /** The bytes that were read go behind those in the buffer. */
    method Fill(data: string)
      requires Valid() && |data| <= CLIENT_STREAM_SIZE - clientStreamPos
      modifies this`clientStreamPos, this`input, clientStream
      ensures Valid() && input == old(input) + data
    {
      hide Split, Led, StateOf, AllLegal, NoLf, StripCr;
      forall i | 0 <= i < |data| {
        clientStream[clientStreamPos + i] := data[i];
      }
      Appended(input, data, headerLine, parsePos);
      input := input + data;
      clientStreamPos := clientStreamPos + |data|;
    }

    /** sanitize_request on a connection that is kept alive: the unread bytes move to the front of the buffer. */
    method Sanitize()
      requires Buffered()
      modifies this`parsePos, this`headerLine, this`headerEnd, this`status, this`lines, this`clientStreamPos, this`input
      modifies clientStream
      ensures Valid() && input == old(input[parsePos..]) && lines == []
    {
      var bytesToMove := clientStreamPos - parsePos;
      if bytesToMove != 0 {
        forall i | 0 <= i < bytesToMove {
          clientStream[i] := clientStream[parsePos + i];
        }
      }
      clientStreamPos := bytesToMove;
      input := input[parsePos..];
      parsePos, headerEnd, status := 0, 0, READ_HEADER;
      headerLine, lines := 0, [];
      LedNothing(judge);
      assert input[..0] == "";
    }
  }

  // ----- a connection that is kept alive

  /** The requests that lie in `wire` before position `at`, one behind the other from `from` on. */
  ghost predicate Chained(done: seq<seq<string>>, wire: string, from: nat, at: nat, judge: Judge) {
    from <= at <= |wire| &&
    if done == [] then from == at
    else
      var p := Split(wire[from..], [], judge);
      p.end.Complete? && p.lines == done[0] && Chained(done[1..], wire, |wire| - |p.end.rest|, at, judge)
  }

  /** More bytes on the wire leave the requests before them as they were. */
  lemma {:induction false} ChainedExtends(done: seq<seq<string>>, wire: string, x: string,
                                           from: nat, at: nat, judge: Judge)
    requires Chained(done, wire, from, at, judge)
    ensures Chained(done, wire + x, from, at, judge)
    decreases |done|
  {
    hide Split;
    if done != [] {
      var p := Split(wire[from..], [], judge);
      SplitExtends(wire[from..], x, [], judge);
      assert (wire + x)[from..] == wire[from..] + x;
      ChainedExtends(done[1..], wire, x, |wire| - |p.end.rest|, at, judge);
    }
  }

  /** A further request behind the last one. */
  lemma {:induction false} ChainedSnoc(done: seq<seq<string>>, lines: seq<string>, wire: string,
                                        from: nat, at: nat, judge: Judge)
    requires Chained(done, wire, from, at, judge)
    requires var p := Split(wire[at..], [], judge); p.end.Complete? && p.lines == lines
    ensures Chained(done + [lines], wire, from, |wire| - |Split(wire[at..], [], judge).end.rest|, judge)
    decreases |done|
  {
    hide Split;
    if done == [] {
      assert (done + [lines])[1..] == [];
    } else {
      var p := Split(wire[from..], [], judge);
      assert (done + [lines])[1..] == done[1..] + [lines];
      ChainedSnoc(done[1..], lines, wire, |wire| - |p.end.rest|, at, judge);
    }
  }

  /** A chain of requests is what the wire holds, followed by what the rest of the wire holds. */
  lemma {:induction false} ChainedAll(done: seq<seq<string>>, wire: string, from: nat, at: nat, judge: Judge)
    requires Chained(done, wire, from, at, judge)
    ensures Requests(wire[from..], judge) == done + Requests(wire[at..], judge)
    decreases |done|
  {
    hide Split;
    if done == [] {
      assert done + Requests(wire[at..], judge) == Requests(wire[at..], judge);
    } else {
      var p := Split(wire[from..], [], judge);
      RestIsSuffix(wire[from..], [], judge);
      assert wire[from..][|wire[from..]| - |p.end.rest|..] == wire[|wire| - |p.end.rest|..];
      ChainedAll(done[1..], wire, |wire| - |p.end.rest|, at, judge);
      assert done + Requests(wire[at..], judge) == [done[0]] + (done[1..] + Requests(wire[at..], judge));
    }
  }

  /** What is left of a text is left of what follows its first line, or just that. */
  lemma SplitOnce(s: string, lines: seq<string>, judge: Judge)
    ensures var p, k := Split(s, lines, judge), LineLength(s);
      p.end.Complete? ==> k < |s| && (p.end.rest == s[k + 1..]
                                      || p.end == Split(s[k + 1..], lines + [StripCr(s[..k])], judge).end)
  {
    hide LineLength, StripCr, AllLegal;
  }

  lemma {:induction false} RestIsSuffix(s: string, lines: seq<string>, judge: Judge)
    ensures var p := Split(s, lines, judge); p.end.Complete? ==> p.end.rest == s[|s| - |p.end.rest|..]
    decreases |s|
  {
    hide Split, LineLength, StripCr;
    var k, p := LineLength(s), Split(s, lines, judge);
    SplitOnce(s, lines, judge);
    if k < |s| {
      RestIsSuffix(s[k + 1..], lines + [StripCr(s[..k])], judge);
      if p.end.Complete? && p.end.rest != s[k + 1..] {
        AfterLine(s, k, p.end.rest);
      }
    }
  }

  lemma AfterLine(s: string, k: nat, rest: string)
    requires k < |s| && |rest| <= |s| - k - 1 && rest == s[k + 1..][|s| - k - 1 - |rest|..]
    ensures rest == s[|s| - |rest|..]
  {
  }

  class Connection {
    const reader: Reader
    /** All bytes read on the connection, where the current request starts in them, and the requests before it. */
    ghost var wire: string
    ghost var base: nat
    var done: seq<seq<string>>

    ghost predicate History()
      reads this, reader
    {
      && |reader.input| <= |wire| && base == |wire| - |reader.input| && wire[base..] == reader.input
      && Chained(done, wire, 0, base, reader.judge)
    }

    constructor (judge: Judge)
      ensures reader.Valid() && History() && wire == "" && reader.judge == judge
    {
      reader := new Reader(judge);
      wire, base, done := "", 0, [];
    }

    /**
      Reads header after header: for every way the bytes arrive, the requests found and those still to be found in
      the buffer are the requests that the bytes read hold; the bytes consumed and the bytes carried over are the
      bytes read.
      */
    method Serve(arrivals: seq<ReadResult>) returns (closed: bool)
      requires reader.Valid() && History()
      modifies this, reader, reader.clientStream
      ensures History() && reader.Buffered() && (!closed ==> reader.Valid()) && old(wire) <= wire
      ensures Requests(wire, reader.judge) == done + Requests(reader.input, reader.judge)
      ensures closed ==> Requests(wire, reader.judge) == done
    {
      hide Split, Chained, Requests, History;
      var i := 0;
      closed := false;
      while i < |arrivals| && !closed
        invariant reader.Buffered() && History() && old(wire) <= wire && (!closed ==> reader.Valid())
        invariant closed ==> !Split(reader.input, [], reader.judge).end.Complete?
        decreases |arrivals| - i, !closed, |reader.input|
      {
        var r := Step(arrivals[i]);
        closed := r == Close;
        if r == Stay || r == Block {
          i := i + 1;
        }
      }
      SoFar();
      if closed {
        RequestsEnd(reader.input, reader.judge);
        assert done + [] == done;
      }
    }

    /** One call of read_header, with a read that is cut to the room in the buffer. */
    method Step(arrival: ReadResult) returns (r: Outcome)
      requires reader.Valid() && History()
      modifies this, reader, reader.clientStream
      ensures History() && reader.Buffered() && (r != Close ==> reader.Valid()) && old(wire) <= wire
      ensures r == Close ==> !Split(reader.input, [], reader.judge).end.Complete?
      ensures r == HeaderDone ==> |reader.input| < |old(reader.input)|
    {
      hide Split, Chained;
      var rd, room := arrival, CLIENT_STREAM_SIZE - reader.clientStreamPos;
      if rd.Got? && |rd.data| > room {
        rd := Got(rd.data[..room]);
      }
      ghost var input := reader.input;
      r := reader.ReadHeader(rd);
      if r == HeaderDone {
        NextRequest();
      } else if r != Close && rd.Got? {
        ChainedExtends(done, wire, rd.data, 0, base, reader.judge);
        Grown(wire, base, input, rd.data);
        wire := wire + rd.data;
      }
    }

    lemma SoFar()
      requires History()
      ensures Requests(wire, reader.judge) == done + Requests(reader.input, reader.judge)
    {
      hide Split, Chained, Requests;
      ChainedAll(done, wire, 0, base, reader.judge);
      assert wire[0..] == wire;
    }

    /** A request is over: what it left unread starts the next one. */
    method NextRequest()
      requires reader.Buffered() && History()
      requires Split(reader.input, [], reader.judge) == Parsed(reader.lines, Complete(reader.input[reader.parsePos..]))
      modifies this`base, this`done, reader, reader.clientStream
      ensures reader.Valid() && History() && |reader.input| < |old(reader.input)|
      ensures old(base) + old(reader.parsePos) == base && reader.input == old(reader.input[reader.parsePos..])
    {
      hide Split, Chained, Led, StateOf, StripCr;
      ChainedSnoc(done, reader.lines, wire, 0, base, reader.judge);
      Advanced(wire, base, reader.input, reader.parsePos);
      done := done + [reader.lines];
      base := base + reader.parsePos;
      reader.Sanitize();
    }
  }

  lemma RequestsEnd(s: string, judge: Judge)
    requires !Split(s, [], judge).end.Complete?
    ensures Requests(s, judge) == []
  {
  }

  lemma NothingRead()
    ensures AllLegal("") && NoLf("") && StripCr("") == ""
  {
  }

  lemma Appended(s: string, x: string, h: nat, p: nat)
    requires h <= p <= |s|
    ensures (s + x)[h..p] == s[h..p] && (s + x)[..h] == s[..h]
  {
  }

  lemma LegalSnoc(t: string, c: char)
    requires AllLegal(t) && NoLf(t) && IsLegal(c)
    ensures AllLegal(t + [c]) && (c != '\n' ==> NoLf(t + [c]))
  {
  }

  lemma Grown(wire: string, base: nat, input: string, data: string)
    requires base <= |wire| && wire[base..] == input
    ensures (wire + data)[base..] == input + data
  {
  }

  lemma Advanced(wire: string, base: nat, input: string, n: nat)
    requires base <= |wire| && wire[base..] == input && n <= |input|
    ensures wire[base + n..] == input[n..]
  {
  }

  lemma Cut(s: string, h: nat, p: nat)
    requires h <= p < |s|
    ensures s == s[..h] + (s[h..p] + [s[p]] + s[p + 1..])
    ensures s[h..p + 1] == s[h..p] + [s[p]]
  {
  }

  lemma IllegalRead(front: string, cur: string, c: char, rest: string, lines: seq<string>, judge: Judge)
    requires Led(front, lines, judge) && !IsLegal(c) && NoLf(cur)
    ensures Split(front + (cur + [c] + rest), [], judge) == Parsed(lines, Refused)
  {
    SplitIllegal(cur, c, rest, lines, judge);
  }

  lemma LedTo(s: string, h: nat, lines: seq<string>, judge: Judge)
    requires h <= |s| && Led(s[..h], lines, judge)
    ensures Split(s, [], judge) == Split(s[h..], lines, judge)
  {
    hide Split;
    assert s[..h] + s[h..] == s;
  }

  lemma LedNothing(judge: Judge)
    ensures Led("", [], judge)
  {
    forall x ensures Split("" + x, [], judge) == Split(x, [], judge) {
      assert "" + x == x;
    }
  }
}
