/**
  The body of a POST request on its way from the socket to the temporary file of the CGI program:
  the end of read_header, read_body and write_body (src/read.c).
  */
module BodySpool {
  import opened CStrings
  import opened Limits
  import opened RequestStatus
  import opened Decimal


  /** How the POST part of read_header ends. */
  datatype PostStart = Spooling | BadRequest

  /** The header declares the length `n`, within the limit. */
  predicate Declares(contentLength: Option<string>, n: nat, limit: nat) {
    n <= INT_MAX && contentLength == Some(Dec(n)) && (limit == 0 || n <= limit)
  }

  /** What the file has and what waits to be written are the front of the body, up to the declared length. */
  predicate Front(text: string, body: string, filesize: nat) {
    |text| <= filesize && text <= body && (|text| < filesize ==> text == body)
  }

  class Spool {
    /** The bytes in the client stream buffer, and the request's buffer for what is read later. */
    const clientStream: array<char>
    const buffer: array<char>
    var status: Status
    var filesize: nat
    var filepos: nat
    /** header_line and header_end: the data not yet written, in the one buffer or the other. */
    var inStream: bool
    var headerLine: nat
    var headerEnd: nat
    /** init_cgi has been reached. */
    var started: bool
    /** The bytes behind the header, as far as they have been read; and the temporary file. */
    ghost var body: string
    ghost var file: string

    ghost function Pending(): string
      requires InBounds()
      reads this, clientStream, buffer
    {
      if inStream then clientStream[headerLine..headerEnd] else buffer[headerLine..headerEnd]
    }

    predicate InBounds()
      reads this
    {
      buffer.Length == BUFFER_SIZE && headerLine <= headerEnd <= if inStream then clientStream.Length else BUFFER_SIZE
    }

    /** The file, followed by what waits to be written, is the front of the body, up to the declared length. */
    ghost predicate Valid()
      reads this, clientStream, buffer
    {
      && InBounds()
      && filepos == |file| && Front(file + Pending(), body, filesize)
      && (status == BODY_READ ==> !inStream && headerLine == headerEnd == 0)
      && (started ==> filepos == filesize && Pending() == "")
    }

    constructor (clientStream: array<char>)
      ensures this.clientStream == clientStream && buffer.Length == BUFFER_SIZE && fresh(buffer) && !started
    {
      this.clientStream := clientStream;
      buffer := new char[BUFFER_SIZE];
      status, filesize, filepos, inStream, headerLine, headerEnd, started := BODY_READ, 0, 0, true, 0, 0, false;
      body, file := "", "";
    }

    /**
      The end of read_header for POST: the data starts at `check`, and Content-Length must be a decimal number
      that is not above the limit (no limit is 0).
      */
    method StartPost(check: nat, clientStreamPos: nat, contentLength: Option<string>, singlePostLimit: nat,
                     local: array<char>) returns (r: PostStart)
      requires check <= clientStreamPos <= clientStream.Length && buffer.Length == BUFFER_SIZE && !started
      requires local.Length == 22 && local != clientStream && local != buffer && clientStream != buffer
      requires contentLength.Some? ==> forall i :: 0 <= i < |contentLength.value| ==> contentLength.value[i] != '\0'
      modifies this, local
      ensures r == Spooling <==> exists n: nat :: Declares(contentLength, n, singlePostLimit)
      ensures r == Spooling ==> Valid() && status == BODY_WRITE && !started && file == ""
      ensures r == Spooling ==> contentLength == Some(Dec(filesize)) && body == clientStream[check..clientStreamPos]
    {
      hide Canonical, Number, Dec;
      inStream, headerLine, headerEnd := true, check, clientStreamPos;
      status := BODY_WRITE;
      if contentLength == None {
        return BadRequest;
      }
      var n := BoaAtoi(contentLength.value, local);
      if n < 0 {
        return BadRequest;
      }
      if singlePostLimit != 0 && n > singlePostLimit {
        return BadRequest;
      }
      assert Declares(contentLength, n, singlePostLimit);
      Begin(n);
      return Spooling;
    }

    /** The length is known: what is in the buffer, and not too much, is to be written first. */
    method Begin(n: nat)
      requires inStream && headerLine <= headerEnd <= clientStream.Length && buffer.Length == BUFFER_SIZE && !started
      requires status == BODY_WRITE
      modifies `filesize, `filepos, `file, `body, `headerEnd
      ensures Valid() && file == "" && filesize == n && body == old(clientStream[headerLine..headerEnd])
    {
      filesize, filepos, file := n, 0, "";
      body := clientStream[headerLine..headerEnd];
      if headerEnd - headerLine > filesize {
        headerEnd := headerLine + filesize;
      }
      assert file + Pending() == Pending();
    }

    /** read_body: -1 blocked, 0 close the request, 1 go on. */
    method ReadBody(rd: ReadResult) returns (r: int)
      requires Valid() && status == BODY_READ && !started
      requires rd.Got? ==> |rd.data| <= filesize - filepos && |rd.data| <= BUFFER_SIZE
      modifies this`status, this`headerEnd, this`body, buffer
      ensures Valid() && !started && file == old(file) && (r != 1 ==> status == BODY_READ)
      ensures filepos < filesize && rd.Got? ==> Pending() == rd.data
      ensures if filepos == filesize then r == 1 && status == BODY_WRITE && body == old(body)
        else match rd
          case Got(data) => if data == "" then r == 0 && body == old(body)
                            else r == 1 && status == BODY_WRITE && body == old(body) + data
          case WouldBlock => r == -1 && status == BODY_READ && body == old(body)
          case _ => r == 0 && body == old(body)
    {
      var bytesFree := BUFFER_SIZE - (headerEnd - headerLine);
      var bytesToRead := filesize - filepos;
      if bytesToRead > bytesFree {
        bytesToRead := bytesFree;
      }
      if bytesToRead <= 0 {
        status := BODY_WRITE;
        return 1;
      }
      match rd {
        case WouldBlock => return -1;
        case Interrupted => return 0;
        case ReadError => return 0;
        case Got(data) =>
          if data == "" {
            return 0;
          }
          forall i | 0 <= i < |data| {
            buffer[headerEnd + i] := data[i];
          }
          status := BODY_WRITE;
          headerEnd := headerEnd + |data|;
          assert Pending() == data;
          body := body + data;
          assert file + "" == file;
          return 1;
      }
    }

    /** write_body: -1 blocked, 0 close the request, 1 go on; with nothing left to write, the CGI program is started. */
    method WriteBody(w: IoResult) returns (r: int)
      requires Valid() && status == BODY_WRITE && !started
      requires w.Moved? ==> w.count <= headerEnd - headerLine
      modifies this`status, this`filepos, this`inStream, this`headerLine, this`headerEnd, this`started, this`file
      ensures Valid() && body == old(body) && (status == BODY_WRITE || status == BODY_READ)
      ensures old(file) <= file
      ensures if old(headerLine == headerEnd)
        then r == 1 && file == old(file) && (started <==> filepos == filesize) && (!started ==> status == BODY_READ)
        else !started && match w
          case Moved(n) => r == 1 && status == BODY_WRITE && file == old(file) + old(Pending())[..n]
                           && Pending() == old(Pending())[n..]
          case Blocked => r == -1 && file == old(file) && Pending() == old(Pending())
          case Failed => r == 0 && file == old(file)
    {
      var bytesToWrite := headerEnd - headerLine;
      if filepos + bytesToWrite > filesize {
        bytesToWrite := filesize - filepos;
      }
      if bytesToWrite == 0 {
        inStream, headerLine, headerEnd := false, 0, 0;
        if filepos >= filesize {
          started := true;
          return 1;
        }
        status := BODY_READ;
        return 1;
      }
      match w {
        case Blocked => return -1;
        case Failed => return 0;
        case Moved(n) =>
          Written(n);
          return 1;
      }
    }

    /** The file has got the first `n` bytes of what waits to be written. */
    method Written(n: nat)
      requires Valid() && status == BODY_WRITE && !started && n <= headerEnd - headerLine
      modifies this`filepos, this`headerLine, this`file
      ensures Valid() && file == old(file) + old(Pending())[..n] && Pending() == old(Pending())[n..]
    {
      hide Front;
      ghost var before := Pending();
      filepos := filepos + n;
      headerLine := headerLine + n;
      assert Pending() == before[n..];
      TakenOff(file, before, n);
      file := file + before[..n];
    }

    /** When the CGI program is started, the file holds exactly the first Content-Length bytes of the body. */
    lemma SpooledExactly()
      requires Valid() && started
      ensures |body| >= filesize && file == body[..filesize]
    {
      assert file + "" == file;
    }

    /** How many more steps start the CGI program, when each of them moves something. */
    ghost function StepsLeft(): (n: nat)
      requires Valid()
      reads this, clientStream, buffer
    {
      var left := filesize - filepos;
      if status == BODY_READ then (if left == 0 then 2 else 3 * left)
      else if headerLine < headerEnd then 3 * left - 1
      else 3 * left + 1
    }

    /**
      Any run of read_body and write_body, whatever the reads and writes come back with; when each of them moves
      something, and there are enough of them, the CGI program is started.
      */
    method Run(arrivals: seq<ReadResult>, writes: seq<IoResult>) returns (r: int)
      requires Valid() && (status == BODY_READ || status == BODY_WRITE)
      requires |arrivals| == |writes|
      modifies this, buffer
      ensures Valid() && filesize == old(filesize) && old(body) <= body && old(file) <= file
      ensures started ==> |body| >= filesize && file == body[..filesize]
      ensures !old(started) && Productive(arrivals, writes) && |writes| >= 3 * filesize + 2 ==> started
    {
      hide Declares, Valid, StepsLeft, Productive;
      r := 1;
      var i := 0;
      MostSteps();
      while i < |writes| && r != 0 && !started
        invariant Valid() && (status == BODY_READ || status == BODY_WRITE) && filesize == old(filesize)
        invariant old(body) <= body && old(file) <= file
        invariant !old(started) && Productive(arrivals, writes) && !started ==>
                    r == 1 && StepsLeft() + i <= 3 * filesize + 2
        decreases |writes| - i
      {
        r := RunOnce(arrivals[i], writes[i]);
        StepOf(arrivals, writes, i);
        i := i + 1;
      }
      if started {
        SpooledExactly();
      } else {
        MostSteps();
      }
    }

    lemma MostSteps()
      requires Valid()
      ensures StepsLeft() <= 3 * filesize + 2 && (!started ==> StepsLeft() > 0)
    {
    }

    /** One step, with counts that are cut to what was asked for. */
    method RunOnce(rd: ReadResult, w: IoResult) returns (r: int)
      requires Valid() && !started && (status == BODY_READ || status == BODY_WRITE)
      modifies this, buffer
      ensures Valid() && (status == BODY_READ || status == BODY_WRITE) && filesize == old(filesize)
      ensures old(body) <= body && old(file) <= file
      ensures Moves(rd, w) ==> r == 1 && (!started ==> StepsLeft() < old(StepsLeft()))
    {
      if status == BODY_READ {
        var most := filesize - filepos;
        if most > BUFFER_SIZE {
          most := BUFFER_SIZE;
        }
        r := ReadBody(if rd.Got? && |rd.data| > most then Got(rd.data[..most]) else rd);
      } else {
        var most := headerEnd - headerLine;
        r := WriteBody(if w.Moved? && w.count > most then Moved(most) else w);
      }
    }
  }

  /** The read brings bytes, and the write takes some. */
  predicate Moves(rd: ReadResult, w: IoResult) {
    rd.Got? && rd.data != "" && w.Moved? && w.count > 0
  }

  predicate Productive(arrivals: seq<ReadResult>, writes: seq<IoResult>) {
    |arrivals| == |writes| && forall i :: 0 <= i < |writes| ==> Moves(arrivals[i], writes[i])
  }

  lemma StepOf(arrivals: seq<ReadResult>, writes: seq<IoResult>, i: nat)
    requires i < |arrivals| == |writes|
    ensures Productive(arrivals, writes) ==> Moves(arrivals[i], writes[i])
  {
  }

  lemma TakenOff(file: string, waiting: string, n: nat)
    requires n <= |waiting|
    ensures (file + waiting[..n]) + waiting[n..] == file + waiting
    ensures |file + waiting[..n]| == |file| + n && |waiting[n..]| == |waiting| - n
  {
  }
}
