/** The output buffer of a request as a queue of bytes: src/buffer.c. */
module OutputBuffer {
  import opened CStrings
  import opened Limits
  import opened RequestStatus
  import opened Escape
  import opened UriText
  import opened WireOrder

  /** The entity, or the character itself, that HTML text is written with. */
  function HtmlChar(c: char): (e: string)
    ensures 1 <= |e| <= 6
  {
    if c == '>' then "&gt;" else if c == '<' then "&lt;" else if c == '&' then "&amp;"
    else if c == '"' then "&quot;" else [c]
  }

  function EscapeHtml(t: string): (e: string)
    ensures |t| <= |e|
  {
    if t == "" then "" else EscapeHtml(t[..|t| - 1]) + HtmlChar(t[|t| - 1])
  }

  // ----- HTML text and what it stands for

  /** The character that the front of HTML text stands for, by HTML's entities for markup, and how long its form is. */
  function Entity(e: string): (c: (char, nat))
    requires e != ""
    ensures 1 <= c.1 <= |e|
  {
    if "&gt;" <= e then ('>', 4) else if "&lt;" <= e then ('<', 4) else if "&amp;" <= e then ('&', 5)
    else if "&quot;" <= e then ('"', 6) else (e[0], 1)
  }

  /** The text that HTML text stands for. */
  function DecodeHtml(e: string): string {
    if e == "" then "" else [Entity(e).0] + DecodeHtml(e[Entity(e).1..])
  }

  lemma HtmlCharDecoded(c: char, w: string)
    ensures DecodeHtml(HtmlChar(c) + w) == [c] + DecodeHtml(w)
  {
    var e := HtmlChar(c) + w;
    assert e[|HtmlChar(c)|..] == w;
    EntityIs(c, w);
  }

  lemma EntityIs(c: char, w: string)
    ensures Entity(HtmlChar(c) + w) == (c, |HtmlChar(c)|)
  {
    var e := HtmlChar(c) + w;
    assert e[0] == HtmlChar(c)[0];
    if |HtmlChar(c)| > 1 {
      assert e[1] == HtmlChar(c)[1];
      assert forall k :: 1 < k < |HtmlChar(c)| ==> e[k] == HtmlChar(c)[k];
      assert HtmlChar(c) == e[..|HtmlChar(c)|];
    }
  }

  lemma {:induction false} HtmlDecodes(t: string, w: string)
    ensures DecodeHtml(EscapeHtml(t) + w) == t + DecodeHtml(w)
  {
    hide DecodeHtml, HtmlChar;
    if t == "" {
      assert "" + w == w && "" + DecodeHtml(w) == DecodeHtml(w);
    } else {
      var front, c := t[..|t| - 1], t[|t| - 1];
      Assoc(EscapeHtml(front), HtmlChar(c), w);
      HtmlDecodes(front, HtmlChar(c) + w);
      HtmlCharDecoded(c, w);
      Assoc(front, [c], DecodeHtml(w));
      assert front + [c] == t;
    }
  }

  /** HTML text stands for the text that it was made of. */
  lemma HtmlRoundTrip(t: string)
    ensures DecodeHtml(EscapeHtml(t)) == t
  {
    hide EscapeHtml;
    HtmlDecodes(t, "");
    assert EscapeHtml(t) + "" == EscapeHtml(t) && t + DecodeHtml("") == t;
  }

  /** No angle bracket, no quote, and an ampersand only at the front of one of the entities. */
  ghost predicate Tame(e: string) {
    && '<' !in e && '>' !in e && '"' !in e
    && forall i :: 0 <= i < |e| && e[i] == '&' ==> Entity(e[i..]).1 > 1
  }

  /** No markup is left in HTML text. */
  lemma NoMarkup(t: string)
    ensures Tame(EscapeHtml(t))
  {
    hide EscapeHtml;
    TameText(t, "");
    assert EscapeHtml(t) + "" == EscapeHtml(t);
  }

  lemma {:induction false} TameText(t: string, w: string)
    requires Tame(w)
    ensures Tame(EscapeHtml(t) + w)
  {
    hide HtmlChar, Tame;
    if t == "" {
      assert "" + w == w;
    } else {
      var front, c := t[..|t| - 1], t[|t| - 1];
      Assoc(EscapeHtml(front), HtmlChar(c), w);
      TameChar(c, w);
      TameText(front, HtmlChar(c) + w);
    }
  }

  lemma TameChar(c: char, w: string)
    requires Tame(w)
    ensures Tame(HtmlChar(c) + w)
  {
    var f := HtmlChar(c);
    var e := f + w;
    forall i | 0 <= i < |e| && e[i] == '&' ensures Entity(e[i..]).1 > 1 {
      if i == 0 {
        assert e[0..] == e && f[0] == '&';
      } else {
        assert i >= |f|;
        assert e[i..] == w[i - |f|..] && w[i - |f|] == '&';
      }
    }
  }

  lemma HtmlStep(t: string, i: nat)
    requires i < |t|
    ensures EscapeHtml(t[..i + 1]) == EscapeHtml(t[..i]) + HtmlChar(t[i])
    ensures EscapeHtml(t[..0]) == "" && t[..|t|] == t
  {
    assert t[..i + 1][..i] == t[..i];
  }

  lemma HttpStep(t: string, i: nat)
    requires i < |t|
    ensures EscapeText(t[..i + 1]) == EscapeText(t[..i]) + EscapeChar(t[i])
    ensures EscapeText(t[..0]) == "" && t[..|t|] == t
  {
    assert t[..i + 1] == t[..i] + [t[i]];
    EscapeAppend(t[..i], t[i]);
  }

  lemma {:induction false} HttpGrows(t: string, i: nat, j: nat)
    requires i <= j <= |t|
    ensures |EscapeText(t[..i])| <= |EscapeText(t[..j])|
  {
    hide EscapeText, EscapeChar;
    if i < j {
      HttpGrows(t, i, j - 1);
      HttpStep(t, j - 1);
    }
  }

  lemma {:induction false} HtmlGrows(t: string, i: nat, j: nat)
    requires i <= j <= |t|
    ensures |EscapeHtml(t[..i])| <= |EscapeHtml(t[..j])|
  {
    if i < j {
      HtmlGrows(t, i, j - 1);
      HtmlStep(t, j - 1);
    }
  }

  /** The guard bands: there must be room for the longest form in front of the last character. */
  predicate HttpFits(room: int, msg: string) {
    msg == "" || room - |EscapeText(msg[..|msg| - 1])| >= 3
  }

  predicate HtmlFits(room: int, msg: string) {
    msg == "" || room - |EscapeHtml(msg[..|msg| - 1])| >= 6
  }

  /** How many characters of a message are written from the `i`-th on, when there is that much room for it all. */
  function HttpTaken(room: int, msg: string, i: nat): (n: nat)
    requires i <= |msg|
    ensures i <= n <= |msg|
    decreases |msg| - i
  {
    if i < |msg| && room - |EscapeText(msg[..i])| >= 3 then HttpTaken(room, msg, i + 1) else i
  }

  /** A message is written in full exactly when it fits. */
  lemma {:induction false} HttpTakenAll(room: int, msg: string, i: nat)
    requires i <= |msg| && (i > 0 ==> room - |EscapeText(msg[..i - 1])| >= 3)
    ensures HttpTaken(room, msg, i) == |msg| <==> HttpFits(room, msg)
    decreases |msg| - i
  {
    hide EscapeText;
    if i < |msg| {
      if room - |EscapeText(msg[..i])| >= 3 {
        HttpTakenAll(room, msg, i + 1);
      } else {
        HttpGrows(msg, i, |msg| - 1);
      }
    }
  }

  /** How many characters of a message are written from the `i`-th on, when there is that much room for it all. */
  function HtmlTaken(room: int, msg: string, i: nat): (n: nat)
    requires i <= |msg|
    ensures i <= n <= |msg|
    decreases |msg| - i
  {
    if i < |msg| && room - |EscapeHtml(msg[..i])| >= 6 then HtmlTaken(room, msg, i + 1) else i
  }

  /** A message is written in full exactly when it fits. */
  lemma {:induction false} HtmlTakenAll(room: int, msg: string, i: nat)
    requires i <= |msg| && (i > 0 ==> room - |EscapeHtml(msg[..i - 1])| >= 6)
    ensures HtmlTaken(room, msg, i) == |msg| <==> HtmlFits(room, msg)
    decreases |msg| - i
  {
    hide EscapeHtml;
    if i < |msg| {
      if room - |EscapeHtml(msg[..i])| >= 6 {
        HtmlTakenAll(room, msg, i + 1);
      } else {
        HtmlGrows(msg, i, |msg| - 1);
      }
    }
  }

  class Outgoing {
    var status: Status
    const buffer: array<char>
    var bufferStart: nat
    var bufferEnd: nat
    /** The bytes the socket has taken from the buffer, and all bytes ever put into it. */
    ghost var sent: string
    ghost var appended: string
    /** The same, with the bytes that go to the socket directly. */
    ghost var stream: Stream
    /** How many direct writes have overtaken bytes in the buffer. */
    ghost var crossed: nat

    predicate InBounds()
      reads `bufferStart, `bufferEnd
    {
      buffer.Length == BUFFER_SIZE + 1 && (bufferStart < bufferEnd <= BUFFER_SIZE || bufferStart == bufferEnd == 0)
    }

    /** While the request is alive, the buffer holds exactly what was appended and not yet sent. */
    ghost predicate Valid()
      reads this, buffer
    {
      InBounds() && (!Over(status) ==> Consistent())
    }

    ghost function Pending(): string
      requires InBounds()
      reads `bufferStart, `bufferEnd, buffer
    {
      buffer[bufferStart..bufferEnd]
    }

    /** Nothing is lost between what was appended and what was sent or waits. */
    ghost predicate Consistent()
      reads `bufferStart, `bufferEnd, `sent, `appended, `stream, buffer
    {
      InBounds() && sent + Pending() == appended && Backs(stream, Pending())
    }

    constructor (status: Status)
      ensures Valid() && this.status == status && sent == appended == "" && bufferStart == bufferEnd == 0
      ensures stream == NOTHING && crossed == 0
      ensures fresh(buffer)
    {
      this.status := status;
      buffer := new char[BUFFER_SIZE + 1];
      bufferStart, bufferEnd, sent, appended, stream, crossed := 0, 0, "", "", NOTHING, 0;
    }

    lemma AliveIsConsistent()
      requires Valid() && !Over(status)
      ensures Consistent()
    {
    }

    lemma ConsistentIsValid()
      requires Consistent()
      ensures Valid() && InBounds() && bufferStart <= bufferEnd <= BUFFER_SIZE
    {
    }

    /** req_write; the result is None for -1. */
    method ReqWrite(msg: string) returns (r: Option<nat>)
      requires Valid()
      modifies this`status, this`bufferEnd, this`appended, this`stream, buffer
      ensures Valid() && (old(Consistent()) ==> Consistent() && (InOrder(stream) <==> old(InOrder(stream))))
      ensures var fits := old(bufferEnd) + |msg| <= BUFFER_SIZE; var skip := msg == "" || Over(old(status));
              if skip || fits
              then r == Some(bufferEnd) && status == old(status)
                   && appended == old(appended) + (if skip then "" else msg)
                   && Pending() == old(Pending()) + (if skip then "" else msg)
                   && bufferEnd == old(bufferEnd) + (if skip then 0 else |msg|)
                   && stream == (if skip then old(stream) else Stored(old(stream), msg))
                   && stream.made == old(stream.made) + (if skip then "" else msg)
              else r == None && status == DEAD && appended == old(appended) && Pending() == old(Pending())
                   && stream == old(stream)
    {
      var msgLen := |msg|;
      if msgLen == 0 || Over(status) {
        return Some(bufferEnd);
      }
      if bufferEnd + msgLen > BUFFER_SIZE {
        status := DEAD;
        return None;
      }
      Copy(msg);
      return Some(bufferEnd);
    }

    /** memcpy of a message to the end of the buffer. */
    method Copy(msg: string)
      requires Valid() && bufferEnd + |msg| <= BUFFER_SIZE
      modifies this`bufferEnd, this`appended, this`stream, buffer
      ensures Valid() && appended == old(appended) + msg && Pending() == old(Pending()) + msg
      ensures stream == Stored(old(stream), msg) && stream.made == old(stream.made) + msg
      ensures old(Consistent()) ==> Consistent() && (InOrder(stream) <==> old(InOrder(stream)))
      ensures bufferEnd == old(bufferEnd) + |msg|
    {
      ghost var before := Pending();
      forall i | 0 <= i < |msg| {
        buffer[bufferEnd + i] := msg[i];
      }
      bufferEnd := bufferEnd + |msg|;
      assert Pending() == before + msg;
      Assoc(sent, before, msg);
      appended := appended + msg;
      if Backs(stream, before) {
        StoredKeeps(stream, msg, before);
      }
      stream := Stored(stream, msg);
    }

    /** A write to the socket that does not go through the buffer. */
    ghost method WriteDirect(text: string)
      requires Consistent()
      modifies this`stream, this`crossed
      ensures Consistent() && stream == Direct(old(stream), text) && stream.made == old(stream.made) + text
      ensures InOrder(stream) <==> old(InOrder(stream)) && crossed == old(crossed)
      ensures crossed == old(crossed) + if text != "" && bufferStart < bufferEnd then 1 else 0
    {
      if text != "" && bufferStart < bufferEnd {
        crossed := crossed + 1;
      }
      DirectKeeps(stream, text, Pending());
      stream := Direct(stream, text);
    }
  
    /** req_write_escape_http; it does not look at the status. */
    method ReqWriteEscapeHttp(msg: string, table: EscapeTable) returns (r: Option<nat>)
      requires Valid() && table.Built() && buffer as object != table.words
      modifies this`status, this`bufferEnd, this`appended, this`stream, buffer
      ensures Valid()
      ensures if HttpFits(BUFFER_SIZE - old(bufferEnd), msg)
              then r == Some(bufferEnd) && status == old(status)
                   && appended == old(appended) + EscapeText(msg) && Pending() == old(Pending()) + EscapeText(msg)
                   && stream == Stored(old(stream), EscapeText(msg))
              else r == None && status == DEAD
                   && Pending() == old(Pending()) + EscapeText(msg[..HttpTaken(BUFFER_SIZE - old(bufferEnd), msg, 0)])
    {
      hide EscapeText, HttpTaken, HttpFits, Marks, SPECIAL;
      ghost var before, out := Pending(), EscapeText(msg);
      HttpTakenAll(BUFFER_SIZE - bufferEnd, msg, 0);
      var dest, i := FillHttp(msg, table);
      bufferEnd := dest;
      if i < |msg| {
        status := DEAD;
        return None;
      }
      assert msg[..i] == msg;
      Assoc(sent, before, out);
      appended := appended + out;
      if Backs(stream, before) {
        StoredKeeps(stream, out, before);
      }
      stream := Stored(stream, out);
      return Some(bufferEnd);
    }

    /** The loop of req_write_escape_http; its results are the end of what was written, and of what was read. */
    method FillHttp(msg: string, table: EscapeTable) returns (dest: nat, i: nat)
      requires InBounds() && table.Built() && buffer as object != table.words
      modifies buffer
      ensures i == HttpTaken(BUFFER_SIZE - bufferEnd, msg, 0) && bufferEnd <= dest <= BUFFER_SIZE
      ensures buffer[bufferStart..dest] == old(Pending()) + EscapeText(msg[..i])
    {
      hide EscapeText, EscapeChar, Marks, SPECIAL;
      ghost var before, words, out := Pending(), table.words[..], "";
      var left := BUFFER_SIZE - bufferEnd;
      dest, i := bufferEnd, 0;
      EmptyText();
      assert msg[..0] == "";
      while i < |msg| && left >= 3
        modifies buffer
        invariant i <= |msg| && 0 <= left == BUFFER_SIZE - dest && dest == bufferEnd + |out|
        invariant out == EscapeText(msg[..i]) && table.words[..] == words
        invariant HttpTaken(BUFFER_SIZE - bufferEnd, msg, 0) == HttpTaken(BUFFER_SIZE - bufferEnd, msg, i)
        invariant buffer[bufferStart..bufferEnd] == before
        invariant forall k :: 0 <= k < |out| ==> buffer[bufferEnd + k] == out[k]
      {
        HttpStep(msg, i);
        var n := PutHttp(dest, msg[i], table);
        dest, left := dest + n, left - n;
        out := out + EscapeChar(msg[i]);
        i := i + 1;
      }
      assert buffer[bufferStart..dest] == before + out;
    }

    /** The loop body of req_write_escape_http: one character, as three when it needs escaping. */
    method PutHttp(dest: nat, c: char, table: EscapeTable) returns (n: nat)
      requires InBounds() && bufferEnd <= dest && dest + 3 <= BUFFER_SIZE
      requires table.Built() && buffer as object != table.words
      modifies buffer
      ensures n == |EscapeChar(c)|
      ensures forall k :: 0 <= k < n ==> buffer[dest + k] == EscapeChar(c)[k]
      ensures forall k :: 0 <= k < dest ==> buffer[k] == old(buffer[k])
    {
      hide Marks, SPECIAL, BitOf, EscapeChar, HexDigit;
      CharForm(table.words[..], c);
      if table.Test(c) {
        buffer[dest] := '%';
        buffer[dest + 1] := HexDigit(c as int / 16 % 16);
        buffer[dest + 2] := HexDigit(c as int % 16);
        return 3;
      }
      buffer[dest] := c;
      return 1;
    }

    /** req_write_escape_html; it does not look at the status. */
    method ReqWriteEscapeHtml(msg: string) returns (r: Option<nat>)
      requires Valid()
      modifies this`status, this`bufferEnd, this`appended, this`stream, buffer
      ensures Valid()
      ensures if HtmlFits(BUFFER_SIZE - old(bufferEnd), msg)
              then r == Some(bufferEnd) && status == old(status)
                   && appended == old(appended) + EscapeHtml(msg) && Pending() == old(Pending()) + EscapeHtml(msg)
                   && stream == Stored(old(stream), EscapeHtml(msg))
              else r == None && status == DEAD
                   && Pending() == old(Pending()) + EscapeHtml(msg[..HtmlTaken(BUFFER_SIZE - old(bufferEnd), msg, 0)])
    {
      hide EscapeHtml, HtmlTaken, HtmlFits;
      ghost var before, out := Pending(), EscapeHtml(msg);
      HtmlTakenAll(BUFFER_SIZE - bufferEnd, msg, 0);
      var dest, i := FillHtml(msg);
      bufferEnd := dest;
      if i < |msg| {
        status := DEAD;
        return None;
      }
      assert msg[..i] == msg;
      Assoc(sent, before, out);
      appended := appended + out;
      if Backs(stream, before) {
        StoredKeeps(stream, out, before);
      }
      stream := Stored(stream, out);
      return Some(bufferEnd);
    }

    /** The loop of req_write_escape_html */
    method FillHtml(msg: string) returns (dest: nat, i: nat)
      requires InBounds()
      modifies buffer
      ensures i == HtmlTaken(BUFFER_SIZE - bufferEnd, msg, 0) && bufferEnd <= dest <= BUFFER_SIZE
      ensures buffer[bufferStart..dest] == old(Pending()) + EscapeHtml(msg[..i])
    {
      hide EscapeHtml, HtmlChar;
      ghost var before, out := Pending(), "";
      var left := BUFFER_SIZE - bufferEnd;
      dest, i := bufferEnd, 0;
      HtmlEmpty();
      assert msg[..0] == "";
      while i < |msg| && left >= 6
        modifies buffer
        invariant i <= |msg| && 0 <= left == BUFFER_SIZE - dest && dest == bufferEnd + |out|
        invariant out == EscapeHtml(msg[..i])
        invariant HtmlTaken(BUFFER_SIZE - bufferEnd, msg, 0) == HtmlTaken(BUFFER_SIZE - bufferEnd, msg, i)
        invariant buffer[bufferStart..bufferEnd] == before
        invariant forall k :: 0 <= k < |out| ==> buffer[bufferEnd + k] == out[k]
      {
        HtmlStep(msg, i);
        var n := PutHtml(dest, msg[i]);
        dest, left := dest + n, left - n;
        out := out + HtmlChar(msg[i]);
        i := i + 1;
      }
      assert buffer[bufferStart..dest] == before + out;
    }

    /** The switch of req_write_escape_html: one character, as an entity where it needs one. */
    method PutHtml(dest: nat, c: char) returns (n: nat)
      requires InBounds() && bufferEnd <= dest && dest + 6 <= BUFFER_SIZE
      modifies buffer
      ensures n == |HtmlChar(c)|
      ensures forall k :: 0 <= k < n ==> buffer[dest + k] == HtmlChar(c)[k]
      ensures forall k :: 0 <= k < dest ==> buffer[k] == old(buffer[k])
    {
      if c == '>' {
        buffer[dest], buffer[dest + 1], buffer[dest + 2], buffer[dest + 3] := '&', 'g', 't', ';';
        return 4;
      } else if c == '<' {
        buffer[dest], buffer[dest + 1], buffer[dest + 2], buffer[dest + 3] := '&', 'l', 't', ';';
        return 4;
      } else if c == '&' {
        buffer[dest], buffer[dest + 1], buffer[dest + 2] := '&', 'a', 'm';
        buffer[dest + 3], buffer[dest + 4] := 'p', ';';
        return 5;
      } else if c == '"' {
        buffer[dest], buffer[dest + 1], buffer[dest + 2] := '&', 'q', 'u';
        buffer[dest + 3], buffer[dest + 4], buffer[dest + 5] := 'o', 't', ';';
        return 6;
      } else {
        buffer[dest] := c;
        return 1;
      }
    }

    /** req_flush: -2 for an error, -1 when blocked, otherwise how much is stored. */
    method ReqFlush(w: IoResult) returns (r: int)
      requires Valid() && (w.Moved? ==> w.count <= bufferEnd - bufferStart)
      modifies this`status, this`bufferStart, this`bufferEnd, this`sent, this`stream
      ensures Valid() && r == (if r < 0 then r else bufferEnd) && -2 <= r && stream.made == old(stream.made)
      ensures !Over(status) ==> (InOrder(stream) <==> old(InOrder(stream))) && Consistent()
      ensures old(Over(status)) ==> r == -2 && unchanged(this)
      ensures !old(Over(status)) && old(bufferStart == bufferEnd) ==>
                r == 0 && sent == old(sent) && stream == old(stream) && status == old(status) && bufferEnd == 0
      ensures !old(Over(status)) && old(bufferStart < bufferEnd) ==>
        match w
        case Blocked => r == -1 && sent == old(sent) && stream == old(stream) && status == old(status)
                        && bufferStart == old(bufferStart) && bufferEnd == old(bufferEnd)
        case Failed => r == -2 && sent == old(sent) && status == DEAD && bufferStart == bufferEnd == 0
        case Moved(n) => r >= 0 && sent == old(sent) + old(Pending())[..n] && status == old(status)
                         && |sent| == |old(sent)| + n
                         && n <= |old(stream).waiting| && stream == Flushed(old(stream), n)
                         && Pending() == old(Pending())[n..] && (r == 0 <==> n == old(bufferEnd - bufferStart))
    {
      var bytesToWrite := bufferEnd - bufferStart;
      if Over(status) {
        return -2;
      }
      if bytesToWrite != 0 {
        match w {
          case Blocked =>
            return -1;
          case Failed =>
            bufferStart, bufferEnd := 0, 0;
            status := DEAD;
            return -2;
          case Moved(n) =>
            ghost var before := Pending();
            sent := sent + before[..n];
            bufferStart := bufferStart + n;
            assert before[..n] + before[n..] == before;
            Assoc(old(sent), before[..n], before[n..]);
            assert buffer[bufferStart..bufferEnd] == before[n..];
            FlushedKeeps(stream, n, before);
            stream := Flushed(stream, n);
        }
      }
      if bufferStart == bufferEnd {
        bufferStart, bufferEnd := 0, 0;
      }
      return bufferEnd;
    }

    /** An empty buffer starts at the front again. */
    method Rewind()
      requires Valid() && bufferStart == bufferEnd
      modifies this`bufferStart, this`bufferEnd
      ensures Valid() && bufferStart == bufferEnd == 0 && (old(Consistent()) ==> Consistent())
    {
      assert Pending() == "";
      bufferStart, bufferEnd := 0, 0;
      assert Pending() == "";
    }

    /** Any run of buffer operations: what it appended reaches the socket in order, whatever the socket takes. */
    method Play(events: seq<Event>, table: EscapeTable)
      requires Valid() && table.Built() && buffer as object != table.words
      modifies this`status, this`bufferStart, this`bufferEnd, this`sent, this`appended, this`stream, buffer
      ensures Valid() && (old(Over(status)) ==> Over(status))
      ensures !Over(status) ==> sent + Pending() == old(appended) + Contents(events)
    {
      hide EscapeText, EscapeHtml, HttpFits, HtmlFits, Marks, SPECIAL, Contents;
      ghost var words := table.words[..];
      ContentsStep(events, 0);
      assert appended == old(appended) + [];
      for i := 0 to |events|
        invariant Valid() && table.words[..] == words && (old(Over(status)) ==> Over(status))
        invariant !Over(status) ==> appended == old(appended) + Contents(events[..i])
      {
        ContentsStep(events, i);
        Assoc(old(appended), Contents(events[..i]), Content(events[i]));
        match events[i] {
          case Message(m) => var _ := ReqWrite(m); assert m == "" ==> appended + m == appended;
          case HttpText(m) => var _ := ReqWriteEscapeHttp(m, table);
          case HtmlText(m) => var _ := ReqWriteEscapeHtml(m);
          case Flush(w) =>
            var left := bufferEnd - bufferStart;
            var _ := ReqFlush(if w.Moved? && w.count > left then Moved(left) else w);
            assert appended + "" == appended;
        }
      }
      assert events[..|events|] == events;
    }

    /** The socket has received a prefix of what was appended, and what is missing waits in the buffer, in order. */
    lemma FirstInFirstOut()
      requires Valid() && !Over(status)
      ensures sent <= appended && appended[|sent|..] == Pending()
      ensures bufferStart == bufferEnd ==> sent == appended
    {
      assert (sent + Pending())[|sent|..] == Pending();
      assert bufferStart == bufferEnd ==> sent + Pending() == sent;
    }
  }

  datatype Event = Message(m: string) | HttpText(m: string) | HtmlText(m: string) | Flush(w: IoResult)

  function Content(e: Event): string {
    match e
    case Message(m) => m
    case HttpText(m) => EscapeText(m)
    case HtmlText(m) => EscapeHtml(m)
    case Flush(_) => ""
  }

  function Contents(es: seq<Event>): string {
    if es == [] then "" else Contents(es[..|es| - 1]) + Content(es[|es| - 1])
  }

  lemma ContentsStep(es: seq<Event>, i: nat)
    requires i <= |es|
    ensures i < |es| ==> Contents(es[..i + 1]) == Contents(es[..i]) + Content(es[i])
    ensures Contents(es[..0]) == ""
  {
    if i < |es| {
      assert es[..i + 1][..i] == es[..i];
    }
  }

  lemma HtmlEmpty()
    ensures EscapeHtml("") == ""
  {
  }

  lemma CharForm(words: seq<bv32>, c: char)
    requires Marks(words, SPECIAL)
    ensures EscapeChar(c) ==
      if BitOf(words, c) then ['%', HexDigit(c as int / 16 % 16), HexDigit(c as int % 16)] else [c]
  {
    hide Marks, SPECIAL, BitOf, HexDigit;
    MarkedIsNeeded(words, c);
  }
}
