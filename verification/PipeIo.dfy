/** headerPrefixPipe itself: the overflow buffer, the persistent buffered reader and the two scanning loops. */
module PipeIo {
  import opened Prelude
  import opened Text
  import opened PipeFraming

  /** The wrapped stdio. Its reads return the peer's output in arbitrary chunks, empty ones included, and
      then end. Its writes accept `room` more bytes and fail from then on. */
  class Stdio {
    var chunks: seq<seq<byte>>
    var sent: seq<byte>
    var room: nat

    constructor (chunks: seq<seq<byte>>, room: nat)
      ensures this.chunks == chunks && sent == [] && this.room == room
    {
      this.chunks, this.sent, this.room := chunks, [], room;
    }

    method Write(p: seq<byte>) returns (n: nat, ok: bool)
      modifies this`sent, this`room
      ensures n == Min(|p|, old(room)) && ok == (n == |p|)
      ensures sent == old(sent) + p[..n] && room == old(room) - n
    {
      n := Min(|p|, room);
      ok := n == |p|;
      sent, room := sent + p[..n], room - n;
    }
  }

  /** bufio.Reader: bytes fetched from stdio stay in `pending` between calls. */
  class BufReader {
    const src: Stdio
    var pending: seq<byte>

    constructor (src: Stdio)
      ensures this.src == src && pending == []
    {
      this.src, this.pending := src, [];
    }

    function Unread(): seq<byte>
      reads this, src
    {
      pending + Flatten(src.chunks)
    }

    /** Fetches one chunk; false at the end of the stream. */
    method Fill() returns (more: bool)
      modifies this`pending, src`chunks
      ensures Unread() == old(Unread())
      ensures more ==> |src.chunks| < |old(src.chunks)|
      ensures !more ==> src.chunks == [] && pending == old(pending)
    {
      more := src.chunks != [];
      if more {
        assert pending + src.chunks[0] + Flatten(src.chunks[1..]) == pending + Flatten(src.chunks);
        pending, src.chunks := pending + src.chunks[0], src.chunks[1..];
      }
    }

    method ReadString() returns (line: LineRead)
      modifies this`pending, src`chunks
      ensures line == NextLine(old(Unread()))
      ensures Unread() == if line.Line? then line.rest else []
    {
      while LF !in pending
        invariant Unread() == old(Unread())
        decreases |src.chunks|
      {
        var more := Fill();
        if !more {
          assert Unread() == pending;
          pending := [];
          return NoLine;
        }
      }
      line := NextLine(pending);
      NextLineExtends(pending, Flatten(src.chunks));
      pending := line.rest;
      line := line.(rest := Unread());
    }

    /** io.ReadFull on a buffer of n bytes. */
    method ReadFull(n: nat) returns (r: FrameRead)
      modifies this`pending, src`chunks
      ensures r == TakeContent(n, old(Unread()))
      ensures Unread() == r.rest
    {
      while |pending| < n
        invariant Unread() == old(Unread())
        decreases |src.chunks|
      {
        var more := Fill();
        if !more {
          assert Unread() == pending;
          r := Failed(if pending == [] then Eof else UnexpectedEof, []);
          pending := [];
          return;
        }
      }
      var content := pending[..n];
      TakeContentExtends(n, pending, Flatten(src.chunks));
      pending := pending[n..];
      r := Content(content, Unread());
    }
  }

  /** What a Read with an empty overflow buffer leaves behind, given the frame it met. */
  ghost predicate DeliveredFrame(frame: FrameRead, n: nat, err: Option<ReadError>, p: seq<byte>, view: Pipe) {
    && view.stream == frame.rest
    && n == (if frame.Content? then Min(|p|, |frame.payload|) else 0)
    && err == (if frame.Content? then None else Some(frame.error))
    && (if frame.Content? then p[..n] == frame.payload[..n] && view.buf == frame.payload[n..] else view.buf == [])
  }

  class HeaderPrefixPipe {
    const stdio: Stdio
    var reader: BufReader?
    var buf: seq<byte>

    constructor (stdio: Stdio)
      ensures this.stdio == stdio && Valid() && View() == Pipe([], Flatten(stdio.chunks))
    {
      this.stdio, this.reader, this.buf := stdio, null, [];
    }

    ghost predicate Valid()
      reads this, reader
    {
      reader != null ==> reader.src == stdio
    }

    /** The reader's state, however the stream is split into chunks and whatever was fetched ahead. */
    function View(): Pipe
      reads this, stdio, reader
    {
      Pipe(buf, (if reader == null then [] else reader.pending) + Flatten(stdio.chunks))
    }

    /** Writes the header and then the payload. The count is that of the payload write alone, and a failed
        header write leaves the payload unsent. */
    method Write(p: seq<byte>) returns (n: nat, ok: bool)
      modifies stdio`sent, stdio`room
      ensures ok <==> old(stdio.room) >= |Framed(p)|
      ensures stdio.sent == old(stdio.sent) + Framed(p)[..Min(|Framed(p)|, old(stdio.room))]
      ensures n == if ok then |p| else if old(stdio.room) < |Header(|p|)| then 0 else old(stdio.room) - |Header(|p|)|
    {
      var header := Header(|p|);
      var _, headerOk := stdio.Write(header);
      if !headerOk {
        assert Framed(p)[..old(stdio.room)] == header[..old(stdio.room)];
        return 0, false;
      }
      n, ok := stdio.Write(p);
      assert Framed(p)[..|header| + n] == header + p[..n];
    }

    /** One Read is exactly `ReadFrom` on the whole unread stream, so it does not depend on the chunks. */
    method Read(p: array<byte>) returns (n: nat, err: Option<ReadError>)
      requires Valid()
      modifies this, reader, stdio`chunks, p
      ensures Valid()
      ensures var (out, next) := ReadFrom(old(View()), p.Length);
              && View() == next
              && n == (if out.Bytes? then |out.data| else 0)
              && err == (if out.Bytes? then None else Some(out.error))
              && n <= p.Length && (out.Bytes? ==> p[..n] == out.data)
      ensures n <= p.Length && p[n..] == old(p[..])[n..]
    {
      ghost var before := View();
      // Leftover bytes of an earlier message come first.
      if buf != [] {
        n := CopyInto(p, buf);
        buf := buf[n..];
        return n, None;
      }
      if reader == null {
        reader := new BufReader(stdio);
      }
      assert reader.Unread() == before.stream;
      n, err := ReadMessage(p);
    }

    /** Read with an empty overflow buffer. */
    method ReadMessage(p: array<byte>) returns (n: nat, err: Option<ReadError>)
      requires reader != null && reader.src == stdio && buf == []
      modifies this`buf, reader`pending, stdio`chunks, p
      ensures Valid() && reader != null
      ensures DeliveredFrame(ReadFrame(old(reader.Unread())), n, err, p[..], View())
      ensures n <= p.Length && p[n..] == old(p[..])[n..]
    {
      var scan := ScanHeader(reader);
      match scan {
        case Ended => return 0, Some(Eof);
        case Rejected(_) => return 0, Some(InvalidLength);
        case Found(length, _) => n, err := ReadBody(p, length);
      }
    }

    /** The rest of Read once the length is known. */
    method ReadBody(p: array<byte>, length: int) returns (n: nat, err: Option<ReadError>)
      requires reader != null && reader.src == stdio && buf == []
      modifies this`buf, reader`pending, stdio`chunks, p
      ensures Valid() && reader != null
      ensures DeliveredFrame(PipeFraming.ReadBody(length, old(reader.Unread())), n, err, p[..], View())
      ensures n <= p.Length && p[n..] == old(p[..])[n..]
    {
      var drained := DrainHeaders(reader);
      if !drained {
        return 0, Some(Eof);
      }
      if length < 0 {
        // make([]byte, contentLength) panics.
        return 0, Some(NegativeLengthPanic);
      }
      var content := reader.ReadFull(length);
      if content.Failed? {
        return 0, Some(content.error);
      }
      n := CopyInto(p, content.payload);
      if n < length {
        buf := content.payload[n..];
      }
      return n, None;
    }
  }

  /** The first loop of Read. */
  method ScanHeader(r: BufReader) returns (scan: Scan)
    modifies r`pending, r.src`chunks
    ensures scan == ScanLength(old(r.Unread()))
    ensures r.Unread() == if scan.Ended? then [] else scan.rest
  {
    while true
      invariant ScanLength(r.Unread()) == ScanLength(old(r.Unread()))
      decreases |r.Unread()|
    {
      var line := r.ReadString();
      if line.NoLine? {
        return Ended;
      }
      if !NamesLength(line.text) {
        continue;
      }
      var v := Atoi(TrimSpace(TrimEol(line.text)[|PREFIX|..]));
      return if v.None? then Rejected(line.rest) else Found(v.value, line.rest);
    }
  }

  /** The second loop of Read; false at the end of the stream. */
  method DrainHeaders(r: BufReader) returns (drained: bool)
    modifies r`pending, r.src`chunks
    ensures drained == DrainHeader(old(r.Unread())).Some?
    ensures r.Unread() == if drained then DrainHeader(old(r.Unread())).value else []
  {
    while true
      invariant DrainHeader(r.Unread()) == DrainHeader(old(r.Unread()))
      decreases |r.Unread()|
    {
      var line := r.ReadString();
      if line.NoLine? {
        return false;
      }
      if TrimEol(line.text) == [] {
        return true;
      }
    }
  }

  /** Go's copy: as many bytes as fit, from the start. */
  method CopyInto(p: array<byte>, s: seq<byte>) returns (n: nat)
    modifies p
    ensures n == Min(p.Length, |s|)
    ensures p[..n] == s[..n] && p[n..] == old(p[..])[n..]
  {
    n := Min(p.Length, |s|);
    forall i | 0 <= i < n {
      p[i] := s[i];
    }
  }
}
