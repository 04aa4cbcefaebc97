/** The wire format of headerPrefixPipe, as functions on the whole unread stream.

    A stream is what stdio will still deliver before it ends. `ReadFrom` is the specification of one
    Read call; the methods of module PipeIo are proved against it, and the lemmas here say what a
    sequence of such calls delivers. */
module PipeFraming {
  import opened Prelude
  import opened Text

  /** "Content-Length:" */
  const PREFIX: seq<byte> := [67, 111, 110, 116, 101, 110, 116, 45, 76, 101, 110, 103, 116, 104, 58]
  const CRLF: seq<byte> := [CR, LF]

  // ----- writing -----

  /** The header Write emits before a payload of n bytes, up to the blank separator line. */
  function LengthLine(n: nat): seq<byte> {
    PREFIX + [SPACE] + Print(n) + CRLF
  }

  function Header(n: nat): seq<byte> {
    LengthLine(n) + CRLF
  }

  function Framed(payload: seq<byte>): seq<byte> {
    Header(|payload|) + payload
  }

  // ----- reading -----

  datatype LineRead = Line(text: seq<byte>, rest: seq<byte>) | NoLine

  /** A complete line, its line feed included. */
  ghost predicate IsLine(l: seq<byte>) {
    l != [] && l[|l| - 1] == LF && forall i :: 0 <= i < |l| - 1 ==> l[i] != LF
  }

  /** bufio's ReadString('\n') on the unread stream. */
  function NextLine(s: seq<byte>): (r: LineRead)
    ensures r.Line? ==> IsLine(r.text) && s == r.text + r.rest
    ensures r.NoLine? <==> LF !in s
  {
    if s == [] then NoLine
    else if s[0] == LF then Line([LF], s[1..])
    else match NextLine(s[1..])
      case NoLine => NoLine
      case Line(text, rest) => Line([s[0]] + text, rest)
  }

  predicate NamesLength(line: seq<byte>) {
    PREFIX <= TrimEol(line)
  }

  datatype ReadError = Eof | InvalidLength | UnexpectedEof | NegativeLengthPanic

  datatype Scan = Found(length: int, rest: seq<byte>) | Rejected(rest: seq<byte>) | Ended

  /** The first loop of Read: skip lines until one names a length. Such a line has its first colon at the
      end of the prefix, so what SplitN puts in parts[1] is the text after the prefix. */
  function ScanLength(s: seq<byte>): Scan
    decreases |s|
  {
    match NextLine(s)
    case NoLine => Ended
    case Line(text, rest) =>
      if !NamesLength(text) then ScanLength(rest)
      else match Atoi(TrimSpace(TrimEol(text)[|PREFIX|..]))
        case None => Rejected(rest)
        case Some(v) => Found(v, rest)
  }

  /** The second loop of Read: drop header lines up to and including the blank one. */
  function DrainHeader(s: seq<byte>): Option<seq<byte>>
    decreases |s|
  {
    match NextLine(s)
    case NoLine => None
    case Line(text, rest) => if TrimEol(text) == [] then Some(rest) else DrainHeader(rest)
  }

  datatype FrameRead = Content(payload: seq<byte>, rest: seq<byte>) | Failed(error: ReadError, rest: seq<byte>)

  /** make and io.ReadFull: exactly n bytes, or the error that Read reports. */
  function TakeContent(n: int, s: seq<byte>): FrameRead {
    if n < 0 then Failed(NegativeLengthPanic, s)
    else if n <= |s| then Content(s[..n], s[n..])
    else Failed(if s == [] then Eof else UnexpectedEof, [])
  }

  /** The rest of a frame once its length is known. */
  function ReadBody(n: int, s: seq<byte>): FrameRead {
    match DrainHeader(s)
    case None => Failed(Eof, [])
    case Some(body) => TakeContent(n, body)
  }

  function ReadFrame(s: seq<byte>): FrameRead {
    match ScanLength(s)
    case Ended => Failed(Eof, [])
    case Rejected(rest) => Failed(InvalidLength, rest)
    case Found(n, rest) => ReadBody(n, rest)
  }

  /** What a reader holds: the overflow of an earlier message, and the unread stream. */
  datatype Pipe = Pipe(buf: seq<byte>, stream: seq<byte>)

  datatype Outcome = Bytes(data: seq<byte>) | Error(error: ReadError)

  /** Specification of Read(p) with len(p) == size. */
  function ReadFrom(p: Pipe, size: nat): (Outcome, Pipe) {
    if p.buf != [] then
      var n := Min(size, |p.buf|);
      (Bytes(p.buf[..n]), Pipe(p.buf[n..], p.stream))
    else match ReadFrame(p.stream)
      case Failed(e, rest) => (Error(e), Pipe([], rest))
      case Content(c, rest) =>
        var n := Min(size, |c|);
        (Bytes(c[..n]), Pipe(c[n..], rest))
  }

  // ----- what a peer puts on the stream -----

  /** Output of the peer for one message: stray lines it printed, extra header lines, and the payload. */
  datatype Frame = Frame(strays: seq<seq<byte>>, extras: seq<seq<byte>>, payload: seq<byte>)

  ghost predicate ValidFrame(f: Frame) {
    && (forall i :: 0 <= i < |f.strays| ==> IsLine(f.strays[i]) && !(PREFIX <= f.strays[i]))
    && (forall i :: 0 <= i < |f.extras| ==> IsLine(f.extras[i]) && TrimEol(f.extras[i]) != [])
    && |f.payload| <= MAX_INT
  }

  ghost predicate ValidFrames(fs: seq<Frame>) {
    forall i :: 0 <= i < |fs| ==> ValidFrame(fs[i])
  }

  /** What comes before the payload. */
  function Head(f: Frame): seq<byte> {
    Flatten(f.strays) + LengthLine(|f.payload|) + Flatten(f.extras) + CRLF
  }

  function Encode(f: Frame): seq<byte> {
    Head(f) + f.payload
  }

  function EncodeAll(fs: seq<Frame>): seq<byte> {
    if fs == [] then [] else Encode(fs[0]) + EncodeAll(fs[1..])
  }

  function Payloads(fs: seq<Frame>): seq<byte> {
    if fs == [] then [] else fs[0].payload + Payloads(fs[1..])
  }

  /** The bytes of a text of one-byte characters. */
  function Ascii(t: string): seq<byte>
  {
    seq(|t|, i requires 0 <= i < |t| => t[i] as int % 256)
  }

  lemma HeaderText()
    ensures Ascii("Content-Length: ") == PREFIX + [SPACE] && Ascii("\r\n\r\n") == CRLF + CRLF
  {
    var t := "Content-Length: ";
    assert t[..8] == "Content-" && t[8..] == "Length: ";
    forall i | 0 <= i < 16
      ensures Ascii(t)[i] == (PREFIX + [SPACE])[i]
    {
    }
  }

  lemma Regroup(a: seq<byte>, b: seq<byte>, c: seq<byte>, d: seq<byte>)
    ensures a + b + c + d == a + (b + c) + d
  {
  }

  /** What Write puts on the stream, spelled out. */
  lemma FramedText(payload: seq<byte>)
    ensures Framed(payload) == Ascii("Content-Length: ") + Print(|payload|) + Ascii("\r\n\r\n") + payload
  {
    HeaderText();
    Regroup(PREFIX + [SPACE] + Print(|payload|), CRLF, CRLF, payload);
  }

  lemma FramedIsBareFrame(payload: seq<byte>)
    ensures Encode(Frame([], [], payload)) == Framed(payload)
  {
  }

  // ----- one frame -----

  lemma {:induction false} NextLineAppend(l: seq<byte>, s: seq<byte>)
    requires IsLine(l)
    ensures NextLine(l + s) == Line(l, s)
  {
    if l[0] == LF {
      assert l == [LF] && (l + s)[1..] == s;
    } else {
      assert (l + s)[1..] == l[1..] + s;
      NextLineAppend(l[1..], s);
      assert [l[0]] + l[1..] == l;
    }
  }

  lemma PrefixSurvivesTrim(l: seq<byte>)
    ensures NamesLength(l) <==> PREFIX <= l
  {
    if PREFIX <= l {
      assert !IsEol(l[|PREFIX| - 1]);
    }
  }

  lemma {:induction false} ScanSkipsStrays(strays: seq<seq<byte>>, s: seq<byte>)
    requires forall i :: 0 <= i < |strays| ==> IsLine(strays[i]) && !(PREFIX <= strays[i])
    ensures ScanLength(Flatten(strays) + s) == ScanLength(s)
  {
    if strays == [] {
      assert Flatten(strays) + s == s;
    } else {
      var tail := Flatten(strays[1..]) + s;
      assert Flatten(strays) + s == strays[0] + tail;
      NextLineAppend(strays[0], tail);
      PrefixSurvivesTrim(strays[0]);
      ScanSkipsStrays(strays[1..], s);
    }
  }

  /** Exactly the lines that do not start with the prefix can be printed before a header: such a line never
      changes what the scan finds, and any other line always does on some stream. */
  lemma StrayIsSkippedIff(l: seq<byte>)
    requires IsLine(l)
    ensures (forall s: seq<byte> :: ScanLength(l + s) == ScanLength(s)) <==> !(PREFIX <= l)
  {
    PrefixSurvivesTrim(l);
    if PREFIX <= l {
      NextLineAppend(l, []);
      assert ScanLength(l + []) != ScanLength([]);
    } else {
      forall s: seq<byte>
        ensures ScanLength(l + s) == ScanLength(s)
      {
        NextLineAppend(l, s);
      }
    }
  }

  /** Why stray output must end in a newline: an unterminated fragment joins the length line, and unless
      the joined line still starts with the prefix the whole header is skipped as stray output. */
  lemma UnterminatedStrayHidesHeader(fragment: seq<byte>, n: nat, s: seq<byte>)
    requires LF !in fragment && !(PREFIX <= fragment + LengthLine(n))
    ensures ScanLength(fragment + LengthLine(n) + s) == ScanLength(s)
  {
    NumberLineIsLine(fragment + PREFIX, Print(n));
    var l := fragment + LengthLine(n);
    assert l == fragment + PREFIX + [SPACE] + Print(n) + CRLF;
    NextLineAppend(l, s);
    PrefixSurvivesTrim(l);
  }

  lemma TrimEolOfCrlf(t: seq<byte>)
    requires t != [] && !IsEol(t[|t| - 1])
    ensures TrimEol(t + CRLF) == t
  {
    assert (t + CRLF)[|t| - 1] == t[|t| - 1];
    assert IsEol((t + CRLF)[|t|]) && IsEol((t + CRLF)[|t| + 1]);
  }

  lemma NumberLineIsLine(prefix: seq<byte>, digits: seq<byte>)
    requires LF !in prefix && AllDigits(digits)
    ensures IsLine(prefix + [SPACE] + digits + CRLF)
  {
    var l := prefix + [SPACE] + digits + CRLF;
    assert forall i :: |prefix| < i < |l| - 2 ==> l[i] == digits[i - |prefix| - 1];
  }

  lemma NumberLineTrims(prefix: seq<byte>, digits: seq<byte>)
    requires digits != [] && AllDigits(digits)
    ensures TrimEol(prefix + [SPACE] + digits + CRLF) == prefix + [SPACE] + digits
  {
    var text := prefix + [SPACE] + digits;
    assert text[|text| - 1] == digits[|digits| - 1];
    TrimEolOfCrlf(text);
  }

  lemma NumberParsed(prefix: seq<byte>, n: nat)
    requires n <= MAX_INT
    ensures Atoi(TrimSpace((prefix + [SPACE] + Print(n))[|prefix|..])) == Some(n)
  {
    assert (prefix + [SPACE] + Print(n))[|prefix|..] == [SPACE] + Print(n);
    TrimSpaceOfPrint(n);
    AtoiOfPrint(n);
  }

  lemma ScanFindsLength(n: nat, s: seq<byte>)
    requires n <= MAX_INT
    ensures ScanLength(LengthLine(n) + s) == Found(n, s)
  {
    hide Atoi, TrimSpace, Print;
    NumberLineIsLine(PREFIX, Print(n));
    NumberLineTrims(PREFIX, Print(n));
    NumberParsed(PREFIX, n);
    NextLineAppend(LengthLine(n), s);
  }

  lemma {:induction false} DrainSkipsExtras(extras: seq<seq<byte>>, s: seq<byte>)
    requires forall i :: 0 <= i < |extras| ==> IsLine(extras[i]) && TrimEol(extras[i]) != []
    ensures DrainHeader(Flatten(extras) + CRLF + s) == Some(s)
  {
    if extras == [] {
      assert Flatten(extras) + CRLF + s == CRLF + s;
      NextLineAppend(CRLF, s);
    } else {
      var tail := Flatten(extras[1..]) + CRLF + s;
      assert Flatten(extras) + CRLF + s == extras[0] + tail;
      NextLineAppend(extras[0], tail);
      DrainSkipsExtras(extras[1..], s);
    }
  }

  lemma {:induction false} ScanConsumes(s: seq<byte>)
    ensures ScanLength(s).Found? ==> |ScanLength(s).rest| < |s|
    decreases |s|
  {
    if NextLine(s).Line? && !NamesLength(NextLine(s).text) {
      ScanConsumes(NextLine(s).rest);
    }
  }

  /** A non-empty fragment can complete the prefix only by starting with a prefix of its own. */
  lemma PrefixNeedsItsOwn(fragment: seq<byte>, n: nat)
    requires fragment != [] && PREFIX <= fragment + LengthLine(n)
    ensures PREFIX <= fragment
  {
    var l := fragment + LengthLine(n);
    assert l[|fragment|] == PREFIX[0];
    assert forall i :: 0 < i < |PREFIX| ==> l[i] == PREFIX[i] != PREFIX[0];
    assert l[..|PREFIX|] == fragment[..|PREFIX|];
  }

  /** ... and then what is behind it is no number. */
  lemma JoinedLineIsRejected(fragment: seq<byte>, n: nat, s: seq<byte>)
    requires LF !in fragment && PREFIX <= fragment
    ensures ScanLength(fragment + LengthLine(n) + s) == Rejected(s)
  {
    var text := fragment + PREFIX + [SPACE] + Print(n);
    var l := fragment + LengthLine(n);
    assert l == text + CRLF == fragment + PREFIX + [SPACE] + Print(n) + CRLF;
    NumberLineIsLine(fragment + PREFIX, Print(n));
    NumberLineTrims(fragment + PREFIX, Print(n));
    NextLineAppend(l, s);
    PrefixSurvivesTrim(l);
    var colon: byte := 58;
    assert text[|fragment| + |PREFIX| - 1] == colon;
    assert text[|PREFIX|..][|fragment| - 1] == colon;
    TrimSpaceKeeps(text[|PREFIX|..], colon);
    AtoiRejects(TrimSpace(text[|PREFIX|..]), colon);
  }

  /** Exactly when output without a final newline is harmless before a header: if there is none of it. Any
      other either hides the header or spoils its length. */
  lemma UnterminatedStrayIsHarmlessIff(fragment: seq<byte>, n: nat, s: seq<byte>)
    requires LF !in fragment && n <= MAX_INT
    ensures ScanLength(fragment + LengthLine(n) + s) == Found(n, s) <==> fragment == []
  {
    if fragment == [] {
      assert fragment + LengthLine(n) + s == LengthLine(n) + s;
      ScanFindsLength(n, s);
    } else if PREFIX <= fragment + LengthLine(n) {
      PrefixNeedsItsOwn(fragment, n);
      JoinedLineIsRejected(fragment, n, s);
    } else {
      UnterminatedStrayHidesHeader(fragment, n, s);
      ScanConsumes(s);
    }
  }

  /** Behind the head of a frame, exactly as many bytes are taken as the payload has. */
  lemma ReadFrameOfHead(f: Frame, s: seq<byte>)
    requires ValidFrame(f)
    ensures ReadFrame(Head(f) + s) == TakeContent(|f.payload|, s)
  {
    var drained := Flatten(f.extras) + CRLF + s;
    var counted := LengthLine(|f.payload|) + drained;
    assert Head(f) + s == Flatten(f.strays) + counted;
    ScanSkipsStrays(f.strays, counted);
    ScanFindsLength(|f.payload|, drained);
    DrainSkipsExtras(f.extras, s);
  }

  /** Parsing undoes framing: a frame at the head of any stream yields exactly its payload and leaves
      exactly what follows it. */
  lemma ReadFrameOfEncode(f: Frame, s: seq<byte>)
    requires ValidFrame(f)
    ensures ReadFrame(Encode(f) + s) == Content(f.payload, s)
  {
    hide Head, ReadFrame;
    assert Encode(f) + s == Head(f) + (f.payload + s);
    ReadFrameOfHead(f, f.payload + s);
  }

  lemma ScanOfHead(f: Frame)
    requires ValidFrame(f)
    ensures ScanLength(Head(f)) == Found(|f.payload|, Flatten(f.extras) + CRLF)
    ensures DrainHeader(Flatten(f.extras) + CRLF) == Some([])
  {
    var drained := Flatten(f.extras) + CRLF;
    assert Head(f) == Flatten(f.strays) + (LengthLine(|f.payload|) + drained);
    ScanSkipsStrays(f.strays, LengthLine(|f.payload|) + drained);
    ScanFindsLength(|f.payload|, drained);
    assert drained + [] == drained;
    DrainSkipsExtras(f.extras, []);
  }

  lemma HeadBreaksOff(f: Frame, k: nat)
    requires ValidFrame(f) && k < |Head(f)|
    ensures ReadFrame(Head(f)[..k]) == Failed(Eof, [])
  {
    hide Head;
    var (s, tail) := (Head(f)[..k], Head(f)[k..]);
    assert s + tail == Head(f);
    ScanOfHead(f);
    if !ScanLength(s).Ended? {
      ScanExtends(s, tail);
      var rest := ScanLength(s).rest;
      if DrainHeader(rest).Some? {
        DrainExtends(rest, tail);
      }
    }
  }

  /** A frame that breaks off is never delivered, not even in part: the Read fails with an unexpected end of file
      if some of the payload has come, and with an end of file otherwise. */
  lemma TruncatedFrameIsNotDelivered(f: Frame, k: nat)
    requires ValidFrame(f) && k < |Encode(f)|
    ensures ReadFrame(Encode(f)[..k]) ==
            Failed(if k > |Encode(f)| - |f.payload| then UnexpectedEof else Eof, [])
  {
    hide Head, ReadFrame;
    if k < |Head(f)| {
      assert Encode(f)[..k] == Head(f)[..k];
      HeadBreaksOff(f, k);
    } else {
      var part := f.payload[..k - |Head(f)|];
      assert Encode(f)[..k] == Head(f) + part;
      ReadFrameOfHead(f, part);
    }
  }

  /** A header whose length is negative reads as one; the Read then panics, after the header was consumed. */
  lemma NegativeLengthPanics(n: nat, s: seq<byte>)
    requires 0 < n <= MAX_INT
    ensures ReadFrame(PREFIX + [SPACE] + ([MINUS] + Print(n)) + CRLF + CRLF + s) == Failed(NegativeLengthPanic, s)
  {
    var l := PREFIX + [SPACE] + ([MINUS] + Print(n)) + CRLF;
    assert l + (CRLF + s) == l + CRLF + s;
    NegativeLineReads(n, CRLF + s);
    NextLineAppend(CRLF, s);
  }

  lemma LengthTextReads(number: seq<byte>, v: int, s: seq<byte>)
    requires number != [] && !IsEol(number[|number| - 1]) && IsLine(PREFIX + [SPACE] + number + CRLF)
    requires TrimSpace([SPACE] + number) == number && Atoi(number) == Some(v)
    ensures ScanLength(PREFIX + [SPACE] + number + CRLF + s) == Found(v, s)
  {
    hide Atoi, TrimSpace;
    var text := PREFIX + [SPACE] + number;
    assert text[|text| - 1] == number[|number| - 1] && text[|PREFIX|..] == [SPACE] + number;
    TrimEolOfCrlf(text);
    NextLineAppend(text + CRLF, s);
  }

  lemma NegativeLineReads(n: nat, s: seq<byte>)
    requires n <= MAX_INT
    ensures ScanLength(PREFIX + [SPACE] + ([MINUS] + Print(n)) + CRLF + s) == Found(0 - n, s)
  {
    hide Print, Atoi, TrimSpace, ScanLength;
    var digits := [MINUS] + Print(n);
    assert digits[|digits| - 1] == Print(n)[|Print(n)| - 1];
    NegativeLineIsLine(n);
    NegativeTrims(n);
    AtoiOfPrint(n);
    LengthTextReads(digits, 0 - n, s);
  }

  lemma NegativeLineIsLine(n: nat)
    ensures IsLine(PREFIX + [SPACE] + ([MINUS] + Print(n)) + CRLF)
  {
    var l := PREFIX + [SPACE] + ([MINUS] + Print(n)) + CRLF;
    assert forall i :: |PREFIX| + 2 <= i < |l| - 2 ==> l[i] == Print(n)[i - |PREFIX| - 2];
  }

  lemma NegativeTrims(n: nat)
    ensures TrimSpace([SPACE] + ([MINUS] + Print(n))) == [MINUS] + Print(n)
  {
    var digits := [MINUS] + Print(n);
    assert ([SPACE] + digits)[1..] == digits && digits[|digits| - 1] == Print(n)[|Print(n)| - 1];
    assert TrimSpaceLeft(digits) == digits && TrimSpaceRight(digits) == digits;
  }

  /** A length line whose length holds a byte that is no digit, sign or white space is consumed and reported. */
  lemma JunkLengthIsInvalid(l: seq<byte>, b: byte, s: seq<byte>)
    requires IsLine(l) && PREFIX <= TrimEol(l) && b in TrimEol(l)[|PREFIX|..]
    requires !IsDigit(b) && !IsSpace(b) && b != MINUS && b != PLUS
    ensures ReadFrame(l + s) == Failed(InvalidLength, s)
  {
    NextLineAppend(l, s);
    TrimSpaceKeeps(TrimEol(l)[|PREFIX|..], b);
    AtoiRejects(TrimSpace(TrimEol(l)[|PREFIX|..]), b);
  }

  /** So is a length that does not fit a 64-bit int. */
  lemma HugeLengthIsInvalid(n: nat, s: seq<byte>)
    requires n > MAX_INT
    ensures ReadFrame(LengthLine(n) + s) == Failed(InvalidLength, s)
  {
    hide Atoi, TrimSpace, Print;
    var l := LengthLine(n);
    NumberLineIsLine(PREFIX, Print(n));
    NumberLineTrims(PREFIX, Print(n));
    assert TrimEol(l)[|PREFIX|..] == [SPACE] + Print(n);
    TrimSpaceOfPrint(n);
    AtoiOfPrint(n);
    NextLineAppend(l, s);
  }

  // ----- any sequence of reads -----

  /** The outcomes of successive Reads with the given buffer sizes, and the state they leave. */
  function Reads(p: Pipe, sizes: seq<nat>): (seq<Outcome>, Pipe)
    decreases |sizes|
  {
    if sizes == [] then ([], p)
    else
      var (first, next) := ReadFrom(p, sizes[0]);
      var (others, last) := Reads(next, sizes[1..]);
      ([first] + others, last)
  }

  function Delivered(outcomes: seq<Outcome>): seq<byte> {
    if outcomes == [] then []
    else (if outcomes[0].Bytes? then outcomes[0].data else []) + Delivered(outcomes[1..])
  }

  lemma ReadFrameOfNothing()
    ensures ReadFrame([]) == Failed(Eof, [])
  {
  }

  /** One Read on a stream of whole frames. It returns a prefix of a single message, never of two: of the
      message in the overflow buffer if there is one, else of the next frame. It fails only when nothing
      is left, and then it consumes nothing. */
  lemma ReadOfFrames(buf: seq<byte>, fs: seq<Frame>, size: nat)
    requires ValidFrames(fs)
    ensures var (out, next) := ReadFrom(Pipe(buf, EncodeAll(fs)), size);
            if buf == [] && fs == [] then
              out == Error(Eof) && next == Pipe([], [])
            else
              var message := if buf != [] then buf else fs[0].payload;
              var behind := if buf != [] then fs else fs[1..];
              && out.Bytes? && |out.data| == Min(size, |message|)
              && out.data + next.buf == message
              && next.stream == EncodeAll(behind)
  {
    hide ReadFrame, Encode;
    ReadFrameOfNothing();
    if buf == [] && fs != [] {
      ReadFrameOfEncode(fs[0], EncodeAll(fs[1..]));
    }
  }

  /** After any reads: the first k frames were consumed, and what was delivered together with the overflow
      buffer is exactly their payloads. */
  ghost predicate CaughtUp(delivered: seq<byte>, p: Pipe, held: seq<byte>, fs: seq<Frame>, k: nat) {
    k <= |fs| && p.stream == EncodeAll(fs[k..]) && delivered + p.buf == held + Payloads(fs[..k])
  }

  lemma ReadsUnfold(p: Pipe, sizes: seq<nat>)
    requires sizes != []
    ensures var (out, next) := ReadFrom(p, sizes[0]);
            var chunk := if out.Bytes? then out.data else [];
            && Delivered(Reads(p, sizes).0) == chunk + Delivered(Reads(next, sizes[1..]).0)
            && Reads(p, sizes).1 == Reads(next, sizes[1..]).1
  {
    var next := ReadFrom(p, sizes[0]).1;
    assert Reads(p, sizes).0[1..] == Reads(next, sizes[1..]).0;
  }

  lemma CaughtUpInBuffer(chunk: seq<byte>, more: seq<byte>, left: seq<byte>, last: Pipe, fs: seq<Frame>, k: nat)
    requires CaughtUp(more, last, left, fs, k)
    ensures CaughtUp(chunk + more, last, chunk + left, fs, k)
  {
    assert chunk + more + last.buf == chunk + (more + last.buf);
    assert chunk + left + Payloads(fs[..k]) == chunk + (left + Payloads(fs[..k]));
  }

  lemma CaughtUpNextFrame(chunk: seq<byte>, more: seq<byte>, left: seq<byte>, last: Pipe, fs: seq<Frame>, k: nat)
    requires fs != [] && chunk + left == fs[0].payload && CaughtUp(more, last, left, fs[1..], k)
    ensures CaughtUp(chunk + more, last, [], fs, k + 1)
  {
    CaughtUpInBuffer(chunk, more, left, last, fs[1..], k);
    assert fs[..k + 1][1..] == fs[1..][..k] && fs[1..][k..] == fs[k + 1..];
    assert [] + Payloads(fs[..k + 1]) == fs[0].payload + Payloads(fs[1..][..k]);
  }

  lemma {:induction false} ReadsOfFrames(buf: seq<byte>, fs: seq<Frame>, sizes: seq<nat>) returns (k: nat)
    requires ValidFrames(fs)
    ensures var (outs, last) := Reads(Pipe(buf, EncodeAll(fs)), sizes);
            CaughtUp(Delivered(outs), last, buf, fs, k)
    decreases |sizes|
  {
    if sizes == [] {
      assert fs[0..] == fs;
      k := 0;
    } else {
      var p := Pipe(buf, EncodeAll(fs));
      var (out, next) := ReadFrom(p, sizes[0]);
      var chunk := if out.Bytes? then out.data else [];
      var (outs, last) := Reads(next, sizes[1..]);
      ReadOfFrames(buf, fs, sizes[0]);
      ReadsUnfold(p, sizes);
      if buf != [] || fs == [] {
        k := ReadsOfFrames(next.buf, fs, sizes[1..]);
        CaughtUpInBuffer(chunk, Delivered(outs), next.buf, last, fs, k);
      } else {
        k := ReadsOfFrames(next.buf, fs[1..], sizes[1..]);
        CaughtUpNextFrame(chunk, Delivered(outs), next.buf, last, fs, k);
        k := k + 1;
      }
    }
  }

  lemma {:induction false} PayloadsSplit(fs: seq<Frame>, k: nat)
    requires k <= |fs|
    ensures Payloads(fs) == Payloads(fs[..k]) + Payloads(fs[k..])
  {
    if k == 0 {
      assert fs[0..] == fs;
    } else {
      PayloadsSplit(fs[1..], k - 1);
      assert fs[..k][1..] == fs[1..][..k - 1] && fs[1..][k - 1..] == fs[k..];
    }
  }

  /** The framing round trip. Whatever the messages, the stray and extra lines around them and the buffer
      sizes (0 included), at every moment the bytes delivered, the overflow buffer and the payloads still
      framed in the stream add up to the concatenation of the messages, in order. */
  lemma FramingRoundTrip(fs: seq<Frame>, sizes: seq<nat>)
    requires ValidFrames(fs)
    ensures var (outs, last) := Reads(Pipe([], EncodeAll(fs)), sizes);
            exists k :: 0 <= k <= |fs| && last.stream == EncodeAll(fs[k..])
              && Delivered(outs) + last.buf + Payloads(fs[k..]) == Payloads(fs)
  {
    var k := ReadsOfFrames([], fs, sizes);
    PayloadsSplit(fs, k);
    var (outs, last) := Reads(Pipe([], EncodeAll(fs)), sizes);
    assert Delivered(outs) + last.buf == Payloads(fs[..k]);
    assert last.stream == EncodeAll(fs[k..]);
  }

  /** What is still owed to the reader: bytes, plus one for every frame so that empty messages count. */
  function Owed(buf: seq<byte>, fs: seq<Frame>): nat {
    |buf| + |Payloads(fs)| + |fs|
  }

  function Behind(buf: seq<byte>, fs: seq<Frame>): seq<Frame> {
    if buf != [] || fs == [] then fs else fs[1..]
  }

  lemma OwedDrops(data: seq<byte>, left: seq<byte>, buf: seq<byte>, fs: seq<Frame>)
    requires buf != [] || fs != []
    requires data + left == if buf != [] then buf else fs[0].payload
    requires data == [] ==> left == []
    ensures data + (left + Payloads(Behind(buf, fs))) == buf + Payloads(fs)
    ensures Owed(left, Behind(buf, fs)) < Owed(buf, fs)
  {
    assert data + (left + Payloads(Behind(buf, fs))) == (data + left) + Payloads(Behind(buf, fs));
  }

  lemma ReadMakesProgress(buf: seq<byte>, fs: seq<Frame>, size: nat)
    requires ValidFrames(fs) && size > 0
    ensures var (out, next) := ReadFrom(Pipe(buf, EncodeAll(fs)), size);
            var chunk := if out.Bytes? then out.data else [];
            && next.stream == EncodeAll(Behind(buf, fs))
            && chunk + (next.buf + Payloads(Behind(buf, fs))) == buf + Payloads(fs)
            && (Owed(buf, fs) > 0 ==> Owed(next.buf, Behind(buf, fs)) < Owed(buf, fs))
            && (Owed(buf, fs) == 0 ==> Owed(next.buf, Behind(buf, fs)) == 0)
  {
    ReadOfFrames(buf, fs, size);
    if buf != [] || fs != [] {
      var (out, next) := ReadFrom(Pipe(buf, EncodeAll(fs)), size);
      OwedDrops(out.data, next.buf, buf, fs);
    }
  }

  /** Reads with non-empty buffers make progress: as many of them as there are bytes and frames deliver
      everything. */
  lemma {:induction false} ReadsDeliverEverything(buf: seq<byte>, fs: seq<Frame>, sizes: seq<nat>)
    requires ValidFrames(fs)
    requires forall i :: 0 <= i < |sizes| ==> sizes[i] > 0
    requires |sizes| >= Owed(buf, fs)
    ensures Delivered(Reads(Pipe(buf, EncodeAll(fs)), sizes).0) == buf + Payloads(fs)
    decreases |sizes|
  {
    if sizes != [] {
      var p := Pipe(buf, EncodeAll(fs));
      ReadMakesProgress(buf, fs, sizes[0]);
      ReadsUnfold(p, sizes);
      ReadsDeliverEverything(ReadFrom(p, sizes[0]).1.buf, Behind(buf, fs), sizes[1..]);
    }
  }

  // ----- a stream that is still growing -----

  lemma {:induction false} NextLineExtends(s: seq<byte>, t: seq<byte>)
    requires NextLine(s).Line?
    ensures NextLine(s + t) == Line(NextLine(s).text, NextLine(s).rest + t)
  {
    var Line(text, rest) := NextLine(s);
    assert s + t == text + (rest + t);
    NextLineAppend(text, rest + t);
  }

  lemma {:induction false} ScanExtends(s: seq<byte>, t: seq<byte>)
    requires !ScanLength(s).Ended?
    ensures ScanLength(s + t) == ScanLength(s).(rest := ScanLength(s).rest + t)
    decreases |s|
  {
    NextLineExtends(s, t);
    if !NamesLength(NextLine(s).text) {
      ScanExtends(NextLine(s).rest, t);
    }
  }

  lemma {:induction false} DrainExtends(s: seq<byte>, t: seq<byte>)
    requires DrainHeader(s).Some?
    ensures DrainHeader(s + t) == Some(DrainHeader(s).value + t)
    decreases |s|
  {
    NextLineExtends(s, t);
    if TrimEol(NextLine(s).text) != [] {
      DrainExtends(NextLine(s).rest, t);
    }
  }

  lemma TakeContentExtends(n: int, s: seq<byte>, t: seq<byte>)
    requires TakeContent(n, s).Content?
    ensures TakeContent(n, s + t) == Content(TakeContent(n, s).payload, TakeContent(n, s).rest + t)
  {
    assert (s + t)[..n] == s[..n] && (s + t)[n..] == s[n..] + t;
  }

  /** A frame that can be read is read the same way however much the stream grows afterwards: treating
      "no more bytes yet" as the end of the stream loses nothing. */
  lemma ReadFrameExtends(s: seq<byte>, t: seq<byte>)
    requires ReadFrame(s).Content?
    ensures ReadFrame(s + t) == Content(ReadFrame(s).payload, ReadFrame(s).rest + t)
  {
    ScanExtends(s, t);
    var Found(n, rest) := ScanLength(s);
    DrainExtends(rest, t);
    TakeContentExtends(n, DrainHeader(rest).value, t);
  }
}
