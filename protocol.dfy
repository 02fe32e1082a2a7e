/**
  The per-connection receive protocol as a state machine on values: the
  stages a session passes through, the read it has outstanding in each,
  the completions the transport and the file system hand back, and the
  effect of each. The class Receiver.Session is proved against Step.
 */
module Protocol {
  import opened FileInfo
  import opened Filename

  /** Why a session ended. `Eof` is the peer closing the connection; its flag
      is the "Filesize not matched" warning. */
  datatype Reason = TransportError | ProtocolViolation | IOError | Eof(mismatch: bool)

  /** `Opening` is the point inside the filename handler where the basename
      is known and the destination file is being opened. */
  datatype Stage = AwaitHeader | AwaitFilename | Opening | ReceiveBody | Terminated(reason: Reason)

  /** The read a session has asked the transport for: the header (a read of
      whatever arrives into the header record), exactly `count` bytes, or at
      most `limit` bytes. */
  datatype Read = NoRead | ReadHeader | ReadExactly(count: nat) | ReadSome(limit: nat)

  /** A completion handed to the session. `Chunk` carries the bytes received
      and the count the write call reported. */
  datatype Event =
    | HeaderRead(failed: bool, header: Header)
    | FilenameRead(failed: bool, segment: seq<byte>)
    | OpenResult(success: bool)
    | Chunk(data: seq<byte>, written: nat)
    | PeerClosed
    | ReadFailed

  /** What a session holds: its stage, the header, the destination name, whether
      the file is open, the bytes written to it, and the running total. */
  datatype State = State(stage: Stage, info: Header, target: seq<byte>,
                         fileOpen: bool, file: seq<byte>, total: u64)

  /** A freshly started session: waiting for the header, nothing open. */
  const Initial: State := State(AwaitHeader, DefaultHeader, [], false, [], 0)

  function Pending(s: State): (r: Read) {
    match s.stage
    case AwaitHeader => ReadHeader
    case AwaitFilename => ReadExactly(s.info.filenameSize)
    case Opening => NoRead
    case ReceiveBody => ReadSome(BufferSize)
    case Terminated(_) => NoRead
  }

  /** Whether `e` can be the next completion of `s`: it answers the pending
      step, a successful filename read delivers the whole segment, a chunk
      fits the buffer, and a write never reports more than it was given. The
      running total staying below 2^64 is assumed, not handled. */
  predicate Expects(s: State, e: Event) {
    match e
    case HeaderRead(_, _) => s.stage == AwaitHeader
    case FilenameRead(failed, segment) =>
      s.stage == AwaitFilename && (failed || |segment| == s.info.filenameSize)
    case OpenResult(_) => s.stage == Opening
    case Chunk(data, written) =>
      s.stage == ReceiveBody && |data| <= BufferSize && written <= |data|
      && s.total + written < 0x1_0000_0000_0000_0000
    case PeerClosed => s.stage == ReceiveBody
    case ReadFailed => s.stage == ReceiveBody
  }

  /** The effect of one completion (main.cpp:49-105). */
  function Step(s: State, e: Event): (t: State)
    requires Expects(s, e)
  {
    match e
    case HeaderRead(failed, h) =>
      if failed then s.(stage := Terminated(TransportError))
      else if h.filenameSize > BufferSize then s.(info := h, stage := Terminated(ProtocolViolation))
      else s.(info := h, stage := AwaitFilename)
    case FilenameRead(failed, segment) =>
      if failed then s.(stage := Terminated(TransportError))
      else s.(target := Basename(segment), stage := Opening)
    case OpenResult(success) =>
      if success then s.(fileOpen := true, file := [], stage := ReceiveBody)
      else s.(stage := Terminated(IOError))
    case Chunk(data, written) =>
      s.(file := s.file + data[..written], total := s.total + written)
    case PeerClosed =>
      s.(stage := Terminated(Eof(s.total != s.info.fileSize)))
    case ReadFailed =>
      s.(stage := Terminated(TransportError))
  }

  /** Whether `es` can be delivered to `s` in order. A terminated session has
      no read outstanding, so whatever follows its end is never delivered. */
  predicate Admissible(s: State, es: seq<Event>)
    decreases |es|
  {
    es == [] || s.stage.Terminated? || (Expects(s, es[0]) && Admissible(Step(s, es[0]), es[1..]))
  }

  /** The state after delivering `es` to `s`, up to the session's end. */
  function Run(s: State, es: seq<Event>): (t: State)
    requires Admissible(s, es)
    decreases |es|
  {
    if es == [] || s.stage.Terminated? then s else Run(Step(s, es[0]), es[1..])
  }

  /** What every reachable state satisfies. */
  ghost predicate Invariant(s: State) {
    // the total counts exactly the bytes written to the file
    && s.total == |s.file|
    // nothing is written before the file is open, and it is open while the body is received
    && (!s.fileOpen ==> s.file == [])
    && (s.stage.AwaitHeader? || s.stage.AwaitFilename? || s.stage.Opening? ==> !s.fileOpen)
    && (s.stage.ReceiveBody? ==> s.fileOpen)
    // past the header the filename fits the buffer, unless that very check ended the session
    && (s.stage.AwaitFilename? || s.stage.Opening? || s.stage.ReceiveBody? ==> s.info.filenameSize <= BufferSize)
    && (s.stage == Terminated(ProtocolViolation) ==> s.info.filenameSize > BufferSize && !s.fileOpen)
    && (s.stage == Terminated(IOError) ==> !s.fileOpen)
    // end of stream is only seen with the file open, and the warning is exactly a size difference
    && (s.stage.Terminated? && s.stage.reason.Eof? ==>
          s.fileOpen && s.stage.reason.mismatch == (|s.file| != s.info.fileSize))
  }

  lemma InitialState()
    ensures Invariant(Initial) && Pending(Initial) == ReadHeader
  {
  }

  lemma StepKeepsInvariant(s: State, e: Event)
    requires Invariant(s) && Expects(s, e)
    ensures Invariant(Step(s, e))
  {
  }

  lemma {:induction false} RunKeepsInvariant(s: State, es: seq<Event>)
    requires Invariant(s) && Admissible(s, es)
    ensures Invariant(Run(s, es))
    decreases |es|
  {
    if es != [] && !s.stage.Terminated? {
      StepKeepsInvariant(s, es[0]);
      RunKeepsInvariant(Step(s, es[0]), es[1..]);
    }
  }

  /** Every read a session asks for fits the 32 KiB buffer, and an ended
      session asks for none. */
  lemma PendingReadFitsBuffer(s: State)
    requires Invariant(s)
    ensures Pending(s).ReadExactly? ==> Pending(s).count <= BufferSize
    ensures Pending(s).ReadSome? ==> Pending(s).limit == BufferSize
    ensures s.stage.Terminated? ==> Pending(s) == NoRead
  {
  }

  /** The filename segment is asked for exactly when the header read succeeded
      and announced a length within the cap. */
  lemma FilenameReadNeedsHeader(e: Event)
    requires Expects(Initial, e)
    ensures Pending(Step(Initial, e)).ReadExactly? <==>
              e.HeaderRead? && !e.failed && e.header.filenameSize <= BufferSize
    ensures Pending(Step(Initial, e)).ReadExactly? ==> Pending(Step(Initial, e)).count == e.header.filenameSize
  {
  }

  lemma TerminatedIsFinal(s: State, es: seq<Event>)
    requires s.stage.Terminated?
    ensures Admissible(s, es) && Run(s, es) == s
  {
  }

  lemma RunFirst(s: State, e: Event, es: seq<Event>)
    requires Expects(s, e) && !s.stage.Terminated? && Admissible(Step(s, e), es)
    ensures Admissible(s, [e] + es) && Run(s, [e] + es) == Run(Step(s, e), es)
  {
    assert ([e] + es)[0] == e;
    assert ([e] + es)[1..] == es;
  }

  /** A failed header read ends the session: nothing further is read, no file
      is opened and nothing is written. */
  lemma HeaderFailureEndsSession(h: Header, es: seq<Event>)
    ensures Admissible(Initial, [HeaderRead(true, h)] + es)
    ensures Run(Initial, [HeaderRead(true, h)] + es) == Initial.(stage := Terminated(TransportError))
  {
    var s := Step(Initial, HeaderRead(true, h));
    TerminatedIsFinal(s, es);
    RunFirst(Initial, HeaderRead(true, h), es);
  }

  /** A filename length above the cap ends the session as a protocol violation
      before the filename is read, a file is opened or a body byte is read. */
  lemma OversizeFilenameEndsSession(h: Header, es: seq<Event>)
    requires h.filenameSize > BufferSize
    ensures Admissible(Initial, [HeaderRead(false, h)] + es)
    ensures var t := Run(Initial, [HeaderRead(false, h)] + es);
      t.stage == Terminated(ProtocolViolation) && t.info == h && t.target == []
      && !t.fileOpen && t.file == [] && t.total == 0 && Pending(t) == NoRead
  {
    var s := Step(Initial, HeaderRead(false, h));
    TerminatedIsFinal(s, es);
    RunFirst(Initial, HeaderRead(false, h), es);
  }

  /** A file that cannot be opened ends the session as an I/O error, with no
      body read and nothing written. */
  lemma OpenFailureEndsSession(s: State, es: seq<Event>)
    requires Invariant(s) && s.stage == Opening
    ensures Admissible(s, [OpenResult(false)] + es)
    ensures var t := Run(s, [OpenResult(false)] + es);
      t.stage == Terminated(IOError) && !t.fileOpen && t.file == [] && t.total == 0 && Pending(t) == NoRead
  {
    TerminatedIsFinal(Step(s, OpenResult(false)), es);
    RunFirst(s, OpenResult(false), es);
  }

  /** Body reads: chunks no larger than the buffer, each written in part or in full. */
  predicate ChunkOk(e: Event) { e.Chunk? && |e.data| <= BufferSize && e.written <= |e.data| }
  predicate BodyChunks(es: seq<Event>) {
    forall i :: 0 <= i < |es| ==> ChunkOk(es[i])
  }

  /** The bytes those chunks put in the file, in arrival order. */
  function Persisted(es: seq<Event>): (r: seq<byte>)
    requires BodyChunks(es)
    ensures |r| == Written(es)
  {
    if es == [] then [] else es[0].data[..es[0].written] + Persisted(es[1..])
  }

  /** The sum of the counts the write call reported. */
  function Written(es: seq<Event>): (n: nat)
    requires BodyChunks(es)
  {
    if es == [] then 0 else es[0].written + Written(es[1..])
  }

  /** The bytes received, whatever was written. */
  function Delivered(es: seq<Event>): (r: seq<byte>)
    requires BodyChunks(es)
  {
    if es == [] then [] else es[0].data + Delivered(es[1..])
  }

  lemma {:induction false} PersistedAppend(a: seq<Event>, b: seq<Event>)
    requires BodyChunks(a) && BodyChunks(b)
    ensures BodyChunks(a + b)
    ensures Persisted(a + b) == Persisted(a) + Persisted(b)
    ensures Written(a + b) == Written(a) + Written(b)
    decreases |a|
  {
    assert BodyChunks(a + b) by {
      forall i | 0 <= i < |a + b| ensures ChunkOk((a + b)[i]) {
        if i < |a| { assert (a + b)[i] == a[i]; } else { assert (a + b)[i] == b[i - |a|]; }
      }
    }
    if a == [] {
      assert a + b == b;
    } else {
      var c := a + b;
      assert c[0] == a[0] && c[1..] == a[1..] + b;
      PersistedAppend(a[1..], b);
      assert Persisted(c) == a[0].data[..a[0].written] + Persisted(c[1..]);
      assert Written(c) == a[0].written + Written(c[1..]);
    }
  }

  /** Every write call wrote all it was given. */
  predicate FullWrites(es: seq<Event>)
    requires BodyChunks(es)
  {
    forall i :: 0 <= i < |es| ==> es[i].written == |es[i].data|
  }

  lemma {:induction false} FullWritesPersistAll(es: seq<Event>)
    requires BodyChunks(es) && FullWrites(es)
    ensures Persisted(es) == Delivered(es)
  {
    if es != [] {
      assert es[0].data[..es[0].written] == es[0].data;
      FullWritesPersistAll(es[1..]);
    }
  }

  /** Each chunk grows the file by exactly the bytes written, in arrival order,
      and the total by the write call's count; the body stage goes on. */
  lemma {:induction false} BodyAccounting(s: State, es: seq<Event>)
    requires s.stage == ReceiveBody && BodyChunks(es)
    requires s.total + Written(es) < 0x1_0000_0000_0000_0000
    ensures Admissible(s, es)
    ensures Run(s, es) == s.(file := s.file + Persisted(es), total := s.total + Written(es))
    decreases |es|
  {
    if es != [] {
      var t := Step(s, es[0]);
      BodyAccounting(t, es[1..]);
      assert s.file + Persisted(es) == t.file + Persisted(es[1..]);
      assert es == [es[0]] + es[1..];
      RunFirst(s, es[0], es[1..]);
    }
  }

  /** At end of stream the mismatch warning is raised exactly when the bytes in
      the file differ from the declared size; a transport error ends the body
      with no comparison. Either way what was written stays. */
  lemma BodyEnd(s: State)
    requires Invariant(s) && s.stage == ReceiveBody
    ensures Step(s, PeerClosed) == s.(stage := Terminated(Eof(|s.file| != s.info.fileSize)))
    ensures Step(s, ReadFailed) == s.(stage := Terminated(TransportError))
  {
  }

  lemma {:induction false} RunAppend(s: State, a: seq<Event>, b: seq<Event>)
    requires Admissible(s, a) && Admissible(Run(s, a), b)
    ensures Admissible(s, a + b) && Run(s, a + b) == Run(Run(s, a), b)
    decreases |a|
  {
    if a == [] {
      assert a + b == b;
    } else if s.stage.Terminated? {
      TerminatedIsFinal(s, a + b);
      TerminatedIsFinal(s, b);
    } else {
      RunAppend(Step(s, a[0]), a[1..], b);
      assert (a + b)[0] == a[0];
      assert (a + b)[1..] == a[1..] + b;
    }
  }

  /** The body stage from start to end: the chunks are accounted as in
      BodyAccounting, then the end of stream compares the final total with the
      declared size, while a read failure compares nothing. */
  lemma BodyThenEnd(s: State, body: seq<Event>, end: Event)
    requires s.stage == ReceiveBody && BodyChunks(body)
    requires s.total + Written(body) < 0x1_0000_0000_0000_0000
    requires end == PeerClosed || end == ReadFailed
    ensures Admissible(s, body + [end])
    ensures Run(s, body + [end]) ==
      s.(file := s.file + Persisted(body), total := s.total + Written(body),
         stage := if end == PeerClosed then Terminated(Eof(s.total + Written(body) != s.info.fileSize))
                  else Terminated(TransportError))
  {
    BodyAccounting(s, body);
    var t := Run(s, body);
    RunSingle(t, end);
    RunAppend(s, body, [end]);
  }

  lemma RunSingle(s: State, e: Event)
    requires Expects(s, e) && !s.stage.Terminated?
    ensures Admissible(s, [e]) && Run(s, [e]) == Step(s, e)
  {
    assert [e][1..] == [];
  }

  /** The three steps before the body: header, filename segment, open. */
  function Preamble(h: Header, segment: seq<byte>): (es: seq<Event>) {
    [HeaderRead(false, h)] + ([FilenameRead(false, segment)] + [OpenResult(true)])
  }

  lemma OpeningSteps(h: Header, segment: seq<byte>)
    requires h.filenameSize <= BufferSize && |segment| == h.filenameSize
    ensures Admissible(Initial, Preamble(h, segment))
    ensures Run(Initial, Preamble(h, segment)) == State(ReceiveBody, h, Basename(segment), true, [], 0)
  {
    var s1 := Step(Initial, HeaderRead(false, h));
    assert s1 == State(AwaitFilename, h, [], false, [], 0);
    var s2 := Step(s1, FilenameRead(false, segment));
    assert s2 == State(Opening, h, Basename(segment), false, [], 0);
    RunSingle(s2, OpenResult(true));
    RunFirst(s1, FilenameRead(false, segment), [OpenResult(true)]);
    RunFirst(Initial, HeaderRead(false, h), [FilenameRead(false, segment)] + [OpenResult(true)]);
  }

  /** One more chunk extends the file by its written bytes and the total by its count. */
  lemma ChunkExtends(body: seq<Event>, i: nat)
    requires BodyChunks(body) && i < |body|
    ensures Persisted(body[..i + 1]) == Persisted(body[..i]) + body[i].data[..body[i].written]
    ensures Written(body[..i + 1]) == Written(body[..i]) + body[i].written
  {
    var before, next := body[..i], [body[i]];
    assert body[..i + 1] == before + next;
    PersistedAppend(before, next);
    assert next[1..] == [];
  }

  lemma {:induction false} WrittenPrefix(body: seq<Event>, k: nat)
    requires BodyChunks(body) && k <= |body|
    ensures Written(body[..k]) <= Written(body)
    decreases k
  {
    if k > 0 {
      assert body[..k][1..] == body[1..][..k - 1];
      WrittenPrefix(body[1..], k - 1);
    }
  }

  /** The events of a complete transfer: a header, its filename segment, a
      successful open, the body chunks, and the peer closing the connection. */
  function Transfer(h: Header, segment: seq<byte>, body: seq<Event>): (es: seq<Event>) {
    Preamble(h, segment) + (body + [PeerClosed])
  }

  /** A complete transfer writes the written bytes of every chunk to a file named
      by the segment's basename, and warns exactly when their count differs from
      the declared size. */
  lemma TransferOutcome(h: Header, segment: seq<byte>, body: seq<Event>)
    requires h.filenameSize <= BufferSize && |segment| == h.filenameSize
    requires BodyChunks(body) && Written(body) < 0x1_0000_0000_0000_0000
    ensures Admissible(Initial, Transfer(h, segment, body))
    ensures Run(Initial, Transfer(h, segment, body)) ==
      State(Terminated(Eof(Written(body) != h.fileSize)), h, Basename(segment), true, Persisted(body), Written(body))
  {
    var preamble, rest := Preamble(h, segment), body + [PeerClosed];
    var ready := State(ReceiveBody, h, Basename(segment), true, [], 0);
    var done := State(Terminated(Eof(Written(body) != h.fileSize)), h, Basename(segment), true,
                      Persisted(body), Written(body));
    assert Admissible(Initial, preamble) && Run(Initial, preamble) == ready by {
      OpeningSteps(h, segment);
    }
    assert Admissible(ready, rest) && Run(ready, rest) == done by {
      BodyThenEnd(ready, body, PeerClosed);
    }
    assert Transfer(h, segment, body) == preamble + rest;
    assert Admissible(Initial, preamble + rest) && Run(Initial, preamble + rest) == done by {
      RunAppend(Initial, preamble, rest);
    }
  }

  /** Round trip: exactly the declared bytes, each written in full, give a file
      with that content and no mismatch warning. */
  lemma RoundTrip(h: Header, segment: seq<byte>, body: seq<Event>)
    requires h.filenameSize <= BufferSize && |segment| == h.filenameSize
    requires BodyChunks(body) && FullWrites(body) && |Delivered(body)| == h.fileSize
    ensures Admissible(Initial, Transfer(h, segment, body))
    ensures var t := Run(Initial, Transfer(h, segment, body));
      t.stage == Terminated(Eof(false)) && t.file == Delivered(body) && |t.file| == h.fileSize
  {
    FullWritesPersistAll(body);
    TransferOutcome(h, segment, body);
  }

  /** Under- and over-delivery: every byte received before the close is in the
      file, none is cut at the declared size, and the size difference is warned. */
  lemma DeliveryMismatch(h: Header, segment: seq<byte>, body: seq<Event>)
    requires h.filenameSize <= BufferSize && |segment| == h.filenameSize
    requires BodyChunks(body) && FullWrites(body) && |Delivered(body)| != h.fileSize
    requires |Delivered(body)| < 0x1_0000_0000_0000_0000
    ensures Admissible(Initial, Transfer(h, segment, body))
    ensures var t := Run(Initial, Transfer(h, segment, body));
      t.stage == Terminated(Eof(true)) && t.file == Delivered(body)
  {
    FullWritesPersistAll(body);
    TransferOutcome(h, segment, body);
  }
}
