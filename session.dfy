/**
  One accepted connection (`Session`, main.cpp:9-114). Each completion handler
  is a method; the transport's results and the outcomes of fopen and fwrite
  are their parameters. Every handler is proved to do what Protocol.Step says
  of its completion, and to keep Protocol.Invariant.
 */
module Receiver {
  import opened FileInfo
  import opened Filename
  import opened Protocol

  /** Elapsed ticks for the throughput report (main.cpp:27-30): the
      difference of the two clock readings, with 0 replaced by 1 so that
      it can divide. */
  function ElapsedTicks(started: int, now: int): (ticks: int)
    ensures ticks != 0
    ensures now != started ==> ticks == now - started
    ensures now == started ==> ticks == 1
  {
    if now - started == 0 then 1 else now - started
  }

  class Session {
    var stage: Stage
    var info: Header         // file_info_
    const buffer: array<byte> // buffer_
    var target: seq<byte>    // the name the file is opened under
    var fileOpen: bool       // fp_ != NULL
    var file: seq<byte>      // the bytes written to the destination file
    var total: u64           // total_bytes_writen_
    const started: int       // clock_ as set by start

    function Abs(): (s: State)
      reads this
    {
      State(stage, info, target, fileOpen, file, total)
    }

    ghost predicate Valid()
      reads this
    {
      buffer.Length == BufferSize && Invariant(Abs())
    }

    /** A session created for an accepted connection and started at clock
        reading `now`: the header read is outstanding. */
    constructor(now: int)
      ensures Valid() && fresh(buffer)
      ensures Abs() == Initial && Pending(Abs()) == ReadHeader && started == now
    {
      stage, info, target := AwaitHeader, DefaultHeader, [];
      fileOpen, file, total := false, [], 0;
      buffer := new byte[BufferSize];
      started := now;
    }

    /** handle_header (main.cpp:49-62). */
    method OnHeader(failed: bool, h: Header)
      requires Valid() && Expects(Abs(), HeaderRead(failed, h))
      modifies this
      ensures Valid() && Abs() == Step(old(Abs()), HeaderRead(failed, h))
    {
      if failed {
        stage := Terminated(TransportError);
        return;
      }
      info := h;
      if info.filenameSize > BufferSize {
        stage := Terminated(ProtocolViolation);
        return;
      }
      stage := AwaitFilename;
    }

    /** handle_file up to the open (main.cpp:64-73): the segment lands at the
        front of the buffer and the basename is found by the backward scan. */
    method OnFilename(failed: bool, segment: seq<byte>)
      requires Valid() && Expects(Abs(), FilenameRead(failed, segment))
      modifies this, buffer
      ensures Valid() && Abs() == Step(old(Abs()), FilenameRead(failed, segment))
      ensures !failed ==> buffer[..|segment|] == segment
      ensures !failed ==> buffer[|segment|..] == old(buffer[|segment|..])
      ensures failed ==> buffer[..] == old(buffer[..])
    {
      if failed {
        stage := Terminated(TransportError);
        return;
      }
      forall i | 0 <= i < |segment| {
        buffer[i] := segment[i];
      }
      assert buffer[..info.filenameSize] == segment;
      var start := FindBasenameStart(buffer, info.filenameSize);
      target := buffer[start..info.filenameSize];
      stage := Opening;
    }

    /** handle_file from the open on (main.cpp:75-81): `success` is whether
        fopen returned a handle. */
    method OnOpen(success: bool)
      requires Valid() && Expects(Abs(), OpenResult(success))
      modifies this
      ensures Valid() && Abs() == Step(old(Abs()), OpenResult(success))
    {
      if !success {
        stage := Terminated(IOError);
        return;
      }
      fileOpen, file := true, [];
      stage := ReceiveBody;
    }

    /** handle_write for a received chunk (main.cpp:103): the chunk lands at
        the front of the buffer, and `written` is what fwrite returned. */
    method OnChunk(data: seq<byte>, written: nat)
      requires Valid() && Expects(Abs(), Chunk(data, written))
      modifies this, buffer
      ensures Valid() && Abs() == Step(old(Abs()), Chunk(data, written))
      ensures buffer[..|data|] == data
      ensures buffer[|data|..] == old(buffer[|data|..])
    {
      forall i | 0 <= i < |data| {
        buffer[i] := data[i];
      }
      assert buffer[..written] == data[..written];
      file := file + buffer[..written];
      total := total + written;
    }

    /** handle_write at end of stream (main.cpp:97-101). */
    method OnEof()
      requires Valid() && Expects(Abs(), PeerClosed)
      modifies this
      ensures Valid() && Abs() == Step(old(Abs()), PeerClosed)
    {
      stage := Terminated(Eof(total != info.fileSize));
    }

    /** handle_write on any other transport error (main.cpp:95-96). */
    method OnError()
      requires Valid() && Expects(Abs(), ReadFailed)
      modifies this
      ensures Valid() && Abs() == Step(old(Abs()), ReadFailed)
    {
      stage := Terminated(TransportError);
    }

    /** The body stage (main.cpp:84-105): receive a chunk, append what fwrite
        wrote, receive again, until the stream ends or a read fails. */
    method ReceiveFileContent(body: seq<Event>, closedByPeer: bool)
      requires Valid() && stage == ReceiveBody && BodyChunks(body)
      requires total + Written(body) < 0x1_0000_0000_0000_0000
      modifies this, buffer
      ensures Valid()
      ensures file == old(file) + Persisted(body) && total == old(total) + Written(body)
      ensures stage == if closedByPeer then Terminated(Eof(total != info.fileSize))
                       else Terminated(TransportError)
      ensures info == old(info) && target == old(target) && fileOpen
      ensures Admissible(old(Abs()), body + [if closedByPeer then PeerClosed else ReadFailed])
      ensures Abs() == Run(old(Abs()), body + [if closedByPeer then PeerClosed else ReadFailed])
    {
      var i := 0;
      while i < |body|
        invariant 0 <= i <= |body|
        invariant Valid() && stage == ReceiveBody
        invariant file == old(file) + Persisted(body[..i])
        invariant total == old(total) + Written(body[..i])
        invariant info == old(info) && target == old(target)
      {
        ChunkExtends(body, i);
        WrittenPrefix(body, i + 1);
        OnChunk(body[i].data, body[i].written);
        i := i + 1;
      }
      assert body[..i] == body;
      if closedByPeer {
        OnEof();
      } else {
        OnError();
      }
      BodyThenEnd(old(Abs()), body, if closedByPeer then PeerClosed else ReadFailed);
    }

    /** The destructor (main.cpp:23-35): the file is closed, and the report
        gives the bytes written and the elapsed ticks. */
    method Finish(now: int) returns (bytesWritten: u64, ticks: int)
      requires Valid() && stage.Terminated?
      modifies this
      ensures !fileOpen && bytesWritten == total && bytesWritten == |file| && ticks != 0
      ensures ticks == ElapsedTicks(started, now)
      ensures stage == old(stage) && info == old(info) && target == old(target)
      ensures file == old(file) && total == old(total)
    {
      fileOpen := false;
      bytesWritten := total;
      ticks := now - started;
      if ticks == 0 {
        ticks := 1;
      }
    }
  }
}
