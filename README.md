# File receiver session, modelled in Dafny

The system is a TCP listener that saves one file per accepted connection. Each
connection is driven by a `Session` through a fixed sequence of stages:

1. **AwaitHeader**: a header record arrives, holding the declared file size and
   the length of the filename segment that follows.
2. **AwaitFilename**: the announced length is checked against the 32 KiB buffer.
   An oversize length ends the session. Otherwise exactly that many bytes are
   read into the buffer.
3. The destination name is taken from the segment: everything after the last
   `/` or `\`. A file of that name is opened for binary write. If the open
   fails, the session ends.
4. **ReceiveBody**: chunks of at most 32 KiB are received and appended to the
   file. The running total grows by what each write call reports. Only the
   peer closing the connection ends this stage. At that point the total is
   compared with the declared size, and a mismatch is only logged
   ("Filesize not matched"). Any other read error ends the session with no
   comparison.
5. The destructor closes the file and reports bytes written and elapsed ticks.
   An elapsed count of 0 is replaced by 1.

## Layout

- `fileinfo.dfy`, module `FileInfo`: the `File_info` header (`Header`), the
  `u64` and `byte` types, and `BufferSize` (`k_buffer_size` = 32768).
- `filename.dfy`, module `Filename`: basename derivation. `LastSeparator` and
  `Basename` are pure and define it. `FindBasenameStart` is the source's
  backward cursor scan, a `while` loop over the buffer array, proved equal to
  them.
- `protocol.dfy`, module `Protocol`: the protocol as a state machine on values.
  It defines `State`, the completions a session receives (`Event`), what each
  one does (`Step`), a whole run of them (`Run`), and the invariant every
  reachable state keeps. The lemmas about runs live here: short-circuit on
  every error, body accounting, and the end-of-stream check.
- `session.dfy`, module `Receiver`: class `Session`. It has the source's fields:
  a 32768-element `buffer` array, the header, whether the file is open, the
  bytes written, and the running total. It has one method per completion
  handler, the body receive loop `ReceiveFileContent`, and the destructor
  `Finish`. Every handler is proved to have the effect `Protocol.Step` gives
  its completion, and to keep `Protocol.Invariant`.
- `cname.dfy`, module `CName`: what `fopen` really receives as a name (see
  Findings).

Transport results, the outcome of `fopen` and the count returned by `fwrite`
are method parameters. Clock readings are parameters too.

Facts about the code that shape the model:

- The header is read with a read-some call (`async_receive`, main.cpp:41), so
  a short header is possible. The model takes whatever pair the transport
  delivered.
- `filename_size` is a `size_t`, so its width is the host's word size. The
  model takes a 64-bit host.
- The accept handler does not re-arm after an accept error (main.cpp:139-140).
  The listener is not part of this model.
- The scan at main.cpp:68-70 leaves its cursor one position before the buffer
  in two cases: when `filename_size` is 0 (line 68), and when the segment holds
  no separator (the decrement on line 70). Forming `buffer_ - 1` is undefined
  in C++. The model reads both cases as index -1, so the basename starts at 0.

## Model

| member | source | states |
|---|---|---|
| `Filename.LastSeparator` | main.cpp:68-70 | The result is -1 or an index of the segment holding `/` or `\`, and no separator comes after it. |
| `Filename.LastSeparatorUnique` | main.cpp:68-70 | Any index with those three properties is the last separator. |
| `Filename.Basename` | main.cpp:68-71 | The basename is a suffix of the segment with no separator in it. It is either the whole segment or directly preceded by a separator. |
| `Filename.BasenameUnique` | main.cpp:68-71 | Those properties determine the basename uniquely. |
| `Filename.WholeSegmentWithoutSeparator` | main.cpp:68-71 | A segment without separators is its own basename. |
| `Filename.EmptyAfterTrailingSeparator` | main.cpp:68-71 | An empty segment, or one ending in a separator, has an empty basename. |
| `Filename.BasenameOfPath` | main.cpp:68-75 | The segment "/a/b/c.txt" is written to "c.txt". |
| `Filename.FindBasenameStart` | main.cpp:68-71 | The backward scan over `buffer[0..filename_size)` returns a start in `[0, filename_size]`. No separator follows the start, and the byte before it, if any, is a separator. The start is one past `LastSeparator`, and the bytes from it are `Basename` of the segment. |
| `CName.CStringAt` | main.cpp:73-75 | The name a C call reads from a buffer position runs up to the first NUL byte. There is no such name when no NUL follows. |
| `CName.FullSegmentOverrunsBuffer` | main.cpp:68-75 | A 32768-byte segment with no NUL fills the buffer, and the name `fopen` reads does not end inside the buffer. |
| `CName.StaleByteExtendsName` | main.cpp:68-75 | A segment "c.txt" followed in the buffer by a stale 'x' and then a NUL opens "c.txtx". |
| `Protocol.Pending` | main.cpp:41-89 | The read each stage has outstanding: the header record (line 41), exactly `filename_size` bytes (line 60), at most `k_buffer_size` bytes (line 86), or none. No contract of its own; `PendingReadFitsBuffer` and `FilenameReadNeedsHeader` state its properties. |
| `Protocol.Expects` | main.cpp:49-105 | What a completion may carry, as the transport and `fwrite` guarantee it: it answers the outstanding read, a successful `async_read` delivers the whole segment, a chunk is at most 32768 bytes, and `fwrite` reports at most the bytes it was given. It also keeps the total below 2^64 (see Left out). No contract of its own. |
| `Protocol.Step` | main.cpp:49-105 | The effect of each handler on the session state. No contract of its own; its meaning is given by `StepKeepsInvariant`, `FilenameReadNeedsHeader`, `HeaderFailureEndsSession`, `OversizeFilenameEndsSession`, `OpenFailureEndsSession`, `BodyAccounting` and `BodyEnd`, and every handler of `Receiver.Session` is proved to have exactly this effect. |
| `Protocol.InitialState` | main.cpp:37-47 | A new session keeps the invariant and has only the header read outstanding. |
| `Protocol.StepKeepsInvariant` | main.cpp:49-105 | Every completion keeps the invariant. The total equals the bytes in the file, and nothing is written before the open. The file is open while the body is read. Past the header the filename fits the buffer. A protocol violation or I/O error leaves no file open. The end-of-stream flag says exactly whether the file size differs from the declared size. |
| `Protocol.RunKeepsInvariant` | main.cpp:49-105 | Any admissible sequence of completions keeps the invariant. |
| `Protocol.PendingReadFitsBuffer` | main.cpp:53-89 | The filename read asks for at most 32768 bytes. Every body read asks for at most 32768 bytes. An ended session has no read outstanding. |
| `Protocol.FilenameReadNeedsHeader` | main.cpp:49-62 | The filename segment is requested exactly when the header read succeeded with a length within the cap. The request is for exactly `filename_size` bytes. |
| `Protocol.HeaderFailureEndsSession` | main.cpp:49-52 | After a failed header read the session ends as a transport error, whatever follows. No further read is made, no file is opened, and nothing is written. |
| `Protocol.OversizeFilenameEndsSession` | main.cpp:53-58 | A `filename_size` above 32768 ends the session as a protocol violation. The filename is not read, no file is opened, and no body byte is read. |
| `Protocol.OpenFailureEndsSession` | main.cpp:75-80 | A failed open ends the session as an I/O error, with no body read and nothing written. |
| `Protocol.Persisted` | main.cpp:103 | The bytes the chunks put in the file number exactly the sum of the counts `fwrite` returned. |
| `Protocol.BodyAccounting` | main.cpp:103-104 | Each chunk grows the file by exactly its written bytes, in arrival order. The total grows by the write call's count. The body stage goes on. |
| `Protocol.BodyEnd` | main.cpp:93-101 | At end of stream, the mismatch warning is raised exactly when the file's size differs from the declared size. A read error ends the session with no comparison. Either way the file is kept as written. |
| `Protocol.BodyThenEnd` | main.cpp:84-105 | A whole body stage leaves the file, the total and the ending as the two lemmas above describe them. |
| `Protocol.OpeningSteps` | main.cpp:49-81 | A good header, its segment and a successful open lead to the body stage. The file is empty, the total is 0, and the target is the segment's basename. |
| `Protocol.TransferOutcome` | main.cpp:37-105 | A complete transfer ends at end of stream with the written bytes of every chunk in the file and the target named by the basename. The mismatch flag is set exactly when the total differs from the declared size. |
| `Protocol.RoundTrip` | main.cpp:97-103 | Sending exactly the declared bytes, each fully written, gives a file with exactly that content and no mismatch warning. |
| `Protocol.DeliveryMismatch` | main.cpp:97-104 | With under-delivery or over-delivery, every received byte is in the file, nothing is cut at the declared size, and the mismatch is warned. |
| `Receiver.ElapsedTicks` | main.cpp:27-30 | The elapsed tick count is never zero: a zero clock difference becomes exactly 1, and any other difference is kept. |
| `Receiver.Session.constructor` | main.cpp:37-47 | A created and started session is the initial protocol state with a fresh 32768-byte buffer. |
| `Receiver.Session.OnHeader` | main.cpp:49-62 | `handle_header` has the effect `Step` gives a header completion and keeps the invariant. |
| `Receiver.Session.OnFilename` | main.cpp:64-73 | `handle_file` up to the open puts the segment at the front of the buffer and leaves the bytes after it as they were. It records the basename found by the scan and keeps the invariant. |
| `Receiver.Session.OnOpen` | main.cpp:75-81 | A successful open starts the body stage with an empty file. A failed open ends the session as an I/O error. |
| `Receiver.Session.OnChunk` | main.cpp:103 | A chunk lands at the front of the buffer, the bytes after it stay as they were. The file grows by the bytes `fwrite` wrote, and the total grows by that count. |
| `Receiver.Session.OnEof` | main.cpp:97-101 | End of stream ends the session with the size comparison. |
| `Receiver.Session.OnError` | main.cpp:93-96 | Another read error ends the session as a transport error, with no comparison. |
| `Receiver.Session.ReceiveFileContent` | main.cpp:84-105 | The receive loop appends the written part of every chunk in order, adds every count to the total, and ends as the peer's close or a read error dictates. Its final state is `Protocol.Run` of those completions. |
| `Receiver.Session.Finish` | main.cpp:23-35 | The destructor closes the file and reports the total, which equals the bytes in the file, along with a non-zero tick count. Nothing else changes. |

## Left out

- `Tcp_server` and `main` (main.cpp:116-155): the accept loop, port binding and the event loop are I/O plumbing.
- Asynchronous callbacks, `shared_from_this` lifetime and `boost::bind` become sequential method calls. A handler's `requires` on the stage stands for "only the read that was issued completes".
- The header's byte layout: the source copies raw bytes in host order into the record, so the model takes the delivered pair as given. A short header from the read-some call is not modelled.
- Bytes a failed read may already have placed in the header record or the buffer are not modelled. Nothing reads them afterwards.
- The throughput figure, `clock()` and all console and error output: only the zero guard on the tick count is modelled.
- `fopen`, `fwrite` and `fclose` are foreign calls, so their results are parameters. The destination file is the sequence of bytes written to it. `fwrite` is taken to write a prefix of the chunk, of the length it returns.
- `CName.CStringAt` is not used by the session model. The session opens the basename bounded by `filename_size` (see Findings).
- The `Opening` stage separates basename derivation from the open, which the source does within one handler. No read is outstanding in it.
- A session destroyed without ever being started (after an accept error) is not modelled. Its `clock_` would be uninitialised.
- `Receiver.Session.OnChunk`: does not model 64-bit wrap-around of `total_bytes_writen_`. Its requires, through `Protocol.Expects`, keeps the total below 2^64, and the source does not handle overflow.
- `Protocol.BodyAccounting`: does not model 64-bit wrap-around, for the same reason.
- `Protocol.TransferOutcome`: does not model 64-bit wrap-around, for the same reason.
- `Protocol.BodyThenEnd`: does not model 64-bit wrap-around, for the same reason.
- `Protocol.DeliveryMismatch`: does not model 64-bit wrap-around, for the same reason.
- `Receiver.Session.ReceiveFileContent`: does not model 64-bit wrap-around, for the same reason.
- `Receiver.Session.constructor`: does not model the exception `start` can raise before the header read is issued. `socket_.remote_endpoint()` (main.cpp:40) is the throwing overload, so a peer that reset the connection ends the session before it starts, and the exception leaves `handle_accept` and `io.run()`.

## Findings

| source | as written | input that shows it | evidently intended | confidence | as-written member | corrected member |
|---|---|---|---|---|---|---|
| main.cpp:73-75 | `fopen(basename)` and the log read the buffer as a NUL-terminated C string, but the filename segment is not NUL-terminated and only `filename_size` bounds it | `filename_size` = 32768 with no NUL byte in the segment: the name runs past the end of `buffer_` | open the basename of the `filename_size`-byte segment | high; not executed | `CName.FullSegmentOverrunsBuffer` | `Filename.Basename` |
| main.cpp:73-75 | the buffer is never cleared, so the bytes after a short segment are stale (indeterminate on first use) and become part of the name | segment "c.txt" (`filename_size` = 5) with buffer bytes 5 and 6 holding 'x' and NUL: opens "c.txtx" | open "c.txt" | medium (depends on memory contents); not executed | `CName.StaleByteExtendsName` | `Receiver.Session.OnFilename` |
