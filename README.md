# File transfer over TCP and UDP — a Dafny model

A client names a file; the server streams its bytes back, or reports that the
file is missing; the client stores the copy as `received_<name>`. Two
transports are used, each with its own client and server:

- **TCP.** The server reads the name with one receive of at most
  `BUFFER_SIZE` (4096) bytes. A missing file gets the token `File not found`.
  Otherwise the file is sent chunk by chunk, and closing the connection
  marks the end. The client checks its first receive against the token,
  then appends later receives to the output file until a receive returns
  nothing.
- **UDP.** The server decodes the request datagram, as `recvfrom` keeps
  its first 4096 bytes, as the name. It
  sends one datagram per chunk and then the terminator `__EOF__`, or the
  error token if the file is missing. The client writes every datagram to
  the output file until the terminator arrives.

The model treats sockets and files as values:

- A file is a `seq<byte>`.
- The server's directory is a map from names to entries, read by each
  server's own test. For the TCP server a name is absent when
  `os.path.exists` is false. For the UDP server a name is absent when
  `open` raises `FileNotFoundError`. An entry is a readable file, or
  `Unreadable`: a name the server treats as present but cannot open. For
  the UDP server this covers every other exception of `open`, such as a
  directory, a path through a regular file, a name that is too long or a
  name holding NUL.
- The client's directory is a `Disk`: its files, plus the names that cannot
  be opened for writing.
- The TCP server's connection is its request bytes, plus the number of
  `sendall` calls it accepts before breaking.
- The TCP client's peer is whether `connect` succeeds, the blocks its
  receives return, and whether the stream ends in a reset or a close.
- The UDP client's input is the datagrams that arrive before the timeout.

Each handler is a method whose loop reads the file with `ReadAt`
(`file.read(BUFFER_SIZE)`) or consumes receives one at a time. Each method
is proved equal to a specification function (`Respond`, `Fetch`, `Reply`,
`Receive`). The lemmas state the protocol's properties about those
functions. Module `Transfer` feeds what a server sends to the matching
client.

Modelling assumptions:

- A file read returns `min(4096, remaining)` bytes.
- The request reaches the TCP server whole in its single receive, up to
  4096 bytes.
- The TCP stream reaches the client split into receives of at most 4096
  bytes. An empty receive means the peer closed.
- Datagrams arrive complete, in order and without loss.
- Only what the client receives before the timeout is in its input. Running
  out of input is the timeout.
- UTF-8 `encode`/`decode` are parameters. A decode that raises is `None`.

The model follows the code where it departs from the protocol it was meant
to implement:

- The TCP client opens `received_<name>` only after the token check.
- The TCP client never writes its first receive.
- The UDP client has no check for the error token.
- The UDP server neither trims nor validates the name.
- In the UDP server, a decode error or an `OSError` other than
  `FileNotFoundError` is not caught. It ends the server loop.
- The UDP client's 5-second timeout applies to every receive, not only the
  first.

## Model

| member | source | states |
|---|---|---|
| Framing.Truncate | src/tcp_server.py:25 | One receive keeps exactly the first `min(BUFFER_SIZE, n)` bytes of what was sent. |
| Framing.ReadAt | src/tcp_server.py:35 | `file.read(BUFFER_SIZE)` returns the next `min(BUFFER_SIZE, remaining)` bytes at the file position. It is empty exactly at end of file. |
| Framing.ChunksFlatten | src/tcp_server.py:33-38 | The chunks read from a file, joined in order, are exactly the file. |
| Framing.ChunksSized | src/tcp_server.py:35-38 | Every chunk is non-empty and at most 4096 bytes. Every chunk but the last is full. |
| Framing.ChunksCount | src/tcp_server.py:34-37 | A file of `n` bytes is read in `ceil(n/4096)` chunks. An empty file gives none. |
| Framing.ChunksUnique | src/tcp_server.py:35 | The chunking is the only split of a file into buffer-sized pieces that are full but the last. |
| Framing.ChunksPrefix | src/tcp_server.py:33-38 | The first `k` chunks joined form a prefix of the file. |
| Framing.SmallFileIsOneChunk | src/udp_server.py:28 | A non-empty file of at most 4096 bytes is read in one chunk. |
| Files.OutputName | src/tcp_client.py:33 | The output name is `received_` followed by the requested name: its first 9 characters are `received_` and the rest is the name. |
| Files.Write | src/udp_client.py:17 | Opening with `"wb"` and writing leaves the named file holding exactly the content. No other file changes. |
| TcpServer.HandleClient | src/tcp_server.py:16-43 | The handler's loop produces exactly the `sendall` calls, the final close and the outcome that `Respond` specifies. |
| TcpServer.Serve | src/tcp_server.py:56-59 | `main` runs one handler per accepted connection, in order. Each connection's outcome is its handler's. |
| TcpServer.ClosedOnEveryPath | src/tcp_server.py:24-43 | On every path, the not-found return, completion and exception alike, the connection is closed exactly once, as the last event. |
| TcpServer.NotFoundSendsOnlyToken | src/tcp_server.py:28-31 | For a missing name, the only bytes sent are exactly `File not found`. |
| TcpServer.StreamsWholeFile | src/tcp_server.py:33-38 | For a readable file, the bytes sent equal the file in order. They go as `ceil(n/4096)` non-empty chunks of at most 4096 bytes. An empty file sends nothing. |
| TcpServer.FailureSendsNothing | src/tcp_server.py:33-43 | A request that fails to decode, or names an entry that exists but cannot be opened, ends as a failure with a bare close and nothing sent. |
| TcpServer.SentIsPrefixOfFile | src/tcp_server.py:33-43 | The bytes sent are always a prefix of the file. When `sendall` raises, exactly the chunks before it were sent. |
| TcpServer.NameReadInOneReceive | src/tcp_server.py:25 | The name comes from one receive of 4096 bytes. Bytes beyond that never change the handling. |
| TcpServer.AcceptsOneAtATime | src/tcp_server.py:56-59 | Connection `k` is accepted right after connection `k-1` is closed. Everything earlier comes before it. |
| TcpClient.RequestFile | src/tcp_client.py:15-44 | The client's loop returns exactly the result, request bytes and disk that `Fetch` specifies. |
| TcpClient.CommandLine | src/tcp_client.py:47-60 | If the argument count is not 2, the exit status is 1 with nothing sent. Otherwise the status is 0 iff `request_file` returns True. |
| TcpClient.DrainStopsAtFirstEmptyRead | src/tcp_client.py:34-37 | The receive loop stops at the first zero-length read. It writes the blocks before it, joined in order, and nothing after it. |
| TcpClient.DrainWithoutEmptyRead | src/tcp_client.py:34-44 | With no empty read, the loop writes every block. It succeeds iff the stream closes rather than resets. |
| TcpClient.NotFoundLeavesDiskAlone | src/tcp_client.py:27-31 | If the first receive equals the token, the result is False and `received_<name>` is never opened. |
| TcpClient.SuccessMeansNoException | src/tcp_client.py:21-44 | True iff connect, the first receive, the open and the loop raise nothing and the first block is not the token. The output file then holds the loop's blocks. |
| TcpClient.WritesAllButFirstBlock | src/tcp_client.py:27-38 | On a well-formed stream, the output file is the stream without its first block. |
| UdpServer.HandleFileRequest | src/udp_server.py:15-36 | The handler sends exactly `Reply`, all to `addr`. It raises exactly when the entry exists but cannot be opened. |
| UdpServer.Serve | src/udp_server.py:47-51 | `main` handles the requests in arrival order, as `ServeAll` specifies. |
| UdpServer.CrashIsFinal | src/udp_server.py:47-51 | After an uncaught exception, no later request is answered. |
| UdpServer.ReplyForFile | src/udp_server.py:26-32 | A readable file is sent as its chunks in order, `ceil(n/4096)` of them, each non-empty and at most 4096 bytes. Exactly one `__EOF__` follows. An empty file gets `__EOF__` alone. |
| UdpServer.ReplyForMissingFile | src/udp_server.py:34-36 | A name whose `open` raises `FileNotFoundError` gets exactly one datagram, `File not found`, and no `__EOF__`. |
| UdpServer.NameIsWholeRequest | src/udp_server.py:48-51 | Each request is answered for its whole decoded payload, without trimming or checks, and to its own sender. |
| UdpClient.ReceiveFile | src/udp_client.py:13-26 | The receive loop produces exactly the status and disk that `Receive` specifies. |
| UdpClient.CommandLine | src/udp_client.py:29-56 | If the argument count is not 2 or the stripped name is empty, the status is 1 with nothing sent. Otherwise the stripped name is sent, and the status is 0 iff the terminator arrived. |
| UdpClient.StripShape | src/udp_client.py:35 | `strip()` returns the slice left after removing whitespace at both ends. The result neither starts nor ends with whitespace. |
| UdpClient.StripEmptyIffAllSpace | src/udp_client.py:35-38 | A name is refused as empty iff it is all whitespace. |
| UdpClient.CollectUpTo | src/udp_client.py:17-22 | Datagrams before any terminator are written in arrival order. A `File not found` payload is written like other data. |
| UdpClient.StopsAtFirstTerminator | src/udp_client.py:17-22 | The loop ends at the first `__EOF__`, having written exactly the datagrams before it. Without one, it times out having written them all. |
| UdpClient.CollectCheckedUpTo | src/udp_client.py:17-22 | The corrected loop writes what the original writes until the first terminator or token. |
| Transfer.ServerDatagramsFitBuffer | src/udp_client.py:19 | The client's `recvfrom(4096)` keeps every server datagram whole. |
| Transfer.UdpRoundTrip | src/udp_client.py:17-22 | Fed the server's datagrams for file F, the client ends on `__EOF__` holding exactly F, provided no chunk of F equals `__EOF__`. |
| Transfer.UdpTerminatorInFile | src/udp_client.py:20-21 | A chunk equal to `__EOF__` ends the transfer early with success. The copy is then strictly shorter than the file. |
| Transfer.UdpFileOfTerminatorArrivesEmpty | src/udp_client.py:20-21 | A file holding exactly `__EOF__` arrives as an empty file. |
| Transfer.UdpMissingFileWrittenAsData | src/udp_client.py:19-22 | For a missing file, the client writes `File not found` into its output and then times out. |
| Transfer.UdpCorrectedReportsMissing | src/udp_client.py:19-22 | With the token handled, a missing file is reported at once and nothing is written. |
| Transfer.UdpCorrectedRoundTrip | src/udp_client.py:17-22 | With the token handled, the round trip still holds for files with no chunk equal to either reserved payload. |
| Transfer.TcpFirstBlockLost | src/tcp_client.py:27-38 | Served a non-empty file in any split whose first block is not `File not found`, the client reports success, but its copy lacks the first block. |
| Transfer.TcpCorrectedRoundTrip | src/tcp_client.py:27-38 | With the first block written, the copy equals the served file for every file and every split whose first block is not `File not found`. |
| Transfer.TcpTokenPrefixedFileLost | src/tcp_client.py:27-31 | A file that starts with `File not found`, split right after those 14 bytes, is reported missing and not written, even by the corrected client. |
| Transfer.TcpMissingFileReported | src/tcp_client.py:27-31 | The server's token, received whole, makes the client fail without writing anything. |
| Transfer.TcpSplitTokenMissed | src/tcp_client.py:27-29 | A token split over two receives, at any point, is not recognised. The part after the split is saved as the file, with success. |
| Transfer.TcpServerFailureLooksLikeEmptyFile | src/tcp_client.py:27-41 | Any server run that sends no byte, read by a client whose connection closes in order, is taken for an empty file, with success. This includes a decode failure and an unopenable entry. |
| Transfer.TcpFileEqualToTokenLooksMissing | src/tcp_client.py:29-31 | A file whose content is `File not found`, received in one block, is taken for the token. |

## Left out

- Socket creation, `bind`, `listen`, `accept`, `setsockopt`, `connect` and
  the with-blocks that close sockets are I/O plumbing. Their effect is the
  input and output sequences above.
- Logging (`setup_custom_logger` and every `logger` call) is not part of
  this model. The handler outcomes (`Served`, `NotFound`, `Failed`) say
  which log line a TCP connection ends with.
- UTF-8 encoding and decoding are left to parameters. Only a failing decode
  is modelled, as an exception.
- The server loops run forever. The model runs them over a finite list of
  connections or requests.
- Datagram loss, reordering and duplication are not modelled.
- The UDP client accepts datagrams from any sender, because it ignores the
  address `recvfrom` returns. The model has no other senders.
- The 5-second timeout is modelled only by its outcome: the receive after
  the last datagram raises.
- The ports do not match: the UDP client uses 9090 and the UDP server uses
  8080. The end-to-end UDP lemmas assume the two are pointed at each other.
- The behaviour of concurrent TCP clients waiting in the listen backlog is
  not modelled.
- TcpServer.HandleClient: only decode, open and `sendall` can fail. A
  `conn.recv` that raises, or a `file.read` that raises partway through the
  file, is not modelled; their outcomes would match the modelled failure
  paths (`Close` alone, or a prefix of chunks and then `Close`).
- TcpServer.HandleClient: a `sendall` that raises is modelled as sending
  none of its chunk. Python may have sent part of it already.
- Transfer.TcpCorrectedRoundTrip: holds only for splits whose first block is
  not `File not found`. The token travels in band, so a file that starts with
  it and is split right after it cannot be recovered even by the corrected
  client (`Transfer.TcpTokenPrefixedFileLost`).
- Transfer.TcpServerFailureLooksLikeEmptyFile: assumes the client's
  connection closes in order. A server whose `sendall` raised had a peer that
  reset or vanished, and that client reports failure instead.
- TcpClient.RequestFile: does not model a failing `sendall` of the request
  or a failing `file.write`. Only `connect`, receives and opening the output
  file can fail.
- UdpServer.HandleFileRequest: does not model a failing `sendto`. Only the
  open can raise.
- UdpClient.ReceiveFile: does not model a failing `file.write`. Only the
  open and the timeout can raise.
- Trimming, printable-character checks, pacing delays, retry-on-block and
  keepalive filtering are not in this code. They belong to a hardened
  server that is not part of this model.

## Findings

| source | as written | input that shows it | evidently intended | confidence | as-written member | corrected member |
|---|---|---|---|---|---|---|
| src/tcp_client.py:27-38 | the first receive `initial_data` is only compared with the token and then dropped; only later receives are written | any non-empty file, e.g. 5000 bytes received as blocks of 4096 and 904: the copy holds only the last 904 bytes, and the result is True | write `initial_data` before the loop, so the copy equals the file | high (not executed) | Transfer.TcpFirstBlockLost | Transfer.TcpCorrectedRoundTrip |
| src/udp_client.py:19-22 | a `File not found` datagram is written to the output file like data, and the client then waits for the timeout | the server's reply for a missing file, the single datagram `File not found`: `received_<name>` holds `File not found` and the client fails only on timeout | stop at once with failure and do not write the token | medium (not executed) | Transfer.UdpMissingFileWrittenAsData | Transfer.UdpCorrectedReportsMissing |

The command-line methods keep the code as written. The corrected
definitions are `TcpClient.FetchCorrected` and `UdpClient.ReceiveChecked`.
