/**
  The roles put together: what a client ends up with when it is fed what the
  matching server sends. Datagrams arrive complete, in order and without loss;
  a stream reaches the stream client as some split into non-empty receives of
  at most `BUFFER_SIZE` bytes.
 */
module Transfer {
  import opened Wrappers
  import opened Framing
  import opened Files
  import TcpServer
  import TcpClient
  import UdpServer
  import UdpClient

  lemma ServerDatagramsFitBuffer(data: seq<byte>)
    ensures UdpClient.Truncated(Chunks(data)) == Chunks(data)
  {
    ChunksSized(data);
  }

  // Datagram transport

  /** Round trip: fed the server's datagrams for a readable file, the client
      ends on the terminator holding exactly the file, provided no chunk of
      the file is itself `__EOF__`. */
  lemma UdpRoundTrip(fs: FileSystem, name: string, data: seq<byte>, disk: Disk)
    requires name in fs && fs[name] == File(data)
    requires forall i :: 0 <= i < |Chunks(data)| ==> Chunks(data)[i] != EOF_MARK
    requires OutputName(name) !in disk.locked
    ensures UdpClient.Receive(name, UdpServer.Reply(fs, name), disk) ==
      UdpClient.Received(UdpClient.Done, Write(disk, OutputName(name), data))
  {
    var chunks := Chunks(data);
    var incoming := UdpServer.Reply(fs, name);
    ServerDatagramsFitBuffer(data);
    assert incoming[..|chunks|] == chunks;
    UdpClient.StopsAtFirstTerminator(incoming, |chunks|);
    ChunksFlatten(data);
  }

  /** A chunk that happens to equal `__EOF__` ends the transfer early: the
      client stops there, reports success, and holds only the chunks before
      it, which is strictly less than the file. */
  lemma UdpTerminatorInFile(fs: FileSystem, name: string, data: seq<byte>, k: nat, disk: Disk)
    requires name in fs && fs[name] == File(data)
    requires k < |Chunks(data)| && Chunks(data)[k] == EOF_MARK
    requires forall i :: 0 <= i < k ==> Chunks(data)[i] != EOF_MARK
    requires OutputName(name) !in disk.locked
    ensures var r := UdpClient.Receive(name, UdpServer.Reply(fs, name), disk);
      r.status == UdpClient.Done &&
      r.disk == Write(disk, OutputName(name), Flatten(Chunks(data)[..k])) &&
      |Flatten(Chunks(data)[..k])| < |data|
  {
    var chunks := Chunks(data);
    var incoming := UdpServer.Reply(fs, name);
    assert incoming == chunks + [EOF_MARK];
    ServerDatagramsFitBuffer(data);
    assert UdpClient.Truncated(incoming[..k]) == chunks[..k];
    UdpClient.StopsAtFirstTerminator(incoming, k);
    ChunksProperPrefix(data, k);
  }

  /** In particular a file holding exactly the 7 bytes `__EOF__` arrives empty. */
  lemma UdpFileOfTerminatorArrivesEmpty(fs: FileSystem, name: string, disk: Disk)
    requires name in fs && fs[name] == File(EOF_MARK)
    requires OutputName(name) !in disk.locked
    ensures UdpClient.Receive(name, UdpServer.Reply(fs, name), disk) ==
      UdpClient.Received(UdpClient.Done, Write(disk, OutputName(name), []))
  {
    SmallFileIsOneChunk(EOF_MARK);
    UdpTerminatorInFile(fs, name, EOF_MARK, 0, disk);
  }

  /** As written, the client takes the server's error token for data: it
      writes `File not found` into `received_<name>` and waits until the
      receive times out. */
  lemma UdpMissingFileWrittenAsData(fs: FileSystem, name: string, disk: Disk)
    requires name !in fs
    requires OutputName(name) !in disk.locked
    ensures UdpClient.Receive(name, UdpServer.Reply(fs, name), disk) ==
      UdpClient.Received(UdpClient.TimedOut, Write(disk, OutputName(name), NOT_FOUND))
  {
    var incoming := UdpServer.Reply(fs, name);
    assert |NOT_FOUND| != |EOF_MARK|;
    UdpClient.StopsAtFirstTerminator(incoming, 1);
    assert incoming == [NOT_FOUND] && incoming[..1] == incoming;
    assert UdpClient.Truncated(incoming) == incoming;
    assert incoming[1..] == [];
    assert Flatten(incoming) == NOT_FOUND + Flatten([]) == NOT_FOUND;
    assert UdpClient.Collect(incoming, 0) == (NOT_FOUND, false);
  }

  /** With the token handled, a missing file is reported at once, whatever
      would arrive after the token, and the token is not written. */
  lemma UdpCorrectedReportsMissing(fs: FileSystem, name: string, later: seq<seq<byte>>, disk: Disk)
    requires name !in fs
    requires OutputName(name) !in disk.locked
    ensures UdpClient.ReceiveChecked(name, UdpServer.Reply(fs, name) + later, disk) ==
      UdpClient.Received(UdpClient.Refused, Write(disk, OutputName(name), []))
  {
    var incoming := UdpServer.Reply(fs, name) + later;
    assert incoming[0] == NOT_FOUND;
    assert |NOT_FOUND| != |EOF_MARK|;
  }

  /** With the token handled, a readable file still arrives whole when none
      of its chunks is `__EOF__` or `File not found`. */
  lemma UdpCorrectedRoundTrip(fs: FileSystem, name: string, data: seq<byte>, disk: Disk)
    requires name in fs && fs[name] == File(data)
    requires forall i :: 0 <= i < |Chunks(data)| ==> Chunks(data)[i] != EOF_MARK && Chunks(data)[i] != NOT_FOUND
    requires OutputName(name) !in disk.locked
    ensures UdpClient.ReceiveChecked(name, UdpServer.Reply(fs, name), disk) ==
      UdpClient.Received(UdpClient.Done, Write(disk, OutputName(name), data))
  {
    var chunks := Chunks(data);
    var incoming := UdpServer.Reply(fs, name);
    ServerDatagramsFitBuffer(data);
    assert incoming[..|chunks|] == chunks;
    UdpClient.CollectCheckedUpTo(incoming, 0, |chunks|);
    assert incoming[0..|chunks|] == chunks;
    ChunksFlatten(data);
    assert data + [] == data;
  }

  // Stream transport

  /** The stream a client of connection `c` reads, split into its receives. */
  ghost predicate SplitOf(blocks: seq<seq<byte>>, stream: seq<byte>)
  {
    WellSized(blocks) && Flatten(blocks) == stream
  }

  /** As written, the stream client loses the first block: served a
      non-empty readable file over a connection that does not break, and
      receiving it in any split whose first block is not `File not found`,
      it reports success but its copy lacks the first block. */
  lemma TcpFirstBlockLost(c: TcpServer.Connection, fs: FileSystem, decode: seq<byte> -> Option<string>,
                          data: seq<byte>, name: string, encode: string -> seq<byte>,
                          peer: TcpClient.Peer, disk: Disk)
    requires decode(Truncate(c.request)).Some?
    requires decode(Truncate(c.request)).value in fs
    requires fs[decode(Truncate(c.request)).value] == File(data)
    requires c.sendsAccepted.None?
    requires data != []
    requires peer.reachable && !peer.resetAtEnd
    requires SplitOf(peer.blocks, TcpServer.SentBytes(TcpServer.Respond(c, fs, decode).events))
    requires peer.blocks != [] ==> peer.blocks[0] != NOT_FOUND
    requires OutputName(name) !in disk.locked
    ensures var run := TcpClient.Fetch(name, encode, peer, disk);
      run.success && peer.blocks != [] &&
      run.disk == Write(disk, OutputName(name), Flatten(peer.blocks[1..])) &&
      data == peer.blocks[0] + Flatten(peer.blocks[1..]) &&
      |Flatten(peer.blocks[1..])| < |data|
  {
    TcpServer.StreamsWholeFile(c, fs, decode, data);
    assert peer.blocks != [];
    TcpClient.WritesAllButFirstBlock(name, encode, peer, disk);
    assert Flatten(peer.blocks) == peer.blocks[0] + Flatten(peer.blocks[1..]);
  }

  /** With the first block written, the stream client's copy equals the
      served file, for every file (empty included) and every split whose
      first block is not `File not found`; `TcpTokenPrefixedFileLost` shows
      that the other splits stay lost. */
  lemma TcpCorrectedRoundTrip(c: TcpServer.Connection, fs: FileSystem, decode: seq<byte> -> Option<string>,
                              data: seq<byte>, name: string, encode: string -> seq<byte>,
                              peer: TcpClient.Peer, disk: Disk)
    requires decode(Truncate(c.request)).Some?
    requires decode(Truncate(c.request)).value in fs
    requires fs[decode(Truncate(c.request)).value] == File(data)
    requires c.sendsAccepted.None?
    requires peer.reachable && !peer.resetAtEnd
    requires SplitOf(peer.blocks, TcpServer.SentBytes(TcpServer.Respond(c, fs, decode).events))
    requires peer.blocks != [] ==> peer.blocks[0] != NOT_FOUND
    requires OutputName(name) !in disk.locked
    ensures TcpClient.FetchCorrected(name, encode, peer, disk) ==
      TcpClient.Run(true, encode(name), Write(disk, OutputName(name), data))
  {
    TcpServer.StreamsWholeFile(c, fs, decode, data);
    if peer.blocks == [] {
      assert data == [];
    } else {
      TcpClient.DrainWithoutEmptyRead(peer, 1);
      assert Flatten(peer.blocks) == peer.blocks[0] + Flatten(peer.blocks[1..]);
    }
  }

  /** The token travels in band, so even the corrected client cannot recover
      a file that starts with `File not found` when the first receive ends
      right after the token: it reports failure and writes nothing. */
  lemma TcpTokenPrefixedFileLost(tail: seq<byte>, name: string, encode: string -> seq<byte>, disk: Disk)
    requires 0 < |tail| <= BUFFER_SIZE
    ensures var peer := TcpClient.Peer(true, [NOT_FOUND, tail], false);
      SplitOf(peer.blocks, NOT_FOUND + tail) &&
      TcpClient.FetchCorrected(name, encode, peer, disk) == TcpClient.Run(false, encode(name), disk)
  {
    var peer := TcpClient.Peer(true, [NOT_FOUND, tail], false);
    assert peer.blocks[1..][1..] == [];
    assert Flatten(peer.blocks[1..]) == tail + Flatten([]) == tail;
    assert Flatten(peer.blocks) == NOT_FOUND + tail;
    assert TcpClient.ReceiveAt(peer, 0) == Some(NOT_FOUND);
  }

  /** A missing file, with the token arriving in one receive: the client
      reports failure and writes nothing. */
  lemma TcpMissingFileReported(c: TcpServer.Connection, fs: FileSystem, decode: seq<byte> -> Option<string>,
                               name: string, encode: string -> seq<byte>, peer: TcpClient.Peer, disk: Disk)
    requires decode(Truncate(c.request)).Some? && decode(Truncate(c.request)).value !in fs
    requires TcpServer.Accepts(c, 0)
    requires peer.reachable
    requires peer.blocks == TcpServer.Payloads(TcpServer.Respond(c, fs, decode).events)
    ensures TcpClient.Fetch(name, encode, peer, disk) == TcpClient.Run(false, encode(name), disk)
  {
    TcpServer.NotFoundSendsOnlyToken(c, fs, decode);
  }

  /** The token is recognised only when the first receive holds it whole:
      split over two receives at any point, it is taken for a file, the
      call succeeds, and the tail after the split is saved. */
  lemma TcpSplitTokenMissed(name: string, encode: string -> seq<byte>, disk: Disk, j: nat)
    requires 0 < j < |NOT_FOUND|
    requires OutputName(name) !in disk.locked
    ensures var peer := TcpClient.Peer(true, [NOT_FOUND[..j], NOT_FOUND[j..]], false);
      TcpClient.Fetch(name, encode, peer, disk) ==
        TcpClient.Run(true, encode(name), Write(disk, OutputName(name), NOT_FOUND[j..]))
  {
    var peer := TcpClient.Peer(true, [NOT_FOUND[..j], NOT_FOUND[j..]], false);
    assert NOT_FOUND[..j] != NOT_FOUND by { assert |NOT_FOUND[..j]| != |NOT_FOUND|; }
    assert |NOT_FOUND[j..]| > 0;
    TcpClient.DrainWithoutEmptyRead(peer, 1);
    assert peer.blocks[1..] == [NOT_FOUND[j..]];
    assert peer.blocks[1..][1..] == [];
    assert Flatten(peer.blocks[1..]) == NOT_FOUND[j..] + Flatten([]) == NOT_FOUND[j..];
    assert TcpClient.Drain(peer, 1) == (NOT_FOUND[j..], true);
    assert TcpClient.ReceiveAt(peer, 0) == Some(NOT_FOUND[..j]);
  }

  /** A server that closes without sending anything (a request that fails
      to decode, an entry it cannot open, or an empty file) is, for a client
      whose connection then closes in order, indistinguishable from an empty
      file: it reports success and leaves an empty `received_<name>`. */
  lemma TcpServerFailureLooksLikeEmptyFile(c: TcpServer.Connection, fs: FileSystem, decode: seq<byte> -> Option<string>,
                                           name: string, encode: string -> seq<byte>, disk: Disk)
    requires TcpServer.Payloads(TcpServer.Respond(c, fs, decode).events) == []
    requires OutputName(name) !in disk.locked
    ensures var peer := TcpClient.Peer(true, TcpServer.Payloads(TcpServer.Respond(c, fs, decode).events), false);
      TcpClient.Fetch(name, encode, peer, disk) ==
        TcpClient.Run(true, encode(name), Write(disk, OutputName(name), []))
  {
    var peer := TcpClient.Peer(true, [], false);
    assert TcpClient.ReceiveAt(peer, 0) == Some([]);
    assert |NOT_FOUND| != 0;
  }

  /** A file whose content is exactly `File not found`, received in one
      block, is taken for the error token: the client reports failure and
      writes nothing. */
  lemma TcpFileEqualToTokenLooksMissing(c: TcpServer.Connection, fs: FileSystem, decode: seq<byte> -> Option<string>,
                                        name: string, encode: string -> seq<byte>, disk: Disk)
    requires decode(Truncate(c.request)).Some?
    requires decode(Truncate(c.request)).value in fs
    requires fs[decode(Truncate(c.request)).value] == File(NOT_FOUND)
    requires c.sendsAccepted.None?
    ensures TcpServer.Payloads(TcpServer.Respond(c, fs, decode).events) == [NOT_FOUND]
    ensures var peer := TcpClient.Peer(true, [NOT_FOUND], false);
      TcpClient.Fetch(name, encode, peer, disk) == TcpClient.Run(false, encode(name), disk)
  {
    SmallFileIsOneChunk(NOT_FOUND);
    TcpServer.PayloadsOfSends([NOT_FOUND]);
  }
}
