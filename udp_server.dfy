/**
  The datagram server (`handle_file_request` and the receive loop of `main`).
  The first 4096 bytes of each request datagram, the part `recvfrom` keeps,
  are decoded as a file name. A missing file gets
  one error-token datagram; a readable file gets one datagram per chunk and
  then the terminator, all addressed to the requester. Any other exception is
  not caught and stops the server.
 */
module UdpServer {
  import opened Wrappers
  import opened Framing
  import opened Files

  /** A sender or receiver address, `(ip, port)`. */
  datatype Addr = Addr(host: string, port: int)

  datatype Datagram = Datagram(payload: seq<byte>, to: Addr)

  function AddressedTo(payloads: seq<seq<byte>>, addr: Addr): (ds: seq<Datagram>)
    ensures |ds| == |payloads|
    ensures forall i :: 0 <= i < |payloads| ==> ds[i] == Datagram(payloads[i], addr)
  {
    seq(|payloads|, i requires 0 <= i < |payloads| => Datagram(payloads[i], addr))
  }

  /** `open(name, "rb")` raises something other than `FileNotFoundError`,
      which `handle_file_request` does not catch. */
  predicate Raises(fs: FileSystem, name: string)
  {
    name in fs && fs[name].Unreadable?
  }

  /** The payloads `handle_file_request` sends for `name`, in order. */
  function Reply(fs: FileSystem, name: string): seq<seq<byte>>
  {
    if name !in fs then [NOT_FOUND]
    else
      match fs[name]
      case File(data) => Chunks(data) + [EOF_MARK]
      case Unreadable => []
  }

  /** `handle_file_request`: reads the file with `ReadAt` until it returns
      nothing, sending each chunk and then the terminator. */
  method HandleFileRequest(name: string, fs: FileSystem, addr: Addr)
    returns (sent: seq<Datagram>, raised: bool)
    ensures raised == Raises(fs, name)
    ensures sent == AddressedTo(Reply(fs, name), addr)
    ensures forall d :: d in sent ==> d.to == addr
  {
    sent, raised := [], false;
    if name !in fs {
      sent := [Datagram(NOT_FOUND, addr)];
      return;
    }
    match fs[name]
    case Unreadable =>
      raised := true;
    case File(data) =>
      var pos := 0;
      ghost var chunks: seq<seq<byte>> := [];
      while true
        invariant pos <= |data|
        invariant chunks + Chunks(data[pos..]) == Chunks(data)
        invariant sent == AddressedTo(chunks, addr)
        decreases |data| - pos
      {
        var chunk := ReadAt(data, pos);
        if |chunk| == 0 {
          sent := sent + [Datagram(EOF_MARK, addr)];
          break;
        }
        ChunksStep(data, pos);
        sent := sent + [Datagram(chunk, addr)];
        chunks := chunks + [chunk];
        pos := pos + |chunk|;
      }
  }

  /** One request datagram as `recvfrom` returns it, with its sender. */
  datatype Request = Request(payload: seq<byte>, from: Addr)

  /** All datagrams sent so far, and whether an exception escaped `main`. */
  datatype ServerState = ServerState(sent: seq<Datagram>, crashed: bool)

  /** `main` on the requests `reqs`, received in this order; `decode` is the
      UTF-8 decoding of a request (`None` when it raises). After a crash no
      further request is read. */
  function ServeAll(reqs: seq<Request>, fs: FileSystem, decode: seq<byte> -> Option<string>): ServerState
    decreases |reqs|
  {
    if |reqs| == 0 then ServerState([], false)
    else
      var before := ServeAll(reqs[..|reqs| - 1], fs, decode);
      if before.crashed then before
      else
        var req := reqs[|reqs| - 1];
        var name := decode(Truncate(req.payload));
        if name.None? then ServerState(before.sent, true)
        else ServerState(before.sent + AddressedTo(Reply(fs, name.value), req.from), Raises(fs, name.value))
  }

  /** Once `main` has crashed, later requests change nothing. */
  lemma {:induction false} CrashIsFinal(reqs: seq<Request>, fs: FileSystem, decode: seq<byte> -> Option<string>, k: nat)
    requires k <= |reqs|
    requires ServeAll(reqs[..k], fs, decode).crashed
    ensures ServeAll(reqs, fs, decode) == ServeAll(reqs[..k], fs, decode)
    decreases |reqs|
  {
    if k < |reqs| {
      var n := |reqs| - 1;
      assert reqs[..n][..k] == reqs[..k];
      CrashIsFinal(reqs[..n], fs, decode, k);
    } else {
      assert reqs[..k] == reqs;
    }
  }

  /** `main`: take each request off the socket, decode the 4096 bytes `recvfrom` keeps
      and handle it. */
  method Serve(reqs: seq<Request>, fs: FileSystem, decode: seq<byte> -> Option<string>)
    returns (sent: seq<Datagram>, crashed: bool)
    ensures ServerState(sent, crashed) == ServeAll(reqs, fs, decode)
  {
    sent, crashed := [], false;
    var i := 0;
    while i < |reqs|
      invariant i <= |reqs|
      invariant ServerState(sent, false) == ServeAll(reqs[..i], fs, decode)
    {
      assert reqs[..i + 1][..i] == reqs[..i];
      var name := decode(Truncate(reqs[i].payload));
      if name.None? {
        crashed := true;
        CrashIsFinal(reqs, fs, decode, i + 1);
        return;
      }
      var out, raised := HandleFileRequest(name.value, fs, reqs[i].from);
      sent := sent + out;
      if raised {
        crashed := true;
        CrashIsFinal(reqs, fs, decode, i + 1);
        return;
      }
      i := i + 1;
    }
    assert reqs[..i] == reqs;
  }

  // Properties of one reply

  /** A readable file is sent as its chunks in order, each non-empty and at
      most `BUFFER_SIZE` bytes, then exactly one terminator; an empty file
      gets the terminator alone. */
  lemma ReplyForFile(fs: FileSystem, name: string, data: seq<byte>)
    requires name in fs && fs[name] == File(data)
    ensures var r := Reply(fs, name);
      |r| == (|data| + BUFFER_SIZE - 1) / BUFFER_SIZE + 1 &&
      r[|r| - 1] == EOF_MARK &&
      WellSized(r[..|r| - 1]) && Flatten(r[..|r| - 1]) == data
    ensures data == [] ==> Reply(fs, name) == [EOF_MARK]
  {
    var r := Reply(fs, name);
    assert r[..|r| - 1] == Chunks(data);
    ChunksFlatten(data);
    ChunksSized(data);
    ChunksCount(data);
  }

  /** A missing file gets the error token alone, with no terminator. */
  lemma ReplyForMissingFile(fs: FileSystem, name: string)
    requires name !in fs
    ensures Reply(fs, name) == [NOT_FOUND]
    ensures EOF_MARK !in Reply(fs, name)
  {
    assert NOT_FOUND != EOF_MARK by { assert |NOT_FOUND| != |EOF_MARK|; }
  }

  /** A request is answered by taking its whole received payload, decoded,
      as the file name (no trimming, no checks), and the reply goes to its
      sender. */
  lemma NameIsWholeRequest(reqs: seq<Request>, fs: FileSystem, decode: seq<byte> -> Option<string>, req: Request)
    requires !ServeAll(reqs, fs, decode).crashed
    requires decode(Truncate(req.payload)).Some?
    ensures var name := decode(Truncate(req.payload)).value;
      ServeAll(reqs + [req], fs, decode) ==
        ServerState(ServeAll(reqs, fs, decode).sent + AddressedTo(Reply(fs, name), req.from), Raises(fs, name))
  {
    assert (reqs + [req])[..|reqs|] == reqs;
  }
}
