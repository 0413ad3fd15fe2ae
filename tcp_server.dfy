/**
  The stream server (`handle_client` and its accept loop). One connection:
  read the request with a single receive of at most `BUFFER_SIZE` bytes, take
  it as the file name, answer with the error token when the name does not
  exist, otherwise stream the file chunk by chunk; connection close marks the
  end, and the connection is closed on every path.
 */
module TcpServer {
  import opened Wrappers
  import opened Framing
  import opened Files

  /** What the server does to one accepted connection, in order. */
  datatype ConnEvent = SendAll(payload: seq<byte>) | Close

  /** Which log line ends the handler: file sent, file not found, or an exception. */
  datatype Outcome = Served | NotFound | Failed

  datatype Handled = Handled(events: seq<ConnEvent>, outcome: Outcome)

  /** The client side of one accepted connection: the bytes it wrote (its
      request), and how many `sendall` calls go through before the connection
      breaks and `sendall` raises (`None`: it never breaks). */
  datatype Connection = Connection(request: seq<byte>, sendsAccepted: Option<nat>)

  /** The `sendall` numbered `i` (from 0) on `c` goes through. */
  predicate Accepts(c: Connection, i: nat)
  {
    c.sendsAccepted.None? || i < c.sendsAccepted.value
  }

  function Sends(chunks: seq<seq<byte>>): (events: seq<ConnEvent>)
    ensures |events| == |chunks|
    ensures forall i :: 0 <= i < |chunks| ==> events[i] == SendAll(chunks[i])
  {
    seq(|chunks|, i requires 0 <= i < |chunks| => SendAll(chunks[i]))
  }

  /** The payloads handed to `sendall`, in order. */
  function Payloads(events: seq<ConnEvent>): seq<seq<byte>>
    decreases |events|
  {
    if |events| == 0 then []
    else (if events[0].SendAll? then [events[0].payload] else []) + Payloads(events[1..])
  }

  /** The bytes the client can read from the connection. */
  function SentBytes(events: seq<ConnEvent>): seq<byte>
  {
    Flatten(Payloads(events))
  }

  /** `handle_client` on connection `c`, as a specification. `decode` is the
      UTF-8 decoding of the request (`None` when it raises). */
  function Respond(c: Connection, fs: FileSystem, decode: seq<byte> -> Option<string>): Handled
  {
    var name := decode(Truncate(c.request));
    if name.None? then Handled([Close], Failed)
    else if name.value !in fs then
      if Accepts(c, 0) then Handled([SendAll(NOT_FOUND), Close], NotFound)
      else Handled([Close], Failed)
    else
      match fs[name.value]
      case Unreadable => Handled([Close], Failed)
      case File(data) =>
        var chunks := Chunks(data);
        if c.sendsAccepted.None? || |chunks| <= c.sendsAccepted.value then
          Handled(Sends(chunks) + [Close], Served)
        else
          Handled(Sends(chunks[..c.sendsAccepted.value]) + [Close], Failed)
  }

  /** `handle_client`: the file is read with `ReadAt` until it returns nothing,
      each chunk is passed to `sendall`, and `Close` is appended on every path. */
  method HandleClient(c: Connection, fs: FileSystem, decode: seq<byte> -> Option<string>)
    returns (events: seq<ConnEvent>, outcome: Outcome)
    ensures Handled(events, outcome) == Respond(c, fs, decode)
  {
    events := [];
    var name := decode(Truncate(c.request));
    if name.None? {
      outcome := Failed;
    } else if name.value !in fs {
      if Accepts(c, 0) {
        events := [SendAll(NOT_FOUND)];
        outcome := NotFound;
      } else {
        outcome := Failed;
      }
    } else {
      match fs[name.value]
      case Unreadable =>
        outcome := Failed;
      case File(data) =>
        var sent: seq<seq<byte>> := [];
        var pos := 0;
        outcome := Served;
        while true
          invariant pos <= |data|
          invariant sent + Chunks(data[pos..]) == Chunks(data)
          invariant c.sendsAccepted.Some? ==> |sent| <= c.sendsAccepted.value
          invariant outcome == Served
          decreases |data| - pos
        {
          var chunk := ReadAt(data, pos);
          if |chunk| == 0 {
            break;
          }
          ChunksStep(data, pos);
          if !Accepts(c, |sent|) {
            outcome := Failed;
            break;
          }
          sent := sent + [chunk];
          pos := pos + |chunk|;
        }
        assert sent == Chunks(data)[..|sent|];
        events := Sends(sent);
    }
    events := events + [Close];
  }

  /** The accept loop's record: which connection was accepted, and what the
      handler did to it. */
  datatype ServerEvent = Accepted(conn: nat) | On(conn: nat, event: ConnEvent)

  function Tagged(conn: nat, events: seq<ConnEvent>): (r: seq<ServerEvent>)
    ensures |r| == |events|
    ensures forall j :: 0 <= j < |events| ==> r[j] == On(conn, events[j])
  {
    seq(|events|, j requires 0 <= j < |events| => On(conn, events[j]))
  }

  /** `main`'s loop over the connections `conns`, accepted in this order: each
      is handled to the end before the next is accepted. */
  function ServeLog(conns: seq<Connection>, fs: FileSystem, decode: seq<byte> -> Option<string>): seq<ServerEvent>
    decreases |conns|
  {
    if |conns| == 0 then []
    else
      var n := |conns| - 1;
      ServeLog(conns[..n], fs, decode) + [Accepted(n)] + Tagged(n, Respond(conns[n], fs, decode).events)
  }

  /** `main`: one `handle_client` call per accepted connection, in order. */
  method Serve(conns: seq<Connection>, fs: FileSystem, decode: seq<byte> -> Option<string>)
    returns (log: seq<ServerEvent>, outcomes: seq<Outcome>)
    ensures log == ServeLog(conns, fs, decode)
    ensures |outcomes| == |conns|
    ensures forall i :: 0 <= i < |conns| ==> outcomes[i] == Respond(conns[i], fs, decode).outcome
  {
    log, outcomes := [], [];
    for i := 0 to |conns|
      invariant log == ServeLog(conns[..i], fs, decode)
      invariant |outcomes| == i
      invariant forall j :: 0 <= j < i ==> outcomes[j] == Respond(conns[j], fs, decode).outcome
    {
      var events, outcome := HandleClient(conns[i], fs, decode);
      assert conns[..i + 1][..i] == conns[..i];
      log := log + [Accepted(i)] + Tagged(i, events);
      outcomes := outcomes + [outcome];
    }
    assert conns[..|conns|] == conns;
  }

  // Properties of one connection

  lemma {:induction false} PayloadsOfSends(chunks: seq<seq<byte>>)
    ensures Payloads(Sends(chunks) + [Close]) == chunks
    decreases |chunks|
  {
    var events := Sends(chunks) + [Close];
    if |chunks| == 0 {
      assert events == [Close];
    } else {
      assert events[1..] == Sends(chunks[1..]) + [Close];
      PayloadsOfSends(chunks[1..]);
    }
  }

  /** The connection is closed on every path, exactly once, as the last thing
      the handler does. */
  lemma ClosedOnEveryPath(c: Connection, fs: FileSystem, decode: seq<byte> -> Option<string>)
    ensures var events := Respond(c, fs, decode).events;
      |events| > 0 && events[|events| - 1] == Close &&
      forall i :: 0 <= i < |events| - 1 ==> events[i].SendAll?
  {
  }

  /** A name that does not exist gets exactly the error token, and nothing
      follows it. */
  lemma NotFoundSendsOnlyToken(c: Connection, fs: FileSystem, decode: seq<byte> -> Option<string>)
    requires decode(Truncate(c.request)).Some? && decode(Truncate(c.request)).value !in fs
    requires Accepts(c, 0)
    ensures Respond(c, fs, decode).outcome == NotFound
    ensures Payloads(Respond(c, fs, decode).events) == [NOT_FOUND]
    ensures SentBytes(Respond(c, fs, decode).events) == NOT_FOUND
  {
    PayloadsOfSends([NOT_FOUND]);
    assert Sends([NOT_FOUND]) + [Close] == [SendAll(NOT_FOUND), Close];
    assert Flatten([NOT_FOUND]) == NOT_FOUND + Flatten([]);
  }

  /** A readable file on a connection that does not break is sent whole, in
      order, as `ceil(|data| / BUFFER_SIZE)` non-empty chunks of at most
      `BUFFER_SIZE` bytes (none for an empty file). */
  lemma StreamsWholeFile(c: Connection, fs: FileSystem, decode: seq<byte> -> Option<string>, data: seq<byte>)
    requires decode(Truncate(c.request)).Some?
    requires decode(Truncate(c.request)).value in fs
    requires fs[decode(Truncate(c.request)).value] == File(data)
    requires c.sendsAccepted.None? || |Chunks(data)| <= c.sendsAccepted.value
    ensures Respond(c, fs, decode).outcome == Served
    ensures SentBytes(Respond(c, fs, decode).events) == data
    ensures WellSized(Payloads(Respond(c, fs, decode).events))
    ensures |Payloads(Respond(c, fs, decode).events)| == (|data| + BUFFER_SIZE - 1) / BUFFER_SIZE
    ensures data == [] ==> Respond(c, fs, decode).events == [Close]
  {
    PayloadsOfSends(Chunks(data));
    ChunksFlatten(data);
    ChunksSized(data);
    ChunksCount(data);
  }

  /** A request that fails to decode, or names an entry that exists but
      cannot be opened, is logged as a failure and closed without sending
      anything. */
  lemma FailureSendsNothing(c: Connection, fs: FileSystem, decode: seq<byte> -> Option<string>)
    requires decode(Truncate(c.request)).None? ||
      (decode(Truncate(c.request)).value in fs && fs[decode(Truncate(c.request)).value].Unreadable?)
    ensures Respond(c, fs, decode).outcome == Failed
    ensures Respond(c, fs, decode).events == [Close]
    ensures Payloads(Respond(c, fs, decode).events) == []
  {
  }

  /** Whatever happens, the bytes sent for a readable file are a prefix of it;
      when `sendall` raises, the chunks that went through are the first ones. */
  lemma SentIsPrefixOfFile(c: Connection, fs: FileSystem, decode: seq<byte> -> Option<string>, data: seq<byte>)
    requires decode(Truncate(c.request)).Some?
    requires decode(Truncate(c.request)).value in fs
    requires fs[decode(Truncate(c.request)).value] == File(data)
    ensures SentBytes(Respond(c, fs, decode).events) <= data
    ensures Respond(c, fs, decode).outcome == Failed ==>
      Payloads(Respond(c, fs, decode).events) == Chunks(data)[..c.sendsAccepted.value]
  {
    var chunks := Chunks(data);
    var k := if c.sendsAccepted.None? || |chunks| <= c.sendsAccepted.value then |chunks| else c.sendsAccepted.value;
    PayloadsOfSends(chunks[..k]);
    assert chunks[..|chunks|] == chunks;
    ChunksPrefix(data, k);
  }

  /** Only the first `BUFFER_SIZE` bytes of the request are read: a longer
      name is cut, and what follows never matters. */
  lemma NameReadInOneReceive(c: Connection, fs: FileSystem, decode: seq<byte> -> Option<string>, extra: seq<byte>)
    requires |c.request| >= BUFFER_SIZE
    ensures Respond(c.(request := c.request + extra), fs, decode) == Respond(c, fs, decode)
  {
    assert Truncate(c.request + extra) == Truncate(c.request);
  }

  // Properties of the accept loop

  lemma {:induction false} ServeLogPrefix(conns: seq<Connection>, fs: FileSystem, decode: seq<byte> -> Option<string>, k: nat)
    requires k <= |conns|
    ensures ServeLog(conns[..k], fs, decode) <= ServeLog(conns, fs, decode)
    decreases |conns|
  {
    if k < |conns| {
      var n := |conns| - 1;
      assert conns[..n][..k] == conns[..k];
      ServeLogPrefix(conns[..n], fs, decode, k);
    } else {
      assert conns[..k] == conns;
    }
  }

  /** Connection `k` is accepted only once connection `k - 1` has been closed:
      the record of the first `k` connections is a prefix of the whole record,
      ends with `Close` of connection `k - 1`, and the next entry is the accept
      of connection `k`. */
  lemma AcceptsOneAtATime(conns: seq<Connection>, fs: FileSystem, decode: seq<byte> -> Option<string>, k: nat)
    requires 0 < k < |conns|
    ensures var log := ServeLog(conns, fs, decode);
      var done := ServeLog(conns[..k], fs, decode);
      done <= log && |done| < |log| &&
      done[|done| - 1] == On(k - 1, Close) && log[|done|] == Accepted(k)
  {
    var log := ServeLog(conns, fs, decode);
    var done := ServeLog(conns[..k], fs, decode);
    ServeLogPrefix(conns, fs, decode, k + 1);
    assert conns[..k + 1][..k] == conns[..k];
    assert ServeLog(conns[..k + 1], fs, decode)[|done|] == Accepted(k);
    assert conns[..k][..k - 1] == conns[..k - 1];
    ClosedOnEveryPath(conns[k - 1], fs, decode);
  }
}
