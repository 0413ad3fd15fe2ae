/**
  The stream client (`request_file` and the argument check of `main`).
  It sends the name once, takes the first receive as `initial_data`, gives up
  when that equals the error token, and otherwise writes every later receive
  to `received_<name>` until a receive returns nothing.
 */
module TcpClient {
  import opened Wrappers
  import opened Framing
  import opened Files

  /** The server as the client sees it: whether `connect` succeeds, what the
      successive `recv(BUFFER_SIZE)` calls return (an empty block is a
      zero-length read: the server closed), and whether, once `blocks` is used
      up, the next receive raises (connection reset) instead of returning
      nothing (orderly close). */
  datatype Peer = Peer(reachable: bool, blocks: seq<seq<byte>>, resetAtEnd: bool)

  /** What receive number `i` returns: a block, or `None` when it raises. */
  function ReceiveAt(peer: Peer, i: nat): Option<seq<byte>>
  {
    if i < |peer.blocks| then Some(peer.blocks[i])
    else if peer.resetAtEnd then None
    else Some([])
  }

  /** The result of `request_file`: its return value, the bytes it sent, and
      the client's disk afterwards. */
  datatype Run = Run(success: bool, request: seq<byte>, disk: Disk)

  /** The receive loop from receive number `i` on: the bytes it writes, and
      whether it ends on a zero-length read (`true`) or on an exception. */
  function Drain(peer: Peer, i: nat): (seq<byte>, bool)
    decreases |peer.blocks| - i
  {
    if i >= |peer.blocks| then ([], !peer.resetAtEnd)
    else if peer.blocks[i] == [] then ([], true)
    else
      var rest := Drain(peer, i + 1);
      (peer.blocks[i] + rest.0, rest.1)
  }

  /** `request_file(name)` as a specification; `encode` is the UTF-8 encoding
      of the name. */
  function Fetch(name: string, encode: string -> seq<byte>, peer: Peer, disk: Disk): Run
  {
    if !peer.reachable then Run(false, [], disk)
    else
      var request := encode(name);
      var initial := ReceiveAt(peer, 0);
      if initial.None? || initial.value == NOT_FOUND || OutputName(name) in disk.locked then
        Run(false, request, disk)
      else
        var drained := Drain(peer, 1);
        Run(drained.1, request, Write(disk, OutputName(name), drained.0))
  }

  /** `request_file`: the first receive is checked against the error token and
      then dropped; later receives are appended to the output file. */
  method RequestFile(name: string, encode: string -> seq<byte>, peer: Peer, disk: Disk)
    returns (success: bool, request: seq<byte>, disk': Disk)
    ensures Run(success, request, disk') == Fetch(name, encode, peer, disk)
  {
    success, request, disk' := false, [], disk;
    if !peer.reachable {
      return;
    }
    request := encode(name);
    var initial := ReceiveAt(peer, 0);
    if initial.None? || initial.value == NOT_FOUND {
      return;
    }
    var out := OutputName(name);
    if out in disk.locked {
      return;
    }
    var written: seq<byte> := [];
    disk' := Write(disk, out, written);
    var i := 1;
    assert written + Drain(peer, 1).0 == Drain(peer, 1).0;
    while true
      invariant 1 <= i
      invariant disk' == Write(disk, out, written)
      invariant Drain(peer, 1) == (written + Drain(peer, i).0, Drain(peer, i).1)
      decreases |peer.blocks| - i
    {
      var chunk := ReceiveAt(peer, i);
      if chunk.None? {
        assert written + [] == written;
        return;
      }
      if chunk.value == [] {
        assert written + [] == written;
        break;
      }
      assert Drain(peer, i) == (chunk.value + Drain(peer, i + 1).0, Drain(peer, i + 1).1);
      assert written + (chunk.value + Drain(peer, i + 1).0) == (written + chunk.value) + Drain(peer, i + 1).0;
      written := written + chunk.value;
      disk' := Write(disk, out, written);
      i := i + 1;
    }
    success := true;
  }

  /** The fix of the dropped first block: `initial_data` is written before the
      blocks that follow it. */
  function FetchCorrected(name: string, encode: string -> seq<byte>, peer: Peer, disk: Disk): Run
  {
    if !peer.reachable then Run(false, [], disk)
    else
      var request := encode(name);
      var initial := ReceiveAt(peer, 0);
      if initial.None? || initial.value == NOT_FOUND || OutputName(name) in disk.locked then
        Run(false, request, disk)
      else
        var drained := Drain(peer, 1);
        Run(drained.1, request, Write(disk, OutputName(name), initial.value + drained.0))
  }

  /** `main`: exactly one argument, else exit status 1 without any network
      action; otherwise 0 when `request_file` succeeds and 1 when it fails. */
  method CommandLine(argv: seq<string>, encode: string -> seq<byte>, peer: Peer, disk: Disk)
    returns (code: int, request: seq<byte>, disk': Disk)
    ensures |argv| != 2 ==> code == 1 && request == [] && disk' == disk
    ensures |argv| == 2 ==>
      var run := Fetch(argv[1], encode, peer, disk);
      request == run.request && disk' == run.disk && (code == 0 <==> run.success) && (code == 0 || code == 1)
  {
    if |argv| != 2 {
      return 1, [], disk;
    }
    var success;
    success, request, disk' := RequestFile(argv[1], encode, peer, disk);
    code := if success then 0 else 1;
  }

  // Properties of the receive loop

  /** The loop ends exactly at the first zero-length read: it writes the
      blocks before it, joined in order, and nothing after it. */
  lemma {:induction false} DrainStopsAtFirstEmptyRead(peer: Peer, i: nat, k: nat)
    requires i <= k < |peer.blocks| && peer.blocks[k] == []
    requires forall j :: i <= j < k ==> peer.blocks[j] != []
    ensures Drain(peer, i) == (Flatten(peer.blocks[i..k]), true)
    decreases k - i
  {
    if i < k {
      DrainStopsAtFirstEmptyRead(peer, i + 1, k);
      assert peer.blocks[i..k][1..] == peer.blocks[i + 1..k];
    } else {
      assert peer.blocks[i..k] == [];
    }
  }

  /** Without a zero-length read among the blocks, the loop writes all of them
      and ends well exactly when the peer closes rather than resets. */
  lemma {:induction false} DrainWithoutEmptyRead(peer: Peer, i: nat)
    requires i <= |peer.blocks|
    requires forall j :: i <= j < |peer.blocks| ==> peer.blocks[j] != []
    ensures Drain(peer, i) == (Flatten(peer.blocks[i..]), !peer.resetAtEnd)
    decreases |peer.blocks| - i
  {
    if i < |peer.blocks| {
      DrainWithoutEmptyRead(peer, i + 1);
      assert peer.blocks[i..][1..] == peer.blocks[i + 1..];
    } else {
      assert peer.blocks[i..] == [];
    }
  }

  // Properties of request_file

  /** When the first receive is exactly the error token the call fails and
      `received_<name>` is never opened. */
  lemma NotFoundLeavesDiskAlone(name: string, encode: string -> seq<byte>, peer: Peer, disk: Disk)
    requires peer.reachable && |peer.blocks| > 0 && peer.blocks[0] == NOT_FOUND
    ensures !Fetch(name, encode, peer, disk).success
    ensures Fetch(name, encode, peer, disk).disk == disk
    ensures Fetch(name, encode, peer, disk).request == encode(name)
  {
  }

  /** `request_file` returns `True` exactly when no exception happened and the
      first block was not the token; the output file is then `received_<name>`
      and holds the blocks after the first one up to the first empty read. */
  lemma SuccessMeansNoException(name: string, encode: string -> seq<byte>, peer: Peer, disk: Disk)
    ensures var run := Fetch(name, encode, peer, disk);
      run.success <==>
        peer.reachable && ReceiveAt(peer, 0).Some? && ReceiveAt(peer, 0).value != NOT_FOUND &&
        OutputName(name) !in disk.locked && Drain(peer, 1).1
    ensures var run := Fetch(name, encode, peer, disk);
      run.success ==> run.disk == Write(disk, "received_" + name, Drain(peer, 1).0)
  {
  }

  /** On a well-formed stream (non-empty blocks, orderly close) whose first
      block is not the token, the call succeeds and the output file holds the
      stream without its first block. */
  lemma WritesAllButFirstBlock(name: string, encode: string -> seq<byte>, peer: Peer, disk: Disk)
    requires peer.reachable && !peer.resetAtEnd && |peer.blocks| > 0
    requires WellSized(peer.blocks) && peer.blocks[0] != NOT_FOUND
    requires OutputName(name) !in disk.locked
    ensures Fetch(name, encode, peer, disk).success
    ensures Fetch(name, encode, peer, disk).disk ==
      Write(disk, OutputName(name), Flatten(peer.blocks)[|peer.blocks[0]|..])
  {
    DrainWithoutEmptyRead(peer, 1);
    assert Flatten(peer.blocks) == peer.blocks[0] + Flatten(peer.blocks[1..]);
  }
}
