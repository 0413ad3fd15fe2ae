/**
  The datagram client (`receive_file` and the checks of `main`). It opens
  `received_<name>`, then writes every datagram it receives until one equals
  the terminator; a receive that times out raises. `main` takes exactly one
  argument, strips it, refuses an empty name, sends the name and maps every
  exception to exit status 1.
 */
module UdpClient {
  import opened Wrappers
  import opened Framing
  import opened Files

  /** How `receive_file` ends: terminator seen, receive timed out, or the
      output file could not be opened. `Refused` (the server sent the error
      token) only ends the corrected loop `CollectChecked`. */
  datatype Status = Done | TimedOut | OpenFailed | Refused

  datatype Received = Received(status: Status, disk: Disk)

  /** The loop from datagram number `i` on, where `incoming` is every datagram
      that reaches the client before the timeout: the bytes it writes, and
      whether it ends on the terminator (`true`) or times out. `recvfrom`
      keeps at most `BUFFER_SIZE` bytes of each datagram. */
  function Collect(incoming: seq<seq<byte>>, i: nat): (seq<byte>, bool)
    decreases |incoming| - i
  {
    if i >= |incoming| then ([], false)
    else
      var data := Truncate(incoming[i]);
      if data == EOF_MARK then ([], true)
      else
        var rest := Collect(incoming, i + 1);
        (data + rest.0, rest.1)
  }

  /** `receive_file(name)` as a specification. */
  function Receive(name: string, incoming: seq<seq<byte>>, disk: Disk): Received
  {
    var out := OutputName(name);
    if out in disk.locked then Received(OpenFailed, disk)
    else
      var collected := Collect(incoming, 0);
      Received(if collected.1 then Done else TimedOut, Write(disk, out, collected.0))
  }

  /** `receive_file`: one `recvfrom(BUFFER_SIZE)` per iteration, the datagram
      written unless it is the terminator. */
  method ReceiveFile(name: string, incoming: seq<seq<byte>>, disk: Disk)
    returns (status: Status, disk': Disk)
    ensures Received(status, disk') == Receive(name, incoming, disk)
  {
    var out := OutputName(name);
    if out in disk.locked {
      return OpenFailed, disk;
    }
    var written: seq<byte> := [];
    disk' := Write(disk, out, written);
    var i := 0;
    assert written + Collect(incoming, 0).0 == Collect(incoming, 0).0;
    while true
      invariant disk' == Write(disk, out, written)
      invariant Collect(incoming, 0) == (written + Collect(incoming, i).0, Collect(incoming, i).1)
      decreases |incoming| - i
    {
      if i >= |incoming| {
        assert written + [] == written;
        return TimedOut, disk';
      }
      var data := Truncate(incoming[i]);
      if data == EOF_MARK {
        assert written + [] == written;
        break;
      }
      assert Collect(incoming, i) == (data + Collect(incoming, i + 1).0, Collect(incoming, i + 1).1);
      assert written + (data + Collect(incoming, i + 1).0) == (written + data) + Collect(incoming, i + 1).0;
      written := written + data;
      disk' := Write(disk, out, written);
      i := i + 1;
    }
    status := Done;
  }

  /** The characters Python's `str.strip()` removes: those for which
      `str.isspace()` holds. */
  predicate IsSpace(c: char)
  {
    ('\t' <= c <= '\r') || ('\U{1C}' <= c <= ' ') || c == '\U{85}' || c == '\U{A0}' ||
    c == '\U{1680}' || ('\U{2000}' <= c <= '\U{200A}') || c == '\U{2028}' || c == '\U{2029}' ||
    c == '\U{202F}' || c == '\U{205F}' || c == '\U{3000}'
  }

  function TrimStart(s: string): string
    decreases |s|
  {
    if |s| > 0 && IsSpace(s[0]) then TrimStart(s[1..]) else s
  }

  function TrimEnd(s: string): string
    decreases |s|
  {
    if |s| > 0 && IsSpace(s[|s| - 1]) then TrimEnd(s[..|s| - 1]) else s
  }

  /** `str.strip()`. */
  function Strip(s: string): string
  {
    TrimEnd(TrimStart(s))
  }

  lemma {:induction false} TrimStartShape(s: string) returns (i: nat)
    ensures i <= |s| && TrimStart(s) == s[i..]
    ensures forall k :: 0 <= k < i ==> IsSpace(s[k])
    ensures i < |s| ==> !IsSpace(s[i])
    decreases |s|
  {
    if |s| > 0 && IsSpace(s[0]) {
      var j := TrimStartShape(s[1..]);
      i := j + 1;
      assert s[1..][j..] == s[i..];
    } else {
      i := 0;
    }
  }

  lemma {:induction false} TrimEndShape(s: string) returns (j: nat)
    ensures j <= |s| && TrimEnd(s) == s[..j]
    ensures forall k :: j <= k < |s| ==> IsSpace(s[k])
    ensures j > 0 ==> !IsSpace(s[j - 1])
    decreases |s|
  {
    if |s| > 0 && IsSpace(s[|s| - 1]) {
      j := TrimEndShape(s[..|s| - 1]);
      assert s[..|s| - 1][..j] == s[..j];
    } else {
      j := |s|;
    }
  }

  /** `Strip(s)` is the slice of `s` left after removing the whitespace at
      both ends: everything cut is whitespace, and the result neither starts
      nor ends with whitespace. */
  lemma StripShape(s: string) returns (i: nat, j: nat)
    ensures i <= j <= |s| && Strip(s) == s[i..j]
    ensures forall k :: 0 <= k < i || j <= k < |s| ==> IsSpace(s[k])
    ensures i < j ==> !IsSpace(s[i]) && !IsSpace(s[j - 1])
  {
    i := TrimStartShape(s);
    var t := s[i..];
    var n := TrimEndShape(t);
    j := i + n;
    assert t[..n] == s[i..j];
    forall k | j <= k < |s| ensures IsSpace(s[k]) {
      assert s[k] == t[k - i];
    }
  }

  /** A name is refused after stripping exactly when it is all whitespace. */
  lemma StripEmptyIffAllSpace(s: string)
    ensures Strip(s) == [] <==> forall k :: 0 <= k < |s| ==> IsSpace(s[k])
  {
    var i, j := StripShape(s);
  }

  /** `main`: exit status 1 without any network action when the argument
      count is not one or the stripped name is empty; otherwise the stripped
      name is sent, and the status is 0 exactly when `receive_file` finished
      on the terminator (a timeout or any other exception gives 1). */
  method CommandLine(argv: seq<string>, encode: string -> seq<byte>, incoming: seq<seq<byte>>, disk: Disk)
    returns (code: int, request: Option<seq<byte>>, disk': Disk)
    ensures |argv| != 2 || Strip(argv[1]) == [] ==> code == 1 && request == None && disk' == disk
    ensures |argv| == 2 && Strip(argv[1]) != [] ==>
      var r := Receive(Strip(argv[1]), incoming, disk);
      request == Some(encode(Strip(argv[1]))) && disk' == r.disk &&
      (code == 0 <==> r.status == Done) && (code == 0 || code == 1)
  {
    if |argv| != 2 {
      return 1, None, disk;
    }
    var name := Strip(argv[1]);
    if name == [] {
      return 1, None, disk;
    }
    request := Some(encode(name));
    var status;
    status, disk' := ReceiveFile(name, incoming, disk);
    code := if status == Done then 0 else 1;
  }

  // Properties of the receive loop

  /** The datagrams seen as `recvfrom` truncates them. */
  function Truncated(incoming: seq<seq<byte>>): (r: seq<seq<byte>>)
    ensures |r| == |incoming|
    ensures forall k :: 0 <= k < |incoming| ==> r[k] == Truncate(incoming[k])
  {
    seq(|incoming|, k requires 0 <= k < |incoming| => Truncate(incoming[k]))
  }

  /** Every datagram before the first terminator is written, in arrival
      order, and nothing from the terminator on; a token `File not found` is
      written like any other data. */
  lemma {:induction false} CollectUpTo(incoming: seq<seq<byte>>, i: nat, k: nat)
    requires i <= k <= |incoming|
    requires forall j :: i <= j < k ==> Truncate(incoming[j]) != EOF_MARK
    ensures Collect(incoming, i).0 == Flatten(Truncated(incoming[i..k])) + Collect(incoming, k).0
    ensures Collect(incoming, i).1 == Collect(incoming, k).1
    decreases k - i
  {
    if i < k {
      CollectUpTo(incoming, i + 1, k);
      assert Truncated(incoming[i..k])[1..] == Truncated(incoming[i + 1..k]);
    } else {
      assert Truncated(incoming[i..k]) == [];
    }
  }

  /** The loop ends at the first terminator, having written exactly the
      datagrams before it; without one it times out, having written all. */
  lemma StopsAtFirstTerminator(incoming: seq<seq<byte>>, k: nat)
    requires k <= |incoming|
    requires forall j :: 0 <= j < k ==> Truncate(incoming[j]) != EOF_MARK
    requires k < |incoming| ==> Truncate(incoming[k]) == EOF_MARK
    ensures Collect(incoming, 0) == (Flatten(Truncated(incoming[..k])), k < |incoming|)
  {
    CollectUpTo(incoming, 0, k);
    assert incoming[0..k] == incoming[..k];
    assert Collect(incoming, k) == ([], k < |incoming|);
    assert Flatten(Truncated(incoming[..k])) + [] == Flatten(Truncated(incoming[..k]));
  }

  // The error token, handled

  /** The fix of the unhandled error token: a datagram equal to
      `File not found` ends the loop at once as a failure and is not written. */
  function CollectChecked(incoming: seq<seq<byte>>, i: nat): (seq<byte>, Status)
    decreases |incoming| - i
  {
    if i >= |incoming| then ([], TimedOut)
    else
      var data := Truncate(incoming[i]);
      if data == EOF_MARK then ([], Done)
      else if data == NOT_FOUND then ([], Refused)
      else
        var rest := CollectChecked(incoming, i + 1);
        (data + rest.0, rest.1)
  }

  /** `receive_file` with the error token handled. */
  function ReceiveChecked(name: string, incoming: seq<seq<byte>>, disk: Disk): Received
  {
    var out := OutputName(name);
    if out in disk.locked then Received(OpenFailed, disk)
    else
      var collected := CollectChecked(incoming, 0);
      Received(collected.1, Write(disk, out, collected.0))
  }

  /** Before the first terminator or token, the corrected loop writes what
      the original one writes. */
  lemma {:induction false} CollectCheckedUpTo(incoming: seq<seq<byte>>, i: nat, k: nat)
    requires i <= k <= |incoming|
    requires forall j :: i <= j < k ==> Truncate(incoming[j]) != EOF_MARK && Truncate(incoming[j]) != NOT_FOUND
    ensures CollectChecked(incoming, i).0 == Flatten(Truncated(incoming[i..k])) + CollectChecked(incoming, k).0
    ensures CollectChecked(incoming, i).1 == CollectChecked(incoming, k).1
    decreases k - i
  {
    if i < k {
      CollectCheckedUpTo(incoming, i + 1, k);
      assert Truncated(incoming[i..k])[1..] == Truncated(incoming[i + 1..k]);
    } else {
      assert Truncated(incoming[i..k]) == [];
    }
  }
}
