/**
  Byte-level framing shared by the four roles: the buffer size, the two
  reserved payloads, and the way a server cuts a file into chunks by calling
  `file.read(BUFFER_SIZE)` until it returns nothing.
 */
module Framing {

  newtype byte = x: int | 0 <= x < 256

  /** The most bytes one `file.read`, `recv` or `recvfrom` call returns. */
  const BUFFER_SIZE: nat := 4096

  /** The error token `b"File not found"`. */
  const NOT_FOUND: seq<byte> :=
    [0x46, 0x69, 0x6c, 0x65, 0x20, 0x6e, 0x6f, 0x74, 0x20, 0x66, 0x6f, 0x75, 0x6e, 0x64]

  /** The datagram terminator `b"__EOF__"`. */
  const EOF_MARK: seq<byte> := [0x5f, 0x5f, 0x45, 0x4f, 0x46, 0x5f, 0x5f]

  function Min(a: nat, b: nat): nat { if a <= b then a else b }

  /** What one receive of at most `BUFFER_SIZE` bytes keeps of `bytes`. */
  function Truncate(bytes: seq<byte>): (r: seq<byte>)
    ensures |r| == Min(BUFFER_SIZE, |bytes|)
    ensures r <= bytes
    ensures |bytes| <= BUFFER_SIZE ==> r == bytes
  {
    bytes[..Min(BUFFER_SIZE, |bytes|)]
  }

  /** `file.read(BUFFER_SIZE)` on a file holding `data` whose position is `pos`:
      the next `min(BUFFER_SIZE, remaining)` bytes. */
  function ReadAt(data: seq<byte>, pos: nat): (chunk: seq<byte>)
    requires pos <= |data|
    ensures |chunk| == Min(BUFFER_SIZE, |data| - pos)
    ensures |chunk| == 0 <==> pos == |data|
    ensures pos + |chunk| <= |data| && chunk == data[pos..pos + |chunk|]
  {
    data[pos..pos + Min(BUFFER_SIZE, |data| - pos)]
  }

  /** The chunks a server reads from a file holding `data`, in order. */
  function Chunks(data: seq<byte>): seq<seq<byte>>
    decreases |data|
  {
    if |data| == 0 then []
    else
      var chunk := ReadAt(data, 0);
      [chunk] + Chunks(data[|chunk|..])
  }

  /** The byte stream obtained by joining `blocks` in order. */
  function Flatten(blocks: seq<seq<byte>>): seq<byte>
    decreases |blocks|
  {
    if |blocks| == 0 then [] else blocks[0] + Flatten(blocks[1..])
  }

  /** Every block is non-empty and fits one buffer. */
  ghost predicate WellSized(blocks: seq<seq<byte>>)
  {
    forall i :: 0 <= i < |blocks| ==> 0 < |blocks[i]| <= BUFFER_SIZE
  }

  /** Every block but the last fills a whole buffer. */
  ghost predicate FullButLast(blocks: seq<seq<byte>>)
  {
    forall i :: 0 <= i < |blocks| - 1 ==> |blocks[i]| == BUFFER_SIZE
  }

  lemma {:induction false} FlattenAppend(a: seq<seq<byte>>, b: seq<seq<byte>>)
    ensures Flatten(a + b) == Flatten(a) + Flatten(b)
    decreases |a|
  {
    if |a| == 0 {
      assert a + b == b;
    } else {
      assert (a + b)[1..] == a[1..] + b;
      FlattenAppend(a[1..], b);
    }
  }

  /** Joining the chunks gives back the file, in order. */
  lemma {:induction false} ChunksFlatten(data: seq<byte>)
    ensures Flatten(Chunks(data)) == data
    decreases |data|
  {
    if |data| > 0 {
      var chunk := ReadAt(data, 0);
      ChunksFlatten(data[|chunk|..]);
      assert data == chunk + data[|chunk|..];
    }
  }

  /** Every chunk is non-empty and at most `BUFFER_SIZE` bytes; all but the last are full. */
  lemma {:induction false} ChunksSized(data: seq<byte>)
    ensures WellSized(Chunks(data))
    ensures FullButLast(Chunks(data))
    decreases |data|
  {
    if |data| > 0 {
      var chunk := ReadAt(data, 0);
      ChunksSized(data[|chunk|..]);
      if |chunk| < BUFFER_SIZE {
        assert data[|chunk|..] == [];
      }
    }
  }

  /** A file of `n` bytes is read in `ceil(n / BUFFER_SIZE)` chunks; an empty file in none. */
  lemma {:induction false} ChunksCount(data: seq<byte>)
    ensures |Chunks(data)| == (|data| + BUFFER_SIZE - 1) / BUFFER_SIZE
    ensures |Chunks(data)| == 0 <==> |data| == 0
    decreases |data|
  {
    if |data| > 0 {
      var chunk := ReadAt(data, 0);
      ChunksCount(data[|chunk|..]);
      if |data| > BUFFER_SIZE {
        assert |data[|chunk|..]| == |data| - BUFFER_SIZE;
      }
    }
  }

  /** The chunking is the only split of `data` into buffer-sized pieces whose
      pieces are all full but the last: a read that returns
      `min(BUFFER_SIZE, remaining)` bytes leaves no other choice. */
  lemma {:induction false} ChunksUnique(data: seq<byte>, blocks: seq<seq<byte>>)
    requires WellSized(blocks) && FullButLast(blocks)
    requires Flatten(blocks) == data
    ensures blocks == Chunks(data)
    decreases |blocks|
  {
    if |blocks| > 0 {
      var rest := blocks[1..];
      assert data == blocks[0] + Flatten(rest);
      if |rest| > 0 {
        assert Flatten(rest) == rest[0] + Flatten(rest[1..]);
        assert |blocks[0]| == BUFFER_SIZE;
        assert data[..BUFFER_SIZE] == blocks[0];
        assert data[BUFFER_SIZE..] == Flatten(rest);
      } else {
        assert Flatten(rest) == [];
        assert data == blocks[0];
      }
      assert forall i :: 0 <= i < |rest| ==> rest[i] == blocks[i + 1];
      ChunksUnique(data[|blocks[0]|..], rest);
    }
  }

  /** A run of the first `k` chunks is a prefix of the file. */
  lemma ChunksPrefix(data: seq<byte>, k: nat)
    requires k <= |Chunks(data)|
    ensures Flatten(Chunks(data)[..k]) <= data
  {
    var c := Chunks(data);
    assert c == c[..k] + c[k..];
    FlattenAppend(c[..k], c[k..]);
    ChunksFlatten(data);
  }

  /** Reading from `pos` splits off the chunk at `pos`: the chunks of the rest of
      the file are that chunk followed by the chunks after it. */
  lemma ChunksStep(data: seq<byte>, pos: nat)
    requires pos < |data|
    ensures Chunks(data[pos..]) == [ReadAt(data, pos)] + Chunks(data[pos + |ReadAt(data, pos)|..])
  {
    var chunk := ReadAt(data, pos);
    assert ReadAt(data[pos..], 0) == chunk;
    assert data[pos..][|chunk|..] == data[pos + |chunk|..];
  }

  /** A file no larger than one buffer is read in a single chunk. */
  lemma SmallFileIsOneChunk(data: seq<byte>)
    requires 0 < |data| <= BUFFER_SIZE
    ensures Chunks(data) == [data]
  {
    assert ReadAt(data, 0) == data[0..|data|] == data;
    assert data[|data|..] == [];
  }

  /** The first `k` chunks of a file, short of all of them, hold strictly
      fewer bytes than the file. */
  lemma ChunksProperPrefix(data: seq<byte>, k: nat)
    requires k < |Chunks(data)|
    ensures |Flatten(Chunks(data)[..k])| < |data|
  {
    var c := Chunks(data);
    assert c == c[..k] + c[k..];
    FlattenAppend(c[..k], c[k..]);
    ChunksFlatten(data);
    ChunksSized(data);
    assert Flatten(c[k..]) == c[k] + Flatten(c[k + 1..]);
  }
}
