/** The backing file: a flat byte sequence cut into fixed 200-byte slots. */
module SlotFile {

  newtype byte = x: int | 0 <= x < 256

  /** `NODE_LENGTH`: the size of one slot in bytes. */
  const NodeLength: nat := 200

  function Zeros(n: nat): (z: seq<byte>)
    ensures |z| == n && forall i :: 0 <= i < n ==> z[i] == 0
  {
    seq(n, _ => 0)
  }

  function Max(a: int, b: int): int { if a < b then b else a }

  function Min(a: int, b: int): int { if a < b then a else b }

  /** `filePosition`: the byte offset at which slot `pos` starts. */
  function FilePosition(pos: nat): (off: nat)
    ensures off / NodeLength == pos && off % NodeLength == 0
  {
    pos * NodeLength
  }

  /** Every byte offset lies in exactly one slot, so distinct slots occupy
      disjoint byte ranges. */
  lemma SlotOfOffset(offset: nat, pos: nat)
    ensures FilePosition(pos) <= offset < FilePosition(pos) + NodeLength <==> pos == offset / NodeLength
  {
    var q := offset / NodeLength;
    assert FilePosition(q) <= offset < FilePosition(q) + NodeLength;
    if pos < q {
      assert FilePosition(pos) + NodeLength <= FilePosition(q);
    } else if pos > q {
      assert FilePosition(q) + NodeLength <= FilePosition(pos);
    }
  }

  lemma SlotsDisjoint(m: nat, n: nat)
    requires m != n
    ensures FilePosition(m) + NodeLength <= FilePosition(n) || FilePosition(n) + NodeLength <= FilePosition(m)
  {
    if m < n {
      assert FilePosition(m) + NodeLength == FilePosition(m + 1);
    } else {
      assert FilePosition(n) + NodeLength == FilePosition(n + 1);
    }
  }

  /** A positioned write of `data` at byte `off`: the bytes at `off` are
      replaced and the file grows if the write reaches past its end. A gap
      between the old end and `off` is taken to read as zeros, as a hole in
      the file system's sparse file does. */
  function WriteAt(file: seq<byte>, off: nat, data: seq<byte>): (r: seq<byte>)
    ensures |r| == Max(|file|, off + |data|)
  {
    var base := if off <= |file| then file else file + Zeros(off - |file|);
    base[..off] + data + (if off + |data| <= |base| then base[off + |data|..] else [])
  }

  /** Byte by byte: `data` lands at `off`, the bytes before it are the old
      ones or, past the old end, zeros, and the bytes after it are unchanged. */
  lemma WriteAtContents(file: seq<byte>, off: nat, data: seq<byte>)
    ensures var r := WriteAt(file, off, data);
      && (forall i :: 0 <= i < |data| ==> r[off + i] == data[i])
      && (forall i :: 0 <= i < off && i < |file| ==> r[i] == file[i])
      && (forall i :: |file| <= i < off ==> r[i] == 0)
      && (forall i :: off + |data| <= i < |file| ==> r[i] == file[i])
  {
  }

  /** The outcome of one positioned `FileChannel.read` into a fresh buffer of
      `NodeLength` zero bytes. */
  datatype ReadResult = EndOfFile | Bytes(buffer: seq<byte>)

  /** Reading at `off` returns -1 (end of file) exactly when `off` is at or
      past the end; otherwise the buffer holds the available bytes, at most
      one slot's worth, and keeps its zeros past the end of the file. */
  function ReadAt(file: seq<byte>, off: nat): (r: ReadResult)
    ensures r.EndOfFile? <==> off >= |file|
    ensures r.Bytes? ==> |r.buffer| == NodeLength
  {
    if off >= |file| then EndOfFile
    else
      var n := Min(NodeLength, |file| - off);
      Bytes(file[off..off + n] + Zeros(NodeLength - n))
  }

  /** The buffer a read of slot `pos` leaves behind when the end-of-file
      result is ignored, as `readOneData` does: all zeros past the end. */
  function SlotBuffer(file: seq<byte>, pos: nat): (b: seq<byte>)
    ensures |b| == NodeLength
  {
    match ReadAt(file, FilePosition(pos))
    case EndOfFile => Zeros(NodeLength)
    case Bytes(b) => b
  }

  /** Byte `i` of slot `pos`'s buffer is the file's byte at offset
      `FilePosition(pos) + i`, or zero past the end of the file. */
  lemma SlotBufferContents(file: seq<byte>, pos: nat)
    ensures forall i :: 0 <= i < NodeLength ==>
      SlotBuffer(file, pos)[i] == if FilePosition(pos) + i < |file| then file[FilePosition(pos) + i] else 0
  {
  }

  /** `frontier` is the number of slots a scan from slot 0 finds before the
      end of file: the last byte of the file lies in slot `frontier - 1`. */
  predicate FrontierOf(file: seq<byte>, frontier: nat)
  {
    |file| <= FilePosition(frontier) && (frontier == 0 || FilePosition(frontier - 1) < |file|)
  }

  /** Reading slot `k` hits end of file exactly when `k` is at or past the frontier. */
  lemma EndOfFileAtFrontier(file: seq<byte>, frontier: nat, k: nat)
    requires FrontierOf(file, frontier)
    ensures ReadAt(file, FilePosition(k)).EndOfFile? <==> k >= frontier
  {
    if k < frontier {
      assert FilePosition(k) <= FilePosition(frontier - 1);
    } else {
      assert FilePosition(frontier) <= FilePosition(k);
    }
  }

  /** The file determines its frontier. */
  lemma FrontierUnique(file: seq<byte>, m: nat, n: nat)
    requires FrontierOf(file, m) && FrontierOf(file, n)
    ensures m == n
  {
  }

  /** Writing a non-empty encoding of at most one slot at the frontier slot:
      that slot now reads back as the encoding padded with zeros, every
      earlier slot reads back as before, and the frontier moves up by one. */
  lemma AppendAtFrontier(file: seq<byte>, n: nat, data: seq<byte>)
    requires FrontierOf(file, n)
    requires 0 < |data| <= NodeLength
    ensures FrontierOf(WriteAt(file, FilePosition(n), data), n + 1)
    ensures SlotBuffer(WriteAt(file, FilePosition(n), data), n) == data + Zeros(NodeLength - |data|)
    ensures forall k :: 0 <= k < n ==> SlotBuffer(WriteAt(file, FilePosition(n), data), k) == SlotBuffer(file, k)
  {
    AppendedSlot(file, n, data);
    forall k | 0 <= k < n
      ensures SlotBuffer(WriteAt(file, FilePosition(n), data), k) == SlotBuffer(file, k)
    {
      EarlierSlot(file, n, data, k);
    }
  }

  lemma AppendedSlot(file: seq<byte>, n: nat, data: seq<byte>)
    requires FrontierOf(file, n)
    requires 0 < |data| <= NodeLength
    ensures FrontierOf(WriteAt(file, FilePosition(n), data), n + 1)
    ensures SlotBuffer(WriteAt(file, FilePosition(n), data), n) == data + Zeros(NodeLength - |data|)
  {
    var f' := WriteAt(file, FilePosition(n), data);
    assert |f'| == FilePosition(n) + |data|;
    assert FilePosition(n + 1) == FilePosition(n) + NodeLength;
    AppendedSlotBytes(file, n, data);
  }

  lemma AppendedSlotBytes(file: seq<byte>, n: nat, data: seq<byte>)
    requires |file| <= FilePosition(n)
    requires |data| <= NodeLength
    ensures SlotBuffer(WriteAt(file, FilePosition(n), data), n) == data + Zeros(NodeLength - |data|)
  {
    var f' := WriteAt(file, FilePosition(n), data);
    var b := SlotBuffer(f', n);
    var padded := data + Zeros(NodeLength - |data|);
    WriteAtContents(file, FilePosition(n), data);
    SlotBufferContents(f', n);
    forall i | 0 <= i < NodeLength
      ensures b[i] == padded[i]
    {
      if i < |data| {
        assert f'[FilePosition(n) + i] == data[i];
      }
    }
  }

  lemma EarlierSlot(file: seq<byte>, n: nat, data: seq<byte>, k: nat)
    requires FrontierOf(file, n)
    requires k < n
    ensures SlotBuffer(WriteAt(file, FilePosition(n), data), k) == SlotBuffer(file, k)
  {
    var f' := WriteAt(file, FilePosition(n), data);
    WriteAtContents(file, FilePosition(n), data);
    assert FilePosition(k) + NodeLength <= FilePosition(n);
    var b', b0 := SlotBuffer(f', k), SlotBuffer(file, k);
    SlotBufferContents(f', k);
    SlotBufferContents(file, k);
    forall i | 0 <= i < NodeLength
      ensures b'[i] == b0[i]
    {
      assert FilePosition(k) + i < FilePosition(n);
    }
  }
}
