/** Turning a slot's bytes back into a sample (`fromByteBuffer`) and the
    record encoding the engine relies on. The JSON mapper itself is not part
    of this model: it is a parameter, `Codec`, with its round trip stated as
    the predicate `Sound`. */
module Codec {
  import opened Domain
  import opened SlotFile

  /** `String.trim` strips every character at or below U+0020 from both ends.
      Those characters are single bytes in the platform encoding and no
      longer character contains such a byte, so trimming is done on bytes. */
  const Blank: byte := 0x20

  /** The scan from the front: the first index at or after `st` whose byte
      is not blank, or `|b|`. */
  function FirstNonBlank(b: seq<byte>, st: nat): (r: nat)
    requires st <= |b|
    ensures st <= r <= |b|
    ensures forall j :: st <= j < r ==> b[j] <= Blank
    ensures r < |b| ==> b[r] > Blank
    decreases |b| - st
  {
    if st < |b| && b[st] <= Blank then FirstNonBlank(b, st + 1) else st
  }

  /** The scan from the back, never passing `st`: one past the last index
      below `len` whose byte is not blank, or `st`. */
  function EndOfNonBlank(b: seq<byte>, st: nat, len: nat): (r: nat)
    requires st <= len <= |b|
    ensures st <= r <= len
    ensures forall j :: r <= j < len ==> b[j] <= Blank
    ensures r > st ==> b[r - 1] > Blank
  {
    if st < len && b[len - 1] <= Blank then EndOfNonBlank(b, st, len - 1) else len
  }

  /** `r` is the slice of `b` starting at `i`, and every byte of `b` outside
      it is blank. */
  ghost predicate SliceWithBlankRest(b: seq<byte>, i: int, r: seq<byte>)
  {
    0 <= i && i + |r| <= |b| && r == b[i..i + |r|]
    && (forall j :: 0 <= j < i ==> b[j] <= Blank)
    && (forall j :: i + |r| <= j < |b| ==> b[j] <= Blank)
  }

  /** `String.trim`: drop the blank bytes at both ends; what is left is empty
      or starts and ends with a non-blank byte. */
  function Trim(b: seq<byte>): (r: seq<byte>)
    ensures exists i :: SliceWithBlankRest(b, i, r)
    ensures r != [] ==> r[0] > Blank && r[|r| - 1] > Blank
  {
    var st := FirstNonBlank(b, 0);
    var len := EndOfNonBlank(b, st, |b|);
    assert SliceWithBlankRest(b, st, b[st..len]);
    b[st..len]
  }

  /** A buffer of blank bytes only, such as an all-zero one, trims to the
      empty text. */
  lemma TrimAllBlank(b: seq<byte>)
    ensures (forall j :: 0 <= j < |b| ==> b[j] <= Blank) ==> Trim(b) == []
  {
    if forall j :: 0 <= j < |b| ==> b[j] <= Blank {
      var i :| SliceWithBlankRest(b, i, Trim(b));
    }
  }

  /** Non-empty, and neither first nor last byte blank: true of every JSON
      object text (`{` … `}`). */
  predicate Delimited(b: seq<byte>)
  {
    b != [] && b[0] > Blank && b[|b| - 1] > Blank
  }

  /** Trailing zero padding, such as the rest of a slot, is removed by
      trimming and nothing else is. */
  lemma TrimPadded(data: seq<byte>, k: nat)
    requires Delimited(data)
    ensures Trim(data + Zeros(k)) == data
  {
    var p := data + Zeros(k);
    assert FirstNonBlank(p, 0) == 0;
    EndOfNonBlankPadded(data, k, k);
    assert p[..|data|] == data;
  }

  lemma {:induction false} EndOfNonBlankPadded(data: seq<byte>, k: nat, n: nat)
    requires Delimited(data) && n <= k
    ensures EndOfNonBlank(data + Zeros(k), 0, |data| + n) == |data|
  {
    var p := data + Zeros(k);
    if n > 0 {
      assert p[|data| + n - 1] == 0;
      EndOfNonBlankPadded(data, k, n - 1);
    } else {
      assert p[|data| - 1] == data[|data| - 1];
    }
  }

  /** The object mapper: `encode` is `writeValueAsString(...).getBytes()`,
      `parse` is `readValue`, with `None` for a text it rejects. */
  datatype Codec = Codec(encode: LocationData -> seq<byte>, parse: seq<byte> -> Option<LocationData>)

  /** What the engine relies on from the mapper: every sample's encoding is a
      delimited text that parses back to the same sample. */
  ghost predicate Sound(c: Codec)
  {
    forall e :: Delimited(c.encode(e)) && c.parse(c.encode(e)) == Some(e)
  }

  /** `fromByteBuffer`: decode a whole slot buffer, `None` standing for the
      `null` returned when the mapper rejects the text. */
  function FromByteBuffer(c: Codec, buffer: seq<byte>): (r: Option<LocationData>)
    ensures Sound(c) ==> forall e :: Trim(buffer) == c.encode(e) ==> r == Some(e)
  {
    c.parse(Trim(buffer))
  }

  /** A sample written into a slot and read back with its zero padding
      decodes to the same sample. */
  lemma ReadBackEncoded(c: Codec, e: LocationData, k: nat)
    requires Sound(c)
    ensures FromByteBuffer(c, c.encode(e) + Zeros(k)) == Some(e)
  {
    TrimPadded(c.encode(e), k);
  }
}
