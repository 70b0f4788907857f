/** The EBML element primitives of webm-writer.js: `writeEBMLId`,
    `writeEBMLSize`, `writeEBMLElement` and `combineArrays`. */
module EbmlWriter {
  import opened Bytes
  import opened Wrappers
  import opened VarInt

  /** `writeEBMLId`: one byte per character code, truncated to 8 bits when
      stored in the Uint8Array. */
  function WriteId(id: string): (r: seq<byte>)
    ensures |r| == |id|
    ensures forall i :: 0 <= i < |id| ==> r[i] == (id[i] as int) % 256
  {
    seq<byte>(|id|, i requires 0 <= i < |id| => (id[i] as int) % 256)
  }

  /** The string literal whose character codes are the given bytes, as the
      source spells its element IDs (`'\x1A\x45\xDF\xA3'`). */
  function IdText(b: seq<byte>): (r: string)
    ensures |r| == |b|
  {
    seq(|b|, i requires 0 <= i < |b| => b[i] as char)
  }

  /** `writeEBMLId` inverts the source's ID literals: each character of an
      ID literal becomes exactly the byte it spells. */
  lemma WriteIdText(b: seq<byte>)
    ensures WriteId(IdText(b)) == b
  {
  }

  /** The `while (temp > 0)` loop of `writeEBMLSize`: the big-endian bytes of
      `v` without leading zero bytes. */
  function MinimalBytes(v: nat): (r: seq<byte>)
    ensures BeValue(r) == v
    ensures v == 0 <==> r == []
    decreases v
  {
    if v == 0 then []
    else
      var r := MinimalBytes(v / 256) + [v % 256];
      assert r[..|r| - 1] == MinimalBytes(v / 256);
      r
  }

  /** A positive value needs `k` bytes exactly when it lies in
      [256^(k-1), 256^k). */
  lemma {:induction false} MinimalBytesWidth(v: nat)
    requires v > 0
    ensures Pow256(|MinimalBytes(v)| - 1) <= v < Pow256(|MinimalBytes(v)|)
    decreases v
  {
    if v >= 256 {
      MinimalBytesWidth(v / 256);
    }
  }

  /** `writeEBMLSize(size)`. Below 127 it is the single byte `size | 0x80`.
      Otherwise the minimal big-endian bytes get `0x80 >> (length - 1)`
      or-ed into the first byte, whether or not that byte has room for the
      marker. Sizes are `Uint8Array` lengths; the shifts are exact below
      2^31. */
  function WriteSize(size: nat): (r: seq<byte>)
    requires size < 0x8000_0000
    ensures size < 127 ==> r == [size + 0x80]
    ensures 1 <= |r| <= 4
    ensures |r| == (if size < 0x100 then 1 else if size < 0x1_0000 then 2
                    else if size < 0x100_0000 then 3 else 4)
  {
    PowersOfTwo();
    if size < 127 then
      SetBitBelow(size, 7);
      [SetBit(size, 7)]
    else
      var bytes := MinimalBytes(size);
      MinimalBytesWidth(size);
      PowersOf256();
      PowMonotone256(|bytes|);
      [SetBit(bytes[0], 8 - |bytes|)] + bytes[1..]
  }

  lemma PowMonotone256(k: nat)
    ensures k >= 5 ==> Pow256(k - 1) >= 0x1_0000_0000
  {
    if k == 5 {
      PowersOf256();
    } else if k > 5 {
      PowMonotone256(k - 1);
    }
  }

  /** Sizes for which the writer's size field reads back, through the
      patcher's `readVarInt`, as the size with the same width. */
  predicate WriterSizeExact(n: nat)
  {
    n <= 127 || 0x100 <= n < 0x4000 || 0x1_0000 <= n < 0x20_0000 || 0x100_0000 <= n < 0x1000_0000
  }

  /** The shape of `writeEBMLSize` from 127 on: the minimal bytes of the
      size with the marker of their count or-ed into the first. */
  lemma WriteSizeShape(n: nat)
    requires 127 <= n < 0x8000_0000
    ensures var bytes := MinimalBytes(n);
      && 1 <= |bytes| <= 4
      && n == bytes[0] * Pow256(|bytes| - 1) + BeValue(bytes[1..])
      && bytes[0] == n / Pow256(|bytes| - 1)
      && WriteSize(n) == [SetBit(bytes[0], 8 - |bytes|)] + bytes[1..]
  {
    TopDigit(n);
  }

  /** From 127 on the minimal form has one to four bytes, and its first
      byte is the size's top base-256 digit. */
  lemma TopDigit(n: nat)
    requires 127 <= n < 0x8000_0000
    ensures var bytes := MinimalBytes(n);
      && 1 <= |bytes| <= 4
      && n == bytes[0] * Pow256(|bytes| - 1) + BeValue(bytes[1..])
      && bytes[0] == n / Pow256(|bytes| - 1)
  {
    var bytes := MinimalBytes(n);
    MinimalBytesWidth(n);
    PowMonotone256(|bytes|);
    PowersOf256();
    assert bytes == [bytes[0]] + bytes[1..];
    BeValueCons(bytes[0], bytes[1..]);
    ModUnique(n, Pow256(|bytes| - 1), bytes[0], BeValue(bytes[1..]));
  }

  /** A first byte `b0` with the width-`k` marker or-ed in reads back as
      `b0` and the following bytes exactly when `b0` had room for the marker. */
  lemma MarkedRead(b0: byte, k: nat, rest: seq<byte>)
    requires 1 <= k <= 4 && |rest| == k - 1
    ensures ReadVarInt([SetBit(b0, 8 - k)] + rest, 0)
         == Some(VarInt(b0 * Pow256(k - 1) + BeValue(rest), k))
        <==> b0 < Pow2(8 - k)
  {
    var m := Pow2(8 - k);
    if b0 < m {
      SetBitBelow(b0, 8 - k);
      ReadsBack(SetBit(b0, 8 - k), b0, k, rest);
    } else {
      MarkedReadFull(b0, k, rest);
    }
  }

  /** When the marker bit is already set in `b0`, the read is off: either
      the value loses the marker's weight or the width comes out smaller. */
  lemma MarkedReadFull(b0: byte, k: nat, rest: seq<byte>)
    requires 1 <= k <= 4 && |rest| == k - 1 && b0 >= Pow2(8 - k)
    ensures var r := ReadVarInt([SetBit(b0, 8 - k)] + rest, 0);
      r.Some? && (r.value.bytesRead != k || r.value.value != b0 * Pow256(k - 1) + BeValue(rest))
  {
    if b0 < 2 * Pow2(8 - k) {
      MarkerAlreadySet(b0, k, rest);
    } else {
      MarkerAboveTop(b0, k, rest);
    }
  }

  /** The marker is the top bit already: the value loses its weight. */
  lemma MarkerAlreadySet(b0: byte, k: nat, rest: seq<byte>)
    requires 1 <= k <= 4 && |rest| == k - 1 && Pow2(8 - k) <= b0 < 2 * Pow2(8 - k)
    ensures ReadVarInt([SetBit(b0, 8 - k)] + rest, 0)
         == Some(VarInt(b0 * Pow256(k - 1) + BeValue(rest) - Pow2(8 - k) * Pow256(k - 1), k))
  {
    var m := Pow2(8 - k);
    var P := Pow256(k - 1);
    var hi: byte := b0 - m;
    SetBitAlreadySet(b0, 8 - k);
    Distribute(b0, m, P);
    ReadsBack(SetBit(b0, 8 - k), hi, k, rest);
  }

  lemma Distribute(a: int, b: int, c: int)
    ensures (a - b) * c == a * c - b * c
  {
  }

  /** A set bit above the marker: the read announces a smaller width. */
  lemma MarkerAboveTop(b0: byte, k: nat, rest: seq<byte>)
    requires 1 <= k <= 4 && |rest| == k - 1 && b0 >= 2 * Pow2(8 - k)
    ensures var r := ReadVarInt([SetBit(b0, 8 - k)] + rest, 0);
      r.Some? && r.value.bytesRead < k
  {
    var f := SetBit(b0, 8 - k);
    SetBitRange(b0, 8 - k);
    PowersOfTwo();
    var r := MarkerWidth(f);
    if r >= k {
      PowMonotone(8 - r, 8 - k);
    }
  }

  /** The minimal top byte has room for the marker exactly on the ranges of
      `WriterSizeExact`. */
  lemma TopByteRoom(n: nat)
    requires 127 <= n < 0x8000_0000
    ensures var bytes := MinimalBytes(n);
      && 1 <= |bytes| <= 4
      && (bytes[0] < Pow2(8 - |bytes|) <==> WriterSizeExact(n))
  {
    PowersOfTwo();
    PowersOf256();
    WriteSizeShape(n);
    MinimalBytesWidth(n);
  }

  /** `writeEBMLSize` followed by `readVarInt` gives back the size and the
      width exactly on the ranges of `WriterSizeExact`: in 128..255,
      0x4000..0xFFFF, 0x200000..0xFFFFFF and from 2^28 on the marker bit
      collides with a data bit. */
  lemma WriteSizeRoundTrip(n: nat)
    requires n < 0x8000_0000
    ensures ReadVarInt(WriteSize(n), 0) == Some(VarInt(n, |WriteSize(n)|)) <==> WriterSizeExact(n)
  {
    if n < 127 {
      PowersOfTwo();
      ReadsBack(SetBit(n, 7), n, 1, []);
    } else {
      WriteSizeRoundTripMarked(n);
    }
  }

  /** The round trip from 127 on, where the marker is or-ed into the top
      byte of the minimal form. */
  lemma WriteSizeRoundTripMarked(n: nat)
    requires 127 <= n < 0x8000_0000
    ensures ReadVarInt(WriteSize(n), 0) == Some(VarInt(n, |WriteSize(n)|)) <==> WriterSizeExact(n)
  {
    WriteSizeShape(n);
    TopByteRoom(n);
    var bytes := MinimalBytes(n);
    MarkedRead(bytes[0], |bytes|, bytes[1..]);
  }

  /** Sizes 128..255 are written as one byte that reads back 128 too small. */
  lemma WriteSizeByteRange(n: nat)
    requires 128 <= n < 256
    ensures WriteSize(n) == [n]
    ensures ReadVarInt(WriteSize(n), 0) == Some(VarInt(n - 128, 1))
  {
    PowersOfTwo();
    SetBitAlreadySet(n, 7);
    ReadsBack(n, n - 128, 1, []);
  }

  /** Size 127 is written as 0xFF, the all-ones value that section 6.2 of
      RFC 8794 reserves for an unknown size. */
  lemma WriteSizeUnknownMarker()
    ensures WriteSize(127) == [0xFF]
  {
    PowersOfTwo();
    SetBitBelow(127, 7);
  }

  /** `writeEBMLElement(id, data)`: the ID bytes, the size field of
      `data.length`, then the data verbatim. */
  function WriteElement(id: string, data: seq<byte>): (r: seq<byte>)
    requires |data| < 0x8000_0000
    ensures |r| == |id| + |WriteSize(|data|)| + |data|
    ensures r[..|id|] == WriteId(id)
    ensures r[|id|..|id| + |WriteSize(|data|)|] == WriteSize(|data|)
    ensures r[|id| + |WriteSize(|data|)|..] == data
  {
    WriteId(id) + WriteSize(|data|) + data
  }

  /** `combineArrays`: sum the lengths, allocate, then copy each array at the
      running offset. */
  method CombineArrays(arrays: seq<seq<byte>>) returns (result: seq<byte>)
    ensures |result| == TotalLength(arrays)
    ensures result == Flatten(arrays)
  {
    var totalLength := 0;
    for i := 0 to |arrays|
      invariant totalLength == TotalLength(arrays[..i])
    {
      assert arrays[..i + 1][..i] == arrays[..i];
      totalLength := totalLength + |arrays[i]|;
    }
    assert arrays[..|arrays|] == arrays;
    result := seq(totalLength, _ => 0);
    var offset := 0;
    for i := 0 to |arrays|
      invariant offset == TotalLength(arrays[..i])
      invariant |result| == totalLength
      invariant offset <= totalLength
      invariant result[..offset] == Flatten(arrays[..i])
    {
      assert arrays[..i + 1][..i] == arrays[..i];
      TotalLengthPrefix(arrays, i + 1);
      result := result[..offset] + arrays[i] + result[offset + |arrays[i]|..];
      offset := offset + |arrays[i]|;
      TotalLengthPrefix(arrays, i + 1);
    }
    FlattenLength(arrays);
  }
}
