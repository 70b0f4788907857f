/** The variable-length integers (VINTs, section 4 of RFC 8794) that the
    duration patcher reads and writes: `readVarInt` and `encodeVarInt` of
    webm-duration-fix.js. */
module VarInt {
  import opened Bytes
  import opened Wrappers

  /** What `readVarInt` returns: the decoded value and the width in bytes. */
  datatype VarInt = VarInt(value: nat, bytesRead: nat)

  /** `data[k]` as an operand of a bitwise operator: an index outside the
      array reads `undefined`, which those operators treat as 0. */
  function At(data: seq<byte>, k: int): byte
  {
    if 0 <= k < |data| then data[k] else 0
  }

  /** `n` consecutive reads `data[from]`, `data[from + 1]`, ... */
  function Window(data: seq<byte>, from: int, n: nat): (r: seq<byte>)
    ensures |r| == n
    ensures forall i :: 0 <= i < n ==> r[i] == At(data, from + i)
  {
    seq<byte>(n, i requires 0 <= i < n => At(data, from + i))
  }

  /** For `b < 2m`, bit `m` of `b` is set exactly when `b >= m`. */
  lemma TopBit(b: nat, m: nat)
    requires m > 0 && b < 2 * m
    ensures (b / m) % 2 == 1 <==> b >= m
  {
    if b >= m {
      ModUnique(b, m, 1, b - m);
    } else {
      ModUnique(b, m, 0, b);
    }
  }

  /** The marker loop of `readVarInt`: the mask starts at 0x80 (width 1) and
      moves right, one width at a time, until it meets a set bit. */
  function MarkerFrom(b: byte, w: nat): (r: nat)
    requires 1 <= w <= 8 && 0 < b < Pow2(9 - w)
    ensures w <= r <= 8 && Pow2(8 - r) <= b < Pow2(9 - r)
    decreases 8 - w
  {
    TopBit(b, Pow2(8 - w));
    BitSetDiv(b, 8 - w);
    if BitSet(b, 8 - w) then w
    else MarkerFrom(b, w + 1)
  }

  /** The VINT width announced by a nonzero first byte: one more than the
      number of zero bits before its top set bit, read off the byte's
      range. */
  function MarkerWidth(b: byte): (w: nat)
    requires b != 0
    ensures 1 <= w <= 8 && Pow2(8 - w) <= b < Pow2(9 - w)
  {
    PowersOfTwo();
    if b >= 0x80 then 1 else if b >= 0x40 then 2 else if b >= 0x20 then 3
    else if b >= 0x10 then 4 else if b >= 8 then 5 else if b >= 4 then 6
    else if b >= 2 then 7 else 8
  }

  /** The marker loop, started at width 1, stops at the width the byte's
      range announces. */
  lemma MarkerWidthLoop(b: byte)
    requires b != 0
    ensures MarkerFrom(b, 1) == MarkerWidth(b)
  {
    PowersOfTwo();
    MarkerWidthIs(b, MarkerFrom(b, 1));
  }

  /** A first byte inside [2^(8-w), 2^(9-w)) announces width `w`. */
  lemma MarkerWidthIs(b: byte, w: nat)
    requires 1 <= w <= 8 && Pow2(8 - w) <= b < Pow2(9 - w)
    ensures MarkerWidth(b) == w
  {
    PowersOfTwo();
    var r := MarkerWidth(b);
    if r < w {
      PowMonotone(8 - w, 8 - r - 1);
    } else if r > w {
      PowMonotone(8 - r, 8 - w - 1);
    }
  }

  lemma {:induction false} PowMonotone(i: nat, j: nat)
    requires i <= j
    ensures Pow2(i + 1) <= Pow2(j + 1)
    decreases j - i
  {
    if i < j {
      PowMonotone(i, j - 1);
    }
  }

  /** The number a VINT of width `MarkerWidth(data[offset])` at `offset`
      denotes: the first byte without its marker bit, followed by the
      width's remaining bytes, big-endian. */
  function VintValue(data: seq<byte>, offset: int): nat
    requires 0 <= offset < |data| && data[offset] != 0
  {
    var w := MarkerWidth(data[offset]);
    BeValue([data[offset] - Pow2(8 - w)] + Window(data, offset + 1, w - 1))
  }

  /** `readVarInt(data, offset)`. The source spins forever when the first
      byte is zero or lies outside the array (`None`). Otherwise the marker
      bit is cleared (`firstByte & ~mask`) and the remaining bytes are
      accumulated big-endian (`(value << 8) | byte`). Each partial value is
      at most the final one, so the 32-bit shifts are exact whenever the
      final value is below 2^31; that always holds up to width 4 (28 bits),
      and from width 5 on a value of 2^31 or more comes out wrapped to a
      signed 32-bit integer, which is outside the model (`None`). */
  function ReadVarInt(data: seq<byte>, offset: int): (r: Option<VarInt>)
    ensures r.Some? <==> 0 <= offset < |data| && data[offset] != 0
                         && (MarkerWidth(data[offset]) <= 4 || VintValue(data, offset) < 0x8000_0000)
    ensures 0 <= offset < |data| && data[offset] >= 0x10 ==> r.Some? && r.value.bytesRead <= 4
    ensures r.Some? ==> 1 <= r.value.bytesRead <= 8
    ensures r.Some? ==> MarkerWidth(data[offset]) == r.value.bytesRead
    ensures r.Some? ==> r.value.value < 0x8000_0000
    ensures r.Some? && r.value.bytesRead <= 4 ==> r.value.value < Pow2(7 * r.value.bytesRead)
  {
    if !(0 <= offset < |data|) || data[offset] == 0 then None
    else
      var first := data[offset];
      var w := MarkerWidth(first);
      PowersOfTwo();
      var v := VintValue(data, offset);
      if w <= 4 then
        ValueBound(first - Pow2(8 - w), w, Window(data, offset + 1, w - 1));
        Pow2Le28(w);
        Some(VarInt(v, w))
      else if v < 0x8000_0000 then Some(VarInt(v, w))
      else None
  }

  /** 2^(7w) is at most 2^28 for widths up to four. */
  lemma Pow2Le28(w: nat)
    requires 1 <= w <= 4
    ensures Pow2(7 * w) <= 0x1000_0000
  {
    PowersOfTwo();
    assert Pow2(14) == 0x4000 && Pow2(21) == 0x20_0000 && Pow2(28) == 0x1000_0000;
  }

  /** The value of a VINT of width `w` has at most 7w bits. */
  lemma ValueBound(hi: byte, w: nat, rest: seq<byte>)
    requires 1 <= w <= 4 && hi < Pow2(8 - w) && |rest| == w - 1
    ensures BeValue([hi] + rest) < Pow2(7 * w)
  {
    BeValueCons(hi, rest);
    StackBound(hi, Pow256(w - 1), BeValue(rest), Pow2(8 - w));
    MarkerWeight(w);
  }

  /** A top digit below `H` over a lower part below `P`. */
  lemma StackBound(hi: nat, P: nat, b: nat, H: nat)
    requires hi < H && b < P
    ensures hi * P + b < H * P
  {
    assert hi * P + P == (hi + 1) * P;
    MulLe(hi + 1, H, P);
  }

  lemma MulLe(a: nat, b: nat, c: nat)
    requires a <= b
    ensures a * c <= b * c
  {
    assert b * c == a * c + (b - a) * c;
  }

  /** The room below the marker bit times the weight of the lower bytes
      is the 7w bits of a width-`w` VINT. */
  lemma MarkerWeight(w: nat)
    requires 1 <= w <= 4
    ensures Pow2(8 - w) * Pow256(w - 1) == Pow2(7 * w)
  {
    PowersOfTwo();
    PowersOf256();
    assert Pow2(14) == 0x4000 && Pow2(21) == 0x20_0000 && Pow2(28) == 0x1000_0000;
  }

  /** A VINT `readVarInt` decodes holds less than 2^31, and less than 2^28
      when it is at most four bytes wide. */
  lemma ReadVarIntBounds(data: seq<byte>, offset: int)
    requires ReadVarInt(data, offset).Some?
    ensures ReadVarInt(data, offset).value.value < 0x8000_0000
    ensures ReadVarInt(data, offset).value.bytesRead <= 4 ==> ReadVarInt(data, offset).value.value < 0x1000_0000
  {
    var r := ReadVarInt(data, offset).value;
    if r.bytesRead <= 4 {
      Pow2Le28(r.bytesRead);
    }
  }

  /** A marker byte `first`, which is `hi + 2^(8-w)`, followed by `w - 1`
      bytes reads back as the big-endian value of `hi` and those bytes,
      with width `w`, whenever that value is below 2^31 (always so up to
      width 4). */
  lemma ReadsBack(first: byte, hi: byte, w: nat, rest: seq<byte>)
    requires 1 <= w <= 8 && hi < Pow2(8 - w) && |rest| == w - 1
    requires first == hi + Pow2(8 - w)
    requires w <= 4 || hi * Pow256(w - 1) + BeValue(rest) < 0x8000_0000
    ensures ReadVarInt([first] + rest, 0) == Some(VarInt(hi * Pow256(w - 1) + BeValue(rest), w))
  {
    MarkedValue(first, hi, w, rest);
  }

  /** The width and the value such a VINT denotes. */
  lemma MarkedValue(first: byte, hi: byte, w: nat, rest: seq<byte>)
    requires 1 <= w <= 8 && hi < Pow2(8 - w) && |rest| == w - 1
    requires first == hi + Pow2(8 - w)
    ensures first != 0 && MarkerWidth(first) == w
    ensures VintValue([first] + rest, 0) == hi * Pow256(w - 1) + BeValue(rest)
  {
    var data := [first] + rest;
    MarkerWidthIs(first, w);
    assert Window(data, 1, w - 1) == rest;
    BeValueCons(hi, rest);
  }

  /** `readVarInt` looks only at `data[offset .. offset + bytesRead]`, so a
      VINT read inside `d` reads the same inside `pre + d + post`. */
  lemma ReadVarIntShift(pre: seq<byte>, d: seq<byte>, post: seq<byte>, offset: int)
    requires ReadVarInt(d, offset).Some?
    requires offset + ReadVarInt(d, offset).value.bytesRead <= |d|
    ensures ReadVarInt(pre + d + post, |pre| + offset) == ReadVarInt(d, offset)
  {
    var data := pre + d + post;
    var w := ReadVarInt(d, offset).value.bytesRead;
    assert data[|pre| + offset] == d[offset];
    assert Window(data, |pre| + offset + 1, w - 1) == Window(d, offset + 1, w - 1);
  }

  /** `encodeVarInt(value)`: widths 1, 2, 3 and 4 below 0x7F, 0x3FFF and
      0x1FFFFF and above, the top byte or-ed with the width marker. The
      Uint8Array keeps the low eight bits of each entry, so `value >> 24`
      contributes `(value / 2^24) mod 256` even where the 32-bit shift
      wraps, and `& 0xFF` keeps the low byte of each shifted value. */
  function EncodeVarInt(v: nat): (r: seq<byte>)
    ensures |r| == (if v < 0x7F then 1 else if v < 0x3FFF then 2 else if v < 0x1F_FFFF then 3 else 4)
  {
    if v < 0x7F then [SetBit(v, 7)]
    else if v < 0x3FFF then [SetBit(v / 0x100, 6)] + BigEndian(v, 1)
    else if v < 0x1F_FFFF then [SetBit(v / 0x1_0000, 5)] + BigEndian(v, 2)
    else [SetBit((v / 0x100_0000) % 0x100, 4)] + BigEndian(v, 3)
  }

  /** The top byte `v / 256^(w-1)` stacked on the low `w - 1` bytes is `v`. */
  lemma SplitTop(v: nat, w: nat)
    requires 1 <= w
    ensures (v / Pow256(w - 1)) * Pow256(w - 1) + BeValue(BigEndian(v, w - 1)) == v
  {
    BeValueBigEndian(v, w - 1);
    DivMod(v, Pow256(w - 1));
  }

  /** Reading back what `encodeVarInt` wrote recovers the value and the
      width, for every value below 2^28. */
  lemma EncodeVarIntRoundTrip(v: nat)
    requires v < 0x1000_0000
    ensures ReadVarInt(EncodeVarInt(v), 0) == Some(VarInt(v, |EncodeVarInt(v)|))
  {
    var w := |EncodeVarInt(v)|;
    var hi := v / Pow256(w - 1);
    EncodeVarIntTop(v);
    SetBitBelow(hi, 8 - w);
    ReadsBack(SetBit(hi, 8 - w), hi, w, BigEndian(v, w - 1));
    SplitTop(v, w);
  }

  /** Below 2^28 the top byte is the value's top digit, which has room
      below the width marker, with that marker set. */
  lemma EncodeVarIntTop(v: nat)
    requires v < 0x1000_0000
    ensures var w := |EncodeVarInt(v)|;
      && 1 <= w <= 4
      && v / Pow256(w - 1) < Pow2(8 - w)
      && EncodeVarInt(v) == [SetBit(v / Pow256(w - 1), 8 - w)] + BigEndian(v, w - 1)
  {
    if v < 0x7F {
      TopOfWidth(v, 1);
    } else if v < 0x3FFF {
      TopOfWidth(v, 2);
    } else if v < 0x1F_FFFF {
      TopOfWidth(v, 3);
    } else {
      TopOfWidth(v, 4);
    }
  }

  /** One width of `EncodeVarIntTop`. */
  lemma TopOfWidth(v: nat, w: nat)
    requires 1 <= w <= 4 && v < 0x1000_0000 && |EncodeVarInt(v)| == w
    ensures v / Pow256(w - 1) < Pow2(8 - w)
    ensures EncodeVarInt(v) == [SetBit(v / Pow256(w - 1), 8 - w)] + BigEndian(v, w - 1)
  {
    PowersOfTwo();
    PowersOf256();
    if w == 4 {
      assert v / 0x100_0000 < 0x10;
    }
  }

  /** A run of zero bytes is worth 0. */
  lemma {:induction false} BeValueZeros(n: nat)
    ensures BeValue(seq(n, _ => 0)) == 0
  {
    if n > 0 {
      assert seq(n, _ => 0)[..n - 1] == seq(n - 1, _ => 0);
      BeValueZeros(n - 1);
    }
  }

  /** An eight-byte size field holding 11, as muxers that reserve a
      fixed-width size write it, reads back exactly. */
  lemma ReadWideSize()
    ensures ReadVarInt([0x01, 0, 0, 0, 0, 0, 0, 0x0B], 0) == Some(VarInt(11, 8))
  {
    PowersOfTwo();
    var rest: seq<byte> := [0, 0, 0, 0, 0, 0, 0x0B];
    assert rest[..6] == seq(6, _ => 0);
    BeValueZeros(6);
    assert BeValue(rest) == BeValue(rest[..6]) * 256 + 0x0B;
    ReadsBack(0x01, 0, 8, rest);
    assert [0x01] + rest == [0x01, 0, 0, 0, 0, 0, 0, 0x0B];
  }

  /** A five-byte VINT whose value is 2^31 is where the source's 32-bit
      shifts wrap: outside the model. */
  lemma ReadWrapsOutside()
    ensures ReadVarInt([0x08, 0x80, 0, 0, 0], 0) == None
  {
    PowersOfTwo();
    PowersOf256();
    MarkerWidthIs(0x08, 5);
    assert Window([0x08, 0x80, 0, 0, 0], 1, 4) == [0x80] + seq(3, _ => 0);
    BeValueZeros(3);
    BeValueCons(0x80, seq(3, _ => 0));
    BeValueCons(0, [0x80] + seq(3, _ => 0));
  }

  /** At 2^28 the 4-byte marker collides with the value's own top bit: the
      encoding reads back as 0. */
  lemma EncodeVarIntOverflow()
    ensures EncodeVarInt(0x1000_0000) == [0x10, 0, 0, 0]
    ensures ReadVarInt(EncodeVarInt(0x1000_0000), 0) == Some(VarInt(0, 4))
  {
    PowersOfTwo();
    SetBitAlreadySet(0x10, 4);
    assert BigEndian(0x1000_0000, 3) == [0, 0, 0];
    ReadsBack(0x10, 0, 4, [0, 0, 0]);
  }
}
