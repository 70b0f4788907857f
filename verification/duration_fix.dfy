/** The duration patcher of webm-duration-fix.js. It looks for the Segment
    ID and then the Info ID, walks Info's children for a Duration element,
    and either overwrites the Duration's eight payload bytes in place or
    splices an eleven-byte Duration element into Info and rewrites Info's
    size. Blobs are byte strings; the float64 duration is its eight bytes. */
module DurationFix {
  import opened Bytes
  import opened Wrappers
  import opened VarInt
  import opened WebmIds
  import opened Text

  // ---------------------------------------------------------------------
  // compareBytes and the two ID searches
  // ---------------------------------------------------------------------

  /** `data[offset + k] === pattern[k]` in JavaScript: false when the index
      lies outside the array, since `undefined` is never a byte. */
  predicate ByteMatches(data: seq<byte>, offset: int, pattern: seq<byte>, k: nat)
    requires k < |pattern|
  {
    0 <= offset + k < |data| && data[offset + k] == pattern[k]
  }

  /** The ID `id` occupies `data[k .. k + |id|]`. */
  predicate IdAt(data: seq<byte>, k: int, id: seq<byte>)
  {
    0 <= k && k + |id| <= |data| && data[k..k + |id|] == id
  }

  /** The loop of `compareBytes` from index `i` on. */
  function CompareFrom(data: seq<byte>, offset: int, pattern: seq<byte>, i: nat): (r: bool)
    requires i <= |pattern|
    ensures r <==> forall k :: i <= k < |pattern| ==> ByteMatches(data, offset, pattern, k)
    decreases |pattern| - i
  {
    if i == |pattern| then true
    else if !ByteMatches(data, offset, pattern, i) then false
    else CompareFrom(data, offset, pattern, i + 1)
  }

  /** `compareBytes(data, offset, pattern)`. An index outside the array
      reads `undefined`, which is never `===` a byte, so a pattern that runs
      past either end does not match. */
  function CompareBytes(data: seq<byte>, offset: int, pattern: seq<byte>): (r: bool)
    ensures r <==> pattern == [] || IdAt(data, offset, pattern)
  {
    var r := CompareFrom(data, offset, pattern, 0);
    assert r && pattern != [] ==> IdAt(data, offset, pattern) by {
      if r && pattern != [] {
        assert ByteMatches(data, offset, pattern, 0);
        assert ByteMatches(data, offset, pattern, |pattern| - 1);
        forall k | 0 <= k < |pattern|
          ensures data[offset..offset + |pattern|][k] == pattern[k]
        {
          assert ByteMatches(data, offset, pattern, k);
        }
      }
    }
    assert IdAt(data, offset, pattern) ==> r by {
      if IdAt(data, offset, pattern) {
        forall k | 0 <= k < |pattern|
          ensures ByteMatches(data, offset, pattern, k)
        {
          assert data[offset..offset + |pattern|][k] == data[offset + k];
        }
      }
    }
    r
  }

  /** The search loop of `findSegment` and `findSegmentInfo`: the least `i`
      in [from, end) at which the pattern matches, or -1. */
  function Scan(data: seq<byte>, pattern: seq<byte>, from: nat, end: int): (r: int)
    ensures r == -1 || (from <= r < end && CompareBytes(data, r, pattern))
    ensures r == -1 <==> forall k :: from <= k < end ==> !CompareBytes(data, k, pattern)
    ensures forall k :: from <= k < r ==> !CompareBytes(data, k, pattern)
    decreases end - from
  {
    if from >= end then -1
    else if CompareBytes(data, from, pattern) then from
    else Scan(data, pattern, from + 1, end)
  }

  /** `findSegment(data)`: the first Segment ID at a position below
      `data.length - 4`, or -1. The bound is one short, so an ID in the last
      four bytes is never found. */
  function FindSegment(data: seq<byte>): (r: int)
    ensures r == -1 || (0 <= r < |data| - 4 && IdAt(data, r, SegmentId))
    ensures forall k :: 0 <= k < |data| - 4 && (r == -1 || k < r) ==> !IdAt(data, k, SegmentId)
  {
    var r := Scan(data, SegmentId, 0, |data| - 4);
    assert forall k :: 0 <= k < |data| - 4 && (r == -1 || k < r) ==> !IdAt(data, k, SegmentId) by {
      forall k | 0 <= k < |data| - 4 && (r == -1 || k < r)
        ensures !IdAt(data, k, SegmentId)
      {
        assert !CompareBytes(data, k, SegmentId);
      }
    }
    r
  }

  /** `findSegmentInfo(data, startOffset)`: the same search for the Info ID
      over [start, min(start + 5000, data.length - 4)). */
  function FindSegmentInfo(data: seq<byte>, start: nat): (r: int)
    ensures r == -1 || (start <= r < start + 5000 && r < |data| - 4 && IdAt(data, r, InfoId))
    ensures forall k :: start <= k < start + 5000 && k < |data| - 4 && (r == -1 || k < r) ==> !IdAt(data, k, InfoId)
  {
    var end := if start + 5000 < |data| - 4 then start + 5000 else |data| - 4;
    var r := Scan(data, InfoId, start, end);
    assert forall k :: start <= k < start + 5000 && k < |data| - 4 && (r == -1 || k < r) ==> !IdAt(data, k, InfoId) by {
      forall k | start <= k < start + 5000 && k < |data| - 4 && (r == -1 || k < r)
        ensures !IdAt(data, k, InfoId)
      {
        assert !CompareBytes(data, k, InfoId);
      }
    }
    r
  }

  /** A Segment ID that starts four bytes before the end is not found: the
      search stops one position short. */
  lemma SegmentAtEndMissed(data: seq<byte>)
    requires |data| >= 4 && IdAt(data, |data| - 4, SegmentId)
    requires forall k :: 0 <= k < |data| - 4 ==> !IdAt(data, k, SegmentId)
    ensures FindSegment(data) == -1
    ensures CompareBytes(data, |data| - 4, SegmentId)
  {
  }

  // ---------------------------------------------------------------------
  // Typed-array copies
  // ---------------------------------------------------------------------

  /** `new Uint8Array(n)`. */
  function Zeros(n: nat): (r: seq<byte>)
    ensures |r| == n && forall i :: 0 <= i < n ==> r[i] == 0
  {
    seq(n, _ => 0)
  }

  /** `data.slice(from, to)` for non-negative bounds: both are clamped to the
      array, and an empty range gives an empty array. */
  function Slice(data: seq<byte>, from: nat, to: nat): (r: seq<byte>)
    ensures from <= to <= |data| ==> r == data[from..to]
    ensures from <= |data| <= to ==> r == data[from..]
    ensures to <= from || |data| <= from ==> r == []
  {
    var a := if from < |data| then from else |data|;
    var b := if to < |data| then to else |data|;
    if a < b then data[a..b] else []
  }

  /** `data.slice(from)`. */
  function SliceFrom(data: seq<byte>, from: nat): (r: seq<byte>)
    ensures from <= |data| ==> r == data[from..]
    ensures |data| <= from ==> r == []
  {
    Slice(data, from, |data|)
  }

  /** `target.set(source, at)`: copies `source` into `target` from index
      `at`, or throws a RangeError when it does not fit. */
  function SetAt(target: seq<byte>, source: seq<byte>, at: nat): (r: Outcome<seq<byte>>)
    ensures r.Returns? <==> at + |source| <= |target|
    ensures !r.Diverges?
    ensures r.Returns? ==> |r.value| == |target|
    ensures r.Returns? ==> r.value == target[..at] + source + target[at + |source|..]
  {
    if at + |source| <= |target| then Returns(target[..at] + source + target[at + |source|..])
    else Throws
  }

  // ---------------------------------------------------------------------
  // updateDuration
  // ---------------------------------------------------------------------

  /** Where the walk over Info's children stops: at a Duration ID, or past
      the end of Info. */
  datatype Stop = DurationAt(pos: nat) | PastEnd

  /** The `while (offset < endOffset)` loop of `updateDuration`. Every child
      is taken to have a two-byte ID, and its size VINT is read right after
      it; a size that cannot be read leaves the loop spinning inside
      `readVarInt`. */
  function Walk(data: seq<byte>, offset: nat, end: int): (r: Outcome<Stop>)
    ensures !r.Throws?
    ensures r.Returns? && r.value.DurationAt? ==>
      offset <= r.value.pos < end && IdAt(data, r.value.pos, DurationId)
    decreases end - offset
  {
    if offset >= end then Returns(PastEnd)
    else if CompareBytes(data, offset, DurationId) then Returns(DurationAt(offset))
    else match ReadVarInt(data, offset + 2)
      case None => Diverges
      case Some(size) => Walk(data, NextChild(offset, size), end)
  }

  /** Where the walk goes after a child at `offset` with a two-byte ID and
      the size `size`: past the ID, the size field and the payload. */
  function NextChild(offset: nat, size: VarInt): (r: nat)
    ensures r > offset
  {
    offset + 2 + size.bytesRead + size.value
  }

  /** Where the payload of the Info element at `infoOffset` starts, when
      its size field reads as `infoSize`: after the four-byte ID and the
      size field. */
  function PayloadStart(infoOffset: nat, infoSize: VarInt): nat
  {
    infoOffset + 4 + infoSize.bytesRead
  }

  /** Where that payload ends. */
  function PayloadEnd(infoOffset: nat, infoSize: VarInt): nat
  {
    PayloadStart(infoOffset, infoSize) + infoSize.value
  }

  /** The in-place branch of `updateDuration` for a Duration ID at `pos`: a
      fresh array of the same length receives the bytes up to and including
      the size byte, the eight duration bytes, and the rest. */
  function OverwriteDuration(data: seq<byte>, pos: nat, duration: Float64Bytes): (r: Outcome<seq<byte>>)
    ensures !r.Diverges?
    ensures r.Returns? <==> pos + 11 <= |data|
    ensures r.Returns? ==> |r.value| == |data| && r.value[pos + 3..pos + 11] == duration
    ensures r.Returns? ==> forall i :: 0 <= i < |data| && !(pos + 3 <= i < pos + 11) ==> r.value[i] == data[i]
    ensures r.Returns? ==> r.value == data[..pos + 3] + duration + data[pos + 11..]
  {
    var offset := pos + 2;
    var b1 :- SetAt(Zeros(|data|), Slice(data, 0, offset + 1), 0);
    var b2 :- SetAt(b1, duration, offset + 1);
    var r := SetAt(b2, SliceFrom(data, offset + 9), offset + 9);
    assert r.Returns? ==> r.value == data[..pos + 3] + duration + data[pos + 11..] by {
      if r.Returns? {
        OverwriteLayout(data, pos, duration, b1, b2, r.value);
      }
    }
    r
  }

  lemma OverwriteLayout(data: seq<byte>, pos: nat, duration: Float64Bytes, b1: seq<byte>, b2: seq<byte>, r: seq<byte>)
    requires pos + 11 <= |data|
    requires b1 == data[..pos + 3] + Zeros(|data|)[pos + 3..]
    requires b2 == b1[..pos + 3] + duration + b1[pos + 11..]
    requires r == b2[..pos + 11] + data[pos + 11..]
    ensures r == data[..pos + 3] + duration + data[pos + 11..]
  {
    assert b2[..pos + 11] == data[..pos + 3] + duration;
  }

  /** The Duration element `insertDurationInInfo` splices in: the Duration
      ID, the size byte 0x88 (eight bytes) and the float64. */
  function DurationElement(duration: Float64Bytes): (r: seq<byte>)
    ensures |r| == 11 && r[..2] == DurationId && r[2] == 0x88 && r[3..] == duration
  {
    DurationId + [0x88] + duration
  }

  /** `insertDurationInInfo(data, infoOffset, duration)`: a fresh array
      eleven bytes longer receives, in turn, the bytes before Info's size
      field, the re-encoded size plus eleven, the first sixteen bytes of
      Info's payload, the Duration element, and everything after those
      sixteen bytes. Each copy throws a RangeError when it overruns. */
  function InsertDurationInInfo(data: seq<byte>, infoOffset: nat, duration: Float64Bytes): (r: Outcome<seq<byte>>)
    ensures r.Returns? ==> |r.value| == |data| + 11
    ensures r.Diverges? <==> ReadVarInt(data, infoOffset + 4).None?
  {
    var offset := infoOffset + 4;
    match ReadVarInt(data, offset)
    case None => Diverges
    case Some(infoSize) =>
      SpliceDuration(data, offset, infoSize.bytesRead, EncodeVarInt(infoSize.value + 11), duration)
  }

  /** The five copies of `insertDurationInInfo`, once Info's size field at
      `offset`, `width` bytes wide, has been re-encoded as `newSizeBytes`. */
  function SpliceDuration(data: seq<byte>, offset: nat, width: nat, newSizeBytes: seq<byte>,
                          duration: Float64Bytes): (r: Outcome<seq<byte>>)
    ensures !r.Diverges?
    ensures r.Returns? ==> |r.value| == |data| + 11
  {
    CopyAll(Zeros(|data| + 11), SpliceCopies(data, offset, width, newSizeBytes, duration))
  }

  /** The five `set` calls of `insertDurationInInfo`, in order. */
  function SpliceCopies(data: seq<byte>, offset: nat, width: nat, newSizeBytes: seq<byte>,
                        duration: Float64Bytes): (r: seq<Copy>)
    ensures |r| == 5
  {
    var infoDataStart := offset + width;
    var at := offset + |newSizeBytes|;
    [ Copy(Slice(data, 0, offset), 0),
      Copy(newSizeBytes, offset),
      Copy(Slice(data, infoDataStart, infoDataStart + 16), at),
      Copy(DurationElement(duration), at + 16),
      Copy(SliceFrom(data, infoDataStart + 16), at + 27) ]
  }

  /** One `target.set(source, at)` call. */
  datatype Copy = Copy(source: seq<byte>, at: nat)

  /** The copies made in turn into `target`; the first that overruns
      throws. */
  function CopyAll(target: seq<byte>, copies: seq<Copy>): (r: Outcome<seq<byte>>)
    ensures !r.Diverges?
    ensures r.Returns? ==> |r.value| == |target|
    decreases |copies|
  {
    if copies == [] then Returns(target)
    else
      var next :- SetAt(target, copies[0].source, copies[0].at);
      CopyAll(next, copies[1..])
  }

  /** The first copy: it throws, or the rest are made into its result. */
  lemma CopyFirst(target: seq<byte>, copies: seq<Copy>)
    requires copies != []
    ensures var first := SetAt(target, copies[0].source, copies[0].at);
      CopyAll(target, copies) == if first.Returns? then CopyAll(first.value, copies[1..]) else Throws
  {
  }

  /** `updateDuration(data, infoOffset, duration)`: read Info's size, walk
      its children, then overwrite the Duration found or insert one. */
  function UpdateDuration(data: seq<byte>, infoOffset: nat, duration: Float64Bytes): (r: Outcome<seq<byte>>)
    ensures r.Returns? ==> |r.value| == |data| || |r.value| == |data| + 11
  {
    match ReadVarInt(data, infoOffset + 4)
    case None => Diverges
    case Some(infoSize) =>
      var stop :- Walk(data, PayloadStart(infoOffset, infoSize), PayloadEnd(infoOffset, infoSize));
      Patch(data, infoOffset, duration, stop)
  }

  /** The branch `updateDuration` takes where the walk stops. */
  function Patch(data: seq<byte>, infoOffset: nat, duration: Float64Bytes, stop: Stop): (r: Outcome<seq<byte>>)
    ensures r.Returns? ==> |r.value| == |data| || |r.value| == |data| + 11
  {
    match stop
    case DurationAt(p) => OverwriteDuration(data, p, duration)
    case PastEnd => InsertDurationInInfo(data, infoOffset, duration)
  }

  /** `fixDuration(blob, duration)`. Without a Segment the input comes back.
      Without an Info the source calls `this.insertDuration`, which the
      class does not define: the TypeError is caught and the input comes
      back, as it does for every RangeError thrown along the way. */
  function FixDuration(data: seq<byte>, duration: Float64Bytes): (r: Outcome<seq<byte>>)
    ensures !r.Throws?
    ensures r.Returns? ==> |r.value| == |data| || |r.value| == |data| + 11
    ensures FindSegment(data) == -1 ==> r == Returns(data)
    ensures FindSegment(data) >= 0 && FindSegmentInfo(data, FindSegment(data)) == -1 ==> r == Returns(data)
  {
    var segmentOffset := FindSegment(data);
    if segmentOffset == -1 then Returns(data)
    else
      var infoOffset := FindSegmentInfo(data, segmentOffset);
      if infoOffset == -1 then Returns(data)
      else match UpdateDuration(data, infoOffset, duration)
        case Throws => Returns(data)
        case Returns(patched) => Returns(patched)
        case Diverges => Diverges
  }

  // ---------------------------------------------------------------------
  // Layout of the inserted Duration
  // ---------------------------------------------------------------------

  /** Copying into the zero-filled tail of a fresh array: it fits exactly
      when the source is no longer than the tail. */
  lemma SetAtZeros(prefix: seq<byte>, source: seq<byte>, k: nat)
    ensures SetAt(prefix + Zeros(k), source, |prefix|)
         == if |source| <= k then Returns(prefix + source + Zeros(k - |source|)) else Throws
  {
    var t := prefix + Zeros(k);
    if |source| <= k {
      assert t[..|prefix|] == prefix;
      assert t[|prefix| + |source|..] == Zeros(k - |source|);
    }
  }

  /** With sixteen bytes of Info payload present, the copies succeed
      exactly when the new size field is no wider than the old one, and the
      result is then: the bytes before the size field, the new size, sixteen
      payload bytes, the Duration element, the rest of the input, and as
      many zero bytes as the size field shrank. */
  lemma SpliceLayout(data: seq<byte>, o: nat, w: nat, nsb: seq<byte>, duration: Float64Bytes)
    requires o + w + 16 <= |data| && |nsb| <= 4
    ensures SpliceDuration(data, o, w, nsb, duration)
         == if |nsb| <= w
            then Returns(data[..o] + nsb + data[o + w..o + w + 16] + DurationElement(duration)
                         + data[o + w + 16..] + Zeros(w - |nsb|))
            else Throws
  {
    var L := |data|;
    var n := |nsb|;
    var head := data[o + w..o + w + 16];
    var tail := data[o + w + 16..];
    var de := DurationElement(duration);
    var cs := SpliceCopies(data, o, w, nsb, duration);
    assert cs[0].source == data[..o] && cs[2].source == head && cs[4].source == tail;
    var p1 := data[..o];
    var p2 := p1 + nsb;
    var p3 := p2 + head;
    var p4 := p3 + de;
    assert Zeros(L + 11) == [] + Zeros(L + 11);
    assert [] + p1 == p1;
    SetAtZeros([], p1, L + 11);
    CopyFirst(Zeros(L + 11), cs);
    SetAtZeros(p1, nsb, L + 11 - o);
    CopyFirst(p1 + Zeros(L + 11 - o), cs[1..]);
    SetAtZeros(p2, head, L + 11 - o - n);
    CopyFirst(p2 + Zeros(L + 11 - o - n), cs[2..]);
    SetAtZeros(p3, de, L + 11 - o - n - 16);
    CopyFirst(p3 + Zeros(L + 11 - o - n - 16), cs[3..]);
    if n <= w {
      SetAtZeros(p4, tail, L + 11 - o - n - 27);
      CopyFirst(p4 + Zeros(L + 11 - o - n - 27), cs[4..]);
      assert cs[5..] == [];
    }
  }

  /** `insertDurationInInfo` with sixteen bytes of Info payload present:
      the layout above, for the size field `readVarInt` finds. */
  lemma InsertLayout(data: seq<byte>, infoOffset: nat, duration: Float64Bytes, size: VarInt)
    requires ReadVarInt(data, infoOffset + 4) == Some(size)
    requires infoOffset + 4 + size.bytesRead + 16 <= |data|
    ensures var o := infoOffset + 4;
      var w := size.bytesRead;
      var nsb := EncodeVarInt(size.value + 11);
      InsertDurationInInfo(data, infoOffset, duration)
        == if |nsb| <= w
           then Returns(data[..o] + nsb + data[o + w..o + w + 16] + DurationElement(duration)
                        + data[o + w + 16..] + Zeros(w - |nsb|))
           else Throws
  {
    var o := infoOffset + 4;
    var nsb := EncodeVarInt(size.value + 11);
    InsertIsSplice(data, infoOffset, duration, size);
    SpliceLayout(data, o, size.bytesRead, nsb, duration);
  }

  /** Once Info's size is read, the insertion is the splice. */
  lemma InsertIsSplice(data: seq<byte>, infoOffset: nat, duration: Float64Bytes, size: VarInt)
    requires ReadVarInt(data, infoOffset + 4) == Some(size)
    ensures InsertDurationInInfo(data, infoOffset, duration)
         == SpliceDuration(data, infoOffset + 4, size.bytesRead, EncodeVarInt(size.value + 11), duration)
  {
    var o := infoOffset + 4;
    match ReadVarInt(data, o)
    case Some(infoSize) =>
      assert infoSize == size;
  }

  /** The fields of a five-part concatenation. */
  lemma FiveParts(pre: seq<byte>, nsb: seq<byte>, head: seq<byte>, de: seq<byte>, tail: seq<byte>)
    requires |head| == 16 && |de| == 11
    ensures var r := pre + nsb + head + de + tail;
      var k := |pre| + |nsb|;
      && r[..|pre|] == pre
      && r[k..k + 16] == head
      && r[k + 16..k + 27] == de
      && r[k + 27..] == tail
      && r == pre + nsb + (head + de + tail)
  {
  }

  /** `r` is `data` with a Duration element inserted into the Info element
      whose size field, `w` bytes wide, starts at `o`: eleven bytes longer;
      everything before the size field unchanged; the size field reading
      back as `v` with the same width; the first sixteen payload bytes
      kept; then the Duration element `44 89 88` with the duration; then
      the rest of the input, shifted by eleven. */
  predicate InsertedAt(r: seq<byte>, data: seq<byte>, o: nat, w: nat, v: nat, duration: Float64Bytes)
    requires o + w + 16 <= |data|
  {
    && |r| == |data| + 11
    && r[..o] == data[..o]
    && ReadVarInt(r, o) == Some(VarInt(v, w))
    && r[o + w..o + w + 16] == data[o + w..o + w + 16]
    && r[o + w + 16..o + w + 27] == DurationElement(duration)
    && r[o + w + 27..] == data[o + w + 16..]
  }

  /** When the new size has the width of the old one, the insertion
      succeeds and its size field reads back as the old size plus eleven. */
  lemma InsertSameWidth(data: seq<byte>, infoOffset: nat, duration: Float64Bytes, size: VarInt)
    requires ReadVarInt(data, infoOffset + 4) == Some(size)
    requires infoOffset + 4 + size.bytesRead + 16 <= |data|
    requires size.value + 11 < 0x1000_0000
    requires |EncodeVarInt(size.value + 11)| == size.bytesRead
    ensures InsertDurationInInfo(data, infoOffset, duration).Returns?
    ensures InsertedAt(InsertDurationInInfo(data, infoOffset, duration).value, data,
                       infoOffset + 4, size.bytesRead, size.value + 11, duration)
  {
    var o := infoOffset + 4;
    var w := size.bytesRead;
    var nsb := EncodeVarInt(size.value + 11);
    var r := data[..o] + nsb + data[o + w..o + w + 16] + DurationElement(duration) + data[o + w + 16..];
    InsertSameWidthResult(data, infoOffset, duration, size);
    SameWidthInserted(data, o, w, size.value + 11, duration);
    InsertedAtResult(InsertDurationInInfo(data, infoOffset, duration), r, data, o, w, size.value + 11, duration);
  }

  /** The spliced array with `encodeVarInt(v)` as a size field of the old
      width `w` is an insertion whose size field reads back as `v`. */
  lemma SameWidthInserted(data: seq<byte>, o: nat, w: nat, v: nat, duration: Float64Bytes)
    requires o + w + 16 <= |data| && v < 0x1000_0000 && |EncodeVarInt(v)| == w
    ensures InsertedAt(data[..o] + EncodeVarInt(v) + data[o + w..o + w + 16] + DurationElement(duration)
                       + data[o + w + 16..], data, o, w, v, duration)
  {
    EncodeVarIntRoundTrip(v);
    SameWidthFields(data, o, EncodeVarInt(v), duration, v);
  }

  /** An outcome that returns an inserted array. */
  lemma InsertedAtResult(x: Outcome<seq<byte>>, r: seq<byte>, data: seq<byte>, o: nat, w: nat, v: nat, duration: Float64Bytes)
    requires x == Returns(r) && o + w + 16 <= |data| && InsertedAt(r, data, o, w, v, duration)
    ensures x.Returns? && InsertedAt(x.value, data, o, w, v, duration)
  {
  }

  /** The insertion's result when the size field keeps its width. */
  lemma InsertSameWidthResult(data: seq<byte>, infoOffset: nat, duration: Float64Bytes, size: VarInt)
    requires ReadVarInt(data, infoOffset + 4) == Some(size)
    requires infoOffset + 4 + size.bytesRead + 16 <= |data|
    requires size.value + 11 < 0x1000_0000
    requires |EncodeVarInt(size.value + 11)| == size.bytesRead
    ensures var o := infoOffset + 4;
      var w := size.bytesRead;
      InsertDurationInInfo(data, infoOffset, duration)
        == Returns(data[..o] + EncodeVarInt(size.value + 11) + data[o + w..o + w + 16]
                   + DurationElement(duration) + data[o + w + 16..])
  {
    InsertIsSplice(data, infoOffset, duration, size);
    SpliceSameWidth(data, infoOffset + 4, size.bytesRead, EncodeVarInt(size.value + 11), duration);
  }

  /** When the size field keeps its width nothing is left over at the end. */
  lemma SpliceSameWidth(data: seq<byte>, o: nat, w: nat, nsb: seq<byte>, duration: Float64Bytes)
    requires o + w + 16 <= |data| && |nsb| == w <= 4
    ensures SpliceDuration(data, o, w, nsb, duration)
         == Returns(data[..o] + nsb + data[o + w..o + w + 16] + DurationElement(duration) + data[o + w + 16..])
  {
    SpliceLayout(data, o, w, nsb, duration);
    var r := data[..o] + nsb + data[o + w..o + w + 16] + DurationElement(duration) + data[o + w + 16..];
    assert Zeros(0) == [];
    assert r + Zeros(0) == r;
  }

  /** The spliced array, when the new size field has the old one's width. */
  lemma SameWidthFields(data: seq<byte>, o: nat, nsb: seq<byte>, duration: Float64Bytes, v: nat)
    requires o + |nsb| + 16 <= |data|
    requires ReadVarInt(nsb, 0) == Some(VarInt(v, |nsb|))
    ensures var w := |nsb|;
      InsertedAt(data[..o] + nsb + data[o + w..o + w + 16] + DurationElement(duration) + data[o + w + 16..],
                 data, o, w, v, duration)
  {
    var w := |nsb|;
    var pre, head, de, tail := data[..o], data[o + w..o + w + 16], DurationElement(duration), data[o + w + 16..];
    FiveParts(pre, nsb, head, de, tail);
    ReadVarIntShift(pre, nsb, head + de + tail, 0);
  }

  /** When the new size needs a wider VINT than the old one, the last copy
      overruns the array and throws a RangeError. */
  lemma InsertWidthGrows(data: seq<byte>, infoOffset: nat, duration: Float64Bytes, size: VarInt)
    requires ReadVarInt(data, infoOffset + 4) == Some(size)
    requires infoOffset + 4 + size.bytesRead + 16 <= |data|
    requires |EncodeVarInt(size.value + 11)| > size.bytesRead
    ensures InsertDurationInInfo(data, infoOffset, duration) == Throws
  {
    InsertLayout(data, infoOffset, duration, size);
  }

  /** One-byte Info sizes from 116 to 126 become two-byte sizes once eleven
      is added: the case that makes the insertion throw. */
  lemma OneByteSizesThatGrow(v: nat)
    requires 116 <= v < 127
    ensures |EncodeVarInt(v)| == 1 && |EncodeVarInt(v + 11)| == 2
  {
  }

  // ---------------------------------------------------------------------
  // The two paths of fixDuration
  // ---------------------------------------------------------------------

  /** `fixDuration` once both IDs are found: the outcome of
      `updateDuration`, with a thrown error replaced by the input. */
  lemma FixDurationFound(data: seq<byte>, duration: Float64Bytes, seg: nat, info: nat)
    requires FindSegment(data) == seg && FindSegmentInfo(data, seg) == info
    ensures FixDuration(data, duration)
         == if UpdateDuration(data, info, duration).Throws? then Returns(data) else UpdateDuration(data, info, duration)
  {
  }

  /** One step of the walk past a child that is not a Duration. */
  lemma WalkStep(data: seq<byte>, offset: nat, end: int, size: VarInt)
    requires offset < end && !CompareBytes(data, offset, DurationId)
    requires ReadVarInt(data, offset + 2) == Some(size)
    ensures Walk(data, offset, end) == Walk(data, NextChild(offset, size), end)
  {
  }

  /** `updateDuration` when the walk stops at a Duration ID at `p`. */
  lemma UpdateOverwrites(data: seq<byte>, info: nat, duration: Float64Bytes, size: VarInt, p: nat)
    requires ReadVarInt(data, info + 4) == Some(size)
    requires Walk(data, PayloadStart(info, size), PayloadEnd(info, size)) == Returns(DurationAt(p))
    ensures UpdateDuration(data, info, duration) == OverwriteDuration(data, p, duration)
  {
  }

  /** `updateDuration` when the walk passes the end of Info. */
  lemma UpdateInserts(data: seq<byte>, info: nat, duration: Float64Bytes, size: VarInt)
    requires ReadVarInt(data, info + 4) == Some(size)
    requires Walk(data, PayloadStart(info, size), PayloadEnd(info, size)) == Returns(PastEnd)
    ensures UpdateDuration(data, info, duration) == InsertDurationInInfo(data, info, duration)
  {
  }

  /** When the walk finds a Duration ID at `p`, `fixDuration` returns the
      input with the eight bytes after the Duration's size byte replaced by
      the duration; when those eight bytes run past the end, the RangeError
      is caught and the input comes back. */
  lemma FixDurationOverwrites(data: seq<byte>, duration: Float64Bytes, seg: nat, info: nat, size: VarInt, p: nat)
    requires FindSegment(data) == seg && FindSegmentInfo(data, seg) == info
    requires ReadVarInt(data, info + 4) == Some(size)
    requires Walk(data, PayloadStart(info, size), PayloadEnd(info, size)) == Returns(DurationAt(p))
    ensures FixDuration(data, duration)
         == if p + 11 <= |data| then Returns(data[..p + 3] + duration + data[p + 11..]) else Returns(data)
  {
    FixDurationFound(data, duration, seg, info);
    UpdateOverwrites(data, info, duration, size, p);
  }

  /** When the walk passes the end of Info without a Duration ID and Info's
      payload has sixteen bytes, `fixDuration` returns the spliced layout if
      the new size is no wider than the old, and the input otherwise. */
  lemma FixDurationInserts(data: seq<byte>, duration: Float64Bytes, seg: nat, info: nat, size: VarInt)
    requires FindSegment(data) == seg && FindSegmentInfo(data, seg) == info
    requires ReadVarInt(data, info + 4) == Some(size)
    requires Walk(data, PayloadStart(info, size), PayloadEnd(info, size)) == Returns(PastEnd)
    requires info + 4 + size.bytesRead + 16 <= |data|
    ensures var o := info + 4;
      var w := size.bytesRead;
      var nsb := EncodeVarInt(size.value + 11);
      FixDuration(data, duration)
        == if |nsb| <= w
           then Returns(data[..o] + nsb + data[o + w..o + w + 16] + DurationElement(duration)
                        + data[o + w + 16..] + Zeros(w - |nsb|))
           else Returns(data)
  {
    FixDurationFound(data, duration, seg, info);
    UpdateInserts(data, info, duration, size);
    InsertLayout(data, info, duration, size);
  }

  /** A file whose Info size is an eight-byte VINT, as muxers that reserve
      the size field write it: the Segment ID, eight bytes without 0x15
      (say the Segment size as eight bytes), the Info ID, the size 11 in
      eight bytes, then an eleven-byte Duration element. The Info ID is
      found at 12, its size is read from eight bytes, the walk stops at the
      Duration at 24, and its eight value bytes are overwritten. */
  lemma WideSizesOverwritten(head: seq<byte>, tail: seq<byte>, duration: Float64Bytes)
    requires |head| == 16 && head[..4] == SegmentId && head[12..] == InfoId
    requires forall k :: 4 <= k < 12 ==> head[k] != 0x15
    requires |tail| == 11 && tail[..2] == DurationId
    ensures var data := head + [0x01, 0, 0, 0, 0, 0, 0, 0x0B] + tail;
      FixDuration(data, duration) == Returns(data[..27] + duration)
  {
    var size: seq<byte> := [0x01, 0, 0, 0, 0, 0, 0, 0x0B];
    var data := head + size + tail;
    assert |data| == 35;
    assert data[..16] == head;
    assert data[24..] == tail;
    WideFileSearches(data);
    ReadWideSize();
    ReadVarIntShift(head, size, tail, 0);
    OverwriteAt24(data, duration);
  }

  /** The patch of that file once the searches and the size read are
      known. */
  lemma OverwriteAt24(data: seq<byte>, duration: Float64Bytes)
    requires |data| == 35 && FindSegment(data) == 0 && FindSegmentInfo(data, 0) == 12
    requires ReadVarInt(data, 16) == Some(VarInt(11, 8)) && data[24..][..2] == DurationId
    ensures FixDuration(data, duration) == Returns(data[..27] + duration)
  {
    var size := VarInt(11, 8);
    assert data[24..26] == DurationId;
    assert PayloadStart(12, size) == 24 && PayloadEnd(12, size) == 35;
    assert IdAt(data, 24, DurationId);
    assert CompareBytes(data, 24, DurationId);
    assert Walk(data, 24, 35) == Returns(DurationAt(24));
    FixDurationOverwrites(data, duration, 0, 12, size, 24);
    assert data[..24 + 3] + duration + data[24 + 11..] == data[..27] + duration;
  }

  /** The two searches in that file: the Segment ID at 0 and the Info ID at
      12, with no byte 0x15 before it. */
  lemma WideFileSearches(data: seq<byte>)
    requires |data| == 35 && data[..16][..4] == SegmentId && data[..16][12..] == InfoId
    requires forall k :: 4 <= k < 12 ==> data[..16][k] != 0x15
    ensures FindSegment(data) == 0 && FindSegmentInfo(data, 0) == 12
  {
    assert data[..4] == SegmentId && data[12..16] == InfoId;
    assert IdAt(data, 0, SegmentId);
    assert IdAt(data, 12, InfoId);
  }

  // ---------------------------------------------------------------------
  // Idempotence of the overwrite path
  // ---------------------------------------------------------------------

  /** Two arrays of the same length whose first `n` bytes are the same. */
  predicate AgreeBelow(a: seq<byte>, b: seq<byte>, n: nat)
  {
    |a| == |b| && n <= |a| && a[..n] == b[..n]
  }

  /** Arrays that agree below `n` agree at every index below `n`. */
  lemma AgreeAt(a: seq<byte>, b: seq<byte>, n: nat, i: int)
    requires AgreeBelow(a, b, n) && 0 <= i < n
    ensures a[i] == b[i]
  {
    assert a[..n][i] == b[..n][i];
  }

  lemma IdAtAgree(a: seq<byte>, b: seq<byte>, n: nat, k: int, id: seq<byte>)
    requires AgreeBelow(a, b, n) && k + |id| <= n
    ensures IdAt(a, k, id) == IdAt(b, k, id)
  {
    if 0 <= k {
      assert a[k..k + |id|] == a[..n][k..k + |id|];
      assert b[k..k + |id|] == b[..n][k..k + |id|];
    }
  }

  /** A search that succeeds in `a` at `r` succeeds at `r` in any `b` that
      agrees with `a` up to the end of the match. */
  lemma {:induction false} ScanAgree(a: seq<byte>, b: seq<byte>, n: nat, pattern: seq<byte>, from: nat, end: int)
    requires AgreeBelow(a, b, n)
    requires Scan(a, pattern, from, end) != -1 && Scan(a, pattern, from, end) + |pattern| <= n
    ensures Scan(b, pattern, from, end) == Scan(a, pattern, from, end)
    decreases end - from
  {
    IdAtAgree(a, b, n, from, pattern);
    if !CompareBytes(a, from, pattern) {
      ScanAgree(a, b, n, pattern, from + 1, end);
    }
  }

  /** The Segment search finds the same Segment ID in arrays that agree up
      to its end. */
  lemma FindSegmentAgree(a: seq<byte>, b: seq<byte>, n: nat)
    requires AgreeBelow(a, b, n)
    requires FindSegment(a) != -1 && FindSegment(a) + 4 <= n
    ensures FindSegment(b) == FindSegment(a)
  {
    ScanAgree(a, b, n, SegmentId, 0, |a| - 4);
  }

  /** The Info search finds the same Info ID in arrays that agree up to its
      end. */
  lemma FindSegmentInfoAgree(a: seq<byte>, b: seq<byte>, n: nat, start: nat)
    requires AgreeBelow(a, b, n)
    requires FindSegmentInfo(a, start) != -1 && FindSegmentInfo(a, start) + 4 <= n
    ensures FindSegmentInfo(b, start) == FindSegmentInfo(a, start)
  {
    var end := if start + 5000 < |a| - 4 then start + 5000 else |a| - 4;
    ScanAgree(a, b, n, InfoId, start, end);
  }

  /** `readVarInt` reads the same VINT from arrays that agree over it. */
  lemma ReadVarIntAgree(a: seq<byte>, b: seq<byte>, n: nat, offset: int)
    requires AgreeBelow(a, b, n)
    requires ReadVarInt(a, offset).Some? && offset + ReadVarInt(a, offset).value.bytesRead <= n
    ensures ReadVarInt(b, offset) == ReadVarInt(a, offset)
  {
    var w := ReadVarInt(a, offset).value.bytesRead;
    AgreeAt(a, b, n, offset);
    forall i | offset + 1 <= i < offset + w
      ensures At(a, i) == At(b, i)
    {
      AgreeAt(a, b, n, i);
    }
    assert Window(a, offset + 1, w - 1) == Window(b, offset + 1, w - 1);
  }

  /** A walk that stops at a Duration ID at `p` in `a` reads nothing at or
      beyond `p + 2`, so it stops at `p` in any `b` agreeing below that. */
  lemma {:induction false} WalkAgree(a: seq<byte>, b: seq<byte>, n: nat, offset: nat, end: int, p: nat)
    requires AgreeBelow(a, b, n)
    requires Walk(a, offset, end) == Returns(DurationAt(p)) && p + 2 <= n
    ensures Walk(b, offset, end) == Returns(DurationAt(p))
    decreases end - offset
  {
    IdAtAgree(a, b, n, offset, DurationId);
    if !CompareBytes(a, offset, DurationId) {
      var size := ReadVarInt(a, offset + 2).value;
      WalkStep(a, offset, end, size);
      ReadVarIntAgree(a, b, n, offset + 2);
      WalkStep(b, offset, end, size);
      WalkAgree(a, b, n, NextChild(offset, size), end, p);
    }
  }

  /** The overwritten array agrees with the input before the duration bytes,
      and overwriting it again with the same bytes changes nothing. */
  lemma OverwriteAgain(data: seq<byte>, p: nat, duration: Float64Bytes)
    requires p + 11 <= |data|
    ensures var r := data[..p + 3] + duration + data[p + 11..];
      && AgreeBelow(data, r, p + 3)
      && r[..p + 3] + duration + r[p + 11..] == r
  {
    var r := data[..p + 3] + duration + data[p + 11..];
    assert r[..p + 3] == data[..p + 3];
    assert r[p + 11..] == data[p + 11..];
  }

  /** The searches find the Segment ID at `seg` and the Info ID at `info`,
      Info's size reads as `size`, and the walk over Info's payload stops at
      a Duration ID at `p`. */
  predicate DurationFound(data: seq<byte>, seg: nat, info: nat, size: VarInt, p: nat)
  {
    && FindSegment(data) == seg && FindSegmentInfo(data, seg) == info
    && ReadVarInt(data, info + 4) == Some(size)
    && Walk(data, PayloadStart(info, size), PayloadEnd(info, size)) == Returns(DurationAt(p))
  }

  /** The two ID searches find the same positions in any array that agrees
      with the input over the IDs they found. */
  lemma SearchesAgree(a: seq<byte>, b: seq<byte>, n: nat, seg: nat, info: nat)
    requires AgreeBelow(a, b, n) && info + 4 <= n
    requires FindSegment(a) == seg && FindSegmentInfo(a, seg) == info
    ensures FindSegment(b) == seg && FindSegmentInfo(b, seg) == info
  {
    FindSegmentAgree(a, b, n);
    FindSegmentInfoAgree(a, b, n, seg);
  }

  /** Info's size and the walk over its payload come out the same in any
      array that agrees with the input up to the Duration's size byte. */
  lemma InfoAgree(a: seq<byte>, b: seq<byte>, n: nat, info: nat, size: VarInt, p: nat)
    requires AgreeBelow(a, b, n) && p + 3 <= n
    requires ReadVarInt(a, info + 4) == Some(size)
    requires Walk(a, PayloadStart(info, size), PayloadEnd(info, size)) == Returns(DurationAt(p))
    ensures ReadVarInt(b, info + 4) == Some(size)
    ensures Walk(b, PayloadStart(info, size), PayloadEnd(info, size)) == Returns(DurationAt(p))
  {
    ReadVarIntAgree(a, b, n, info + 4);
    WalkAgree(a, b, n, PayloadStart(info, size), PayloadEnd(info, size), p);
  }

  /** The walk finds the Duration ID no earlier than Info's payload. */
  lemma WalkFoundInPayload(data: seq<byte>, info: nat, size: VarInt, p: nat)
    requires Walk(data, PayloadStart(info, size), PayloadEnd(info, size)) == Returns(DurationAt(p))
    ensures info + 4 <= p
  {
    assert PayloadStart(info, size) <= p;
  }

  /** Everything the patcher reads on the way to a Duration ID at `p` lies
      before `p + 3`, so it reads the same in any array agreeing below. */
  lemma FoundAgree(a: seq<byte>, b: seq<byte>, n: nat, seg: nat, info: nat, size: VarInt, p: nat)
    requires AgreeBelow(a, b, n) && p + 3 <= n && DurationFound(a, seg, info, size, p)
    ensures DurationFound(b, seg, info, size, p)
  {
    WalkFoundInPayload(a, info, size, p);
    SearchesAgree(a, b, n, seg, info);
    InfoAgree(a, b, n, info, size, p);
  }

  /** An array whose Duration was just overwritten is left as it is by a
      second patch with the same duration. */
  lemma OverwrittenIsFixed(data: seq<byte>, duration: Float64Bytes, seg: nat, info: nat, size: VarInt, p: nat)
    requires DurationFound(data, seg, info, size, p) && p + 11 <= |data|
    ensures var r := data[..p + 3] + duration + data[p + 11..];
      FixDuration(r, duration) == Returns(r)
  {
    var r := data[..p + 3] + duration + data[p + 11..];
    OverwriteAgain(data, p, duration);
    FoundAgree(data, r, p + 3, seg, info, size, p);
    FixDurationOverwrites(r, duration, seg, info, size, p);
  }

  /** Patching a file whose Duration was just overwritten with the same
      duration gives the same file: everything the second run reads lies
      before the rewritten bytes, and the bytes it writes are already there. */
  lemma FixDurationIdempotent(data: seq<byte>, duration: Float64Bytes, seg: nat, info: nat, size: VarInt, p: nat)
    requires FindSegment(data) == seg && FindSegmentInfo(data, seg) == info
    requires ReadVarInt(data, info + 4) == Some(size)
    requires Walk(data, PayloadStart(info, size), PayloadEnd(info, size)) == Returns(DurationAt(p))
    requires p + 11 <= |data|
    ensures FixDuration(data, duration).Returns?
    ensures FixDuration(FixDuration(data, duration).value, duration) == FixDuration(data, duration)
  {
    FixDurationOverwrites(data, duration, seg, info, size, p);
    assert DurationFound(data, seg, info, size, p);
    OverwrittenIsFixed(data, duration, seg, info, size, p);
  }
}
