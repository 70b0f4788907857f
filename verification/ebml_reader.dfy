/** A strict EBML element reader following sections 4 to 6 of RFC 8794. It is
    not part of the source: it is the reference against which the writer's
    output is checked, so that "the header is these three elements" and
    "each frame is a Cluster and a SimpleBlock" can be stated and proved. */
module EbmlReader {
  import opened Bytes
  import opened Wrappers
  import opened VarInt
  import opened EbmlWriter

  datatype Element = Element(id: seq<byte>, payload: seq<byte>)

  /** An element ID: one to four bytes whose count is announced by the
      leading marker of the first byte, as for a VINT (section 5 of RFC 8794). */
  predicate ValidId(id: seq<byte>)
  {
    1 <= |id| <= 4 && id[0] != 0 && MarkerWidth(id[0]) == |id|
  }

  /** The all-ones VINT value that section 6.2 of RFC 8794 reserves for an
      unknown size. */
  predicate Reserved(v: VarInt)
    requires 1 <= v.bytesRead <= 8
  {
    v.value == Pow2(7 * v.bytesRead) - 1
  }

  /** Reads one element from the front of `data`: its ID, its size field and
      exactly `size` payload bytes. Returns the element and the number of
      bytes it occupies. */
  function ParseElement(data: seq<byte>): (r: Option<(Element, nat)>)
    ensures r.Some? ==> ValidId(r.value.0.id)
    ensures r.Some? ==>
      var (e, n) := r.value;
      && |e.id| + |e.payload| < n <= |data|
      && data[..|e.id|] == e.id
      && data[n - |e.payload|..n] == e.payload
  {
    if |data| == 0 || data[0] == 0 then None
    else
      var w := MarkerWidth(data[0]);
      if w > 4 || |data| < w then None
      else ParseBody(data, w, ReadVarInt(data, w))
  }

  /** The rest of `ParseElement` once the ID's width `w` is known and the
      size field has been read. */
  function ParseBody(data: seq<byte>, w: nat, size: Option<VarInt>): (r: Option<(Element, nat)>)
    requires 1 <= w <= |data|
    requires size.Some? ==> 1 <= size.value.bytesRead <= 8
    ensures r.Some? ==>
      var (e, n) := r.value;
      && e.id == data[..w]
      && w + |e.payload| < n <= |data|
      && data[n - |e.payload|..n] == e.payload
  {
    match size
    case None => None
    case Some(size) =>
      var start := w + size.bytesRead;
      if start + size.value > |data| || Reserved(size) then None
      else Some((Element(data[..w], data[start..start + size.value]), start + size.value))
  }

  /** Reads a whole byte string as a sequence of sibling elements. */
  function ParseAll(data: seq<byte>): (r: Option<seq<Element>>)
    decreases |data|
  {
    if data == [] then Some([])
    else match ParseElement(data)
      case None => None
      case Some((e, n)) =>
        match ParseAll(data[n..])
        case None => None
        case Some(es) => Some([e] + es)
  }

  /** Sizes that the writer encodes so that this reader gets them back: those
      that survive `readVarInt` and are not the reserved all-ones value. */
  predicate ReadableSize(n: nat)
  {
    WriterSizeExact(n) && n != 127 && n != 0x3FFF && n != 0x1F_FFFF && n != 0xFFF_FFFF
  }

  /** An element the writer can emit and this reader can read back. */
  predicate Writable(e: Element)
  {
    ValidId(e.id) && ReadableSize(|e.payload|)
  }

  /** The writer's bytes for an element: `writeEBMLElement` with the ID
      spelled as the source spells it. */
  function Serialize(e: Element): seq<byte>
    requires Writable(e)
  {
    WriteElement(IdText(e.id), e.payload)
  }

  function SerializeAll(es: seq<Element>): seq<byte>
    requires forall i :: 0 <= i < |es| ==> Writable(es[i])
  {
    if es == [] then []
    else
      assert Writable(es[0]);
      Serialize(es[0]) + SerializeAll(es[1..])
  }

  /** Element round trip: whatever follows it, a written element reads back
      as itself and is consumed exactly. */
  lemma ParseSerialized(e: Element, rest: seq<byte>)
    requires Writable(e)
    ensures ParseElement(Serialize(e) + rest) == Some((e, |Serialize(e)|))
  {
    var n := |e.payload|;
    var size := WriteSize(n);
    var w := |e.id|;
    var data := Serialize(e) + rest;
    SerializedLayout(e, rest);
    SizeFieldReads(e, rest);
    NotReserved(n, |size|);
    assert data[..w] == e.id;
    assert data[w + |size|..w + |size| + n] == e.payload;
  }

  lemma SerializedLayout(e: Element, rest: seq<byte>)
    requires Writable(e)
    ensures Serialize(e) + rest == e.id + WriteSize(|e.payload|) + (e.payload + rest)
    ensures |Serialize(e)| == |e.id| + |WriteSize(|e.payload|)| + |e.payload|
  {
    WriteIdText(e.id);
  }

  lemma SizeFieldReads(e: Element, rest: seq<byte>)
    requires Writable(e)
    ensures ReadVarInt(Serialize(e) + rest, |e.id|)
         == Some(VarInt(|e.payload|, |WriteSize(|e.payload|)|))
  {
    var n := |e.payload|;
    SerializedLayout(e, rest);
    WriteSizeRoundTrip(n);
    ReadVarIntShift(e.id, WriteSize(n), e.payload + rest, 0);
  }

  lemma NotReserved(n: nat, w: nat)
    requires ReadableSize(n) && w == |WriteSize(n)|
    ensures !Reserved(VarInt(n, w))
  {
    PowersOfTwo();
    assert Pow2(14) == 0x4000 && Pow2(21) == 0x20_0000 && Pow2(28) == 0x1000_0000;
  }

  /** A list of writable elements reads back as itself. */
  lemma {:induction false} ParseSerializedAll(es: seq<Element>)
    requires forall i :: 0 <= i < |es| ==> Writable(es[i])
    ensures ParseAll(SerializeAll(es)) == Some(es)
    decreases |es|
  {
    if es != [] {
      var data := SerializeAll(es);
      ParseSerialized(es[0], SerializeAll(es[1..]));
      assert data[|Serialize(es[0])|..] == SerializeAll(es[1..]);
      ParseSerializedAll(es[1..]);
      assert [es[0]] + es[1..] == es;
    }
  }

  /** A payload of 127 bytes is written with the reserved size 0xFF, so the
      element cannot be read back. */
  lemma Size127Unreadable(id: seq<byte>, payload: seq<byte>)
    requires ValidId(id) && |payload| == 127
    ensures ParseElement(WriteElement(IdText(id), payload)) == None
  {
    WriteSizeUnknownMarker();
    WriteIdText(id);
    var data := WriteElement(IdText(id), payload);
    assert data == id + [0xFF] + payload;
    PowersOfTwo();
    ReadsBack(0xFF, 0x7F, 1, []);
    ReadVarIntShift(id, [0xFF], payload, 0);
  }
}
