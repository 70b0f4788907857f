/** The shape a WebM byte stream is expected to read as: a tree of EBML
    elements whose leaves are raw payloads or Matroska SimpleBlocks
    (section 10 of RFC 9559). Together with the strict element reader this
    is the independent description the writer's output is checked against. */
module WebmReader {
  import opened Bytes
  import opened Wrappers
  import opened VarInt
  import opened EbmlWriter
  import opened EbmlReader

  /** A SimpleBlock as a reader sees it: track number, signed 16-bit
      timecode relative to the cluster, keyframe flag and frame bytes. */
  datatype Block = Block(track: nat, timecode: int, keyframe: bool, frame: seq<byte>)

  /** The signed 16-bit integer a reader takes from two big-endian bytes:
      the representative of `v` modulo 2^16 in [-2^15, 2^15). */
  function Int16(v: int): (r: int)
    ensures -0x8000 <= r < 0x8000
    ensures (r - v) % 0x1_0000 == 0
    ensures -0x8000 <= v < 0x8000 ==> r == v
  {
    var m := v % 0x1_0000;
    if m >= 0x8000 then m - 0x1_0000 else m
  }

  /** Reads a SimpleBlock payload: the track number as a VINT, then the
      16-bit timecode, the flags byte (bit 0x80 marks a keyframe) and the
      frame. */
  function ParseBlock(p: seq<byte>): (r: Option<Block>)
    ensures r.Some? ==> |r.value.frame| + 4 <= |p| && r.value.frame == p[|p| - |r.value.frame|..]
  {
    match ReadVarInt(p, 0)
    case None => None
    case Some(track) =>
      var k := track.bytesRead;
      if |p| < k + 3 then None
      else Some(Block(track.value, Int16(BeValue(p[k..k + 2])), p[k + 2] >= 0x80, p[k + 3..]))
  }

  /** The expected shape of an element: a leaf with a given payload, a
      master element with given children, or a SimpleBlock. */
  datatype Tree =
    | Leaf(id: seq<byte>, payload: seq<byte>)
    | Node(id: seq<byte>, children: seq<Tree>)
    | BlockLeaf(id: seq<byte>, block: Block)

  /** `data` reads as exactly the sibling elements `ts`. */
  predicate Reads(data: seq<byte>, ts: seq<Tree>)
    decreases ts, 1
  {
    match ParseAll(data)
    case None => false
    case Some(es) => |es| == |ts| && forall i :: 0 <= i < |ts| ==> Matches(es[i], ts[i])
  }

  /** One element read from the stream has the expected shape. */
  predicate Matches(e: Element, t: Tree)
    decreases t, 0
  {
    && e.id == t.id
    && match t
       case Leaf(_, p) => e.payload == p
       case Node(_, cs) => Reads(e.payload, cs)
       case BlockLeaf(_, b) => ParseBlock(e.payload) == Some(b)
  }

  /** Introduces `Reads` from the elements the stream parses to. */
  lemma ReadsIntro(data: seq<byte>, es: seq<Element>, ts: seq<Tree>)
    requires ParseAll(data) == Some(es) && |es| == |ts|
    requires forall i :: 0 <= i < |ts| ==> Matches(es[i], ts[i])
    ensures Reads(data, ts)
  {
  }

  /** Eliminates `Reads` into the elements the stream parses to. */
  lemma ReadsElim(data: seq<byte>, ts: seq<Tree>)
    requires Reads(data, ts)
    ensures ParseAll(data).Some? && |ParseAll(data).value| == |ts|
    ensures forall i :: 0 <= i < |ts| ==> Matches(ParseAll(data).value[i], ts[i])
  {
  }

  /** One step of `ParseAll`: the first element, then the rest. */
  lemma ParseAllStep(data: seq<byte>, e: Element, n: nat, es: seq<Element>)
    requires data != [] && ParseElement(data) == Some((e, n))
    requires ParseAll(data[n..]) == Some(es)
    ensures ParseAll(data) == Some([e] + es)
  {
  }

  /** A written element reads as a single element of the expected shape. */
  lemma ReadsElement(id: seq<byte>, payload: seq<byte>, t: Tree)
    requires Writable(Element(id, payload)) && Matches(Element(id, payload), t)
    ensures Reads(WriteElement(IdText(id), payload), [t])
  {
    var e := Element(id, payload);
    var data := Serialize(e);
    ParseSerialized(e, []);
    assert data + [] == data;
    assert data[|data|..] == [];
    assert ParseAll([]) == Some([]);
    ParseAllStep(data, e, |data|, []);
    assert [e] + [] == [e];
    ReadsIntro(data, [e], [t]);
  }

  /** A written element reads as a leaf holding its payload. */
  lemma ReadsLeaf(id: seq<byte>, payload: seq<byte>)
    requires ValidId(id) && ReadableSize(|payload|)
    ensures Reads(WriteElement(IdText(id), payload), [Leaf(id, payload)])
  {
    ReadsElement(id, payload, Leaf(id, payload));
  }

  /** A written element whose payload reads as `cs` reads as a master
      element with children `cs`. */
  lemma ReadsNode(id: seq<byte>, payload: seq<byte>, cs: seq<Tree>)
    requires ValidId(id) && ReadableSize(|payload|) && Reads(payload, cs)
    ensures Reads(WriteElement(IdText(id), payload), [Node(id, cs)])
  {
    ReadsElement(id, payload, Node(id, cs));
  }

  /** The body of an element reads the same whatever follows it. */
  lemma ParseBodyPrefix(a: seq<byte>, b: seq<byte>, w: nat, size: Option<VarInt>)
    requires 1 <= w <= |a| && (size.Some? ==> 1 <= size.value.bytesRead <= 8)
    requires ParseBody(a, w, size).Some?
    ensures ParseBody(a + b, w, size) == ParseBody(a, w, size)
  {
    var start := w + size.value.bytesRead;
    assert (a + b)[..w] == a[..w];
    assert (a + b)[start..start + size.value.value] == a[start..start + size.value.value];
  }

  /** Reading looks only at the bytes of the element: what follows does not
      change how it is read. */
  lemma ParseElementPrefix(a: seq<byte>, b: seq<byte>)
    requires ParseElement(a).Some?
    ensures ParseElement(a + b) == ParseElement(a)
  {
    var w := MarkerWidth(a[0]);
    assert (a + b)[0] == a[0];
    var size := ReadVarInt(a, w);
    ReadVarIntShift([], a, b, w);
    assert [] + a + b == a + b;
    ParseBodyPrefix(a, b, w, size);
  }

  /** One step of `ParseAll` backwards: a stream that parses starts with an
      element and continues with a stream that parses. */
  lemma ParseAllUnstep(data: seq<byte>)
    requires data != [] && ParseAll(data).Some?
    ensures ParseElement(data).Some?
    ensures var n := ParseElement(data).value.1;
      && ParseAll(data[n..]).Some?
      && ParseAll(data).value == [ParseElement(data).value.0] + ParseAll(data[n..]).value
  {
  }

  /** Two element streams read one after the other. */
  lemma {:induction false} ParseAllAppend(a: seq<byte>, b: seq<byte>)
    requires ParseAll(a).Some? && ParseAll(b).Some?
    ensures ParseAll(a + b) == Some(ParseAll(a).value + ParseAll(b).value)
    decreases |a|
  {
    if a == [] {
      assert a + b == b;
      assert ParseAll(a) == Some([]);
      assert [] + ParseAll(b).value == ParseAll(b).value;
    } else {
      ParseAllUnstep(a);
      var e := ParseElement(a).value.0;
      var n := ParseElement(a).value.1;
      var rest := ParseAll(a[n..]).value;
      var tail := ParseAll(b).value;
      ParseElementPrefix(a, b);
      SliceAppend(a, b, n);
      ParseAllAppend(a[n..], b);
      ParseAllStep(a + b, e, n, rest + tail);
      AppendAssoc([e], rest, tail);
    }
  }

  /** Element-wise matching carries over to concatenations. */
  lemma MatchesAppend(ea: seq<Element>, ta: seq<Tree>, eb: seq<Element>, tb: seq<Tree>)
    requires |ea| == |ta| && |eb| == |tb|
    requires forall i :: 0 <= i < |ta| ==> Matches(ea[i], ta[i])
    requires forall i :: 0 <= i < |tb| ==> Matches(eb[i], tb[i])
    ensures forall i :: 0 <= i < |ta + tb| ==> Matches((ea + eb)[i], (ta + tb)[i])
  {
    forall i | 0 <= i < |ta + tb|
      ensures Matches((ea + eb)[i], (ta + tb)[i])
    {
      if i < |ta| {
        assert (ea + eb)[i] == ea[i] && (ta + tb)[i] == ta[i];
      } else {
        assert (ea + eb)[i] == eb[i - |ta|] && (ta + tb)[i] == tb[i - |ta|];
      }
    }
  }

  /** Concatenated streams read as the concatenated shapes. */
  lemma ReadsAppend(a: seq<byte>, ta: seq<Tree>, b: seq<byte>, tb: seq<Tree>)
    requires Reads(a, ta) && Reads(b, tb)
    ensures Reads(a + b, ta + tb)
  {
    ReadsElim(a, ta);
    ReadsElim(b, tb);
    ParseAllAppend(a, b);
    MatchesAppend(ParseAll(a).value, ta, ParseAll(b).value, tb);
    ReadsIntro(a + b, ParseAll(a).value + ParseAll(b).value, ta + tb);
  }

  /** `combineArrays` of streams that each read as expected reads as the
      concatenation of the expected shapes. */
  lemma {:induction false} ReadsFlatten(parts: seq<seq<byte>>, trees: seq<seq<Tree>>)
    requires |parts| == |trees|
    requires forall i :: 0 <= i < |parts| ==> Reads(parts[i], trees[i])
    ensures Reads(Flatten(parts), Flatten(trees))
    decreases |parts|
  {
    if parts == [] {
      ReadsIntro([], [], []);
    } else {
      var n := |parts| - 1;
      ReadsFlatten(parts[..n], trees[..n]);
      ReadsAppend(Flatten(parts[..n]), Flatten(trees[..n]), parts[n], trees[n]);
    }
  }
}
