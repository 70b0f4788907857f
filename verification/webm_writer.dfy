/** The `WebMWriter` class of webm-writer.js: the header it generates, the
    per-frame chunks it collects and `finalize`. Element bytes come from the
    primitives of `EbmlWriter`; the expected layouts are stated as shapes
    (`WebmReader.Tree`) that the bytes read as under the strict reader. */
module WebmWriter {
  import opened Bytes
  import opened Wrappers
  import opened VarInt
  import opened EbmlWriter
  import opened EbmlReader
  import opened WebmIds
  import opened WebmReader

  /** `timecodeScale`: one millisecond in nanoseconds. */
  const TimecodeScale: nat := 1000000
  const VideoTrackNumber: byte := 1
  const AudioTrackNumber: byte := 2

  const DocType: string := "webm"
  const MuxingApp: string := "Chrome Extension WASM Recorder"
  const WritingApp: string := "WebM Writer 1.0"
  const VideoCodec: string := "V_VP9"
  const AudioCodec: string := "A_OPUS"

  predicate IsAscii(s: string)
  {
    forall i :: 0 <= i < |s| ==> s[i] as int < 0x80
  }

  /** `new TextEncoder().encode(s)` for an ASCII string: UTF-8 spends one
      byte, the character code, per character. */
  function Ascii(s: string): (r: seq<byte>)
    requires IsAscii(s)
    ensures |r| == |s|
  {
    seq<byte>(|s|, i requires 0 <= i < |s| => s[i] as int)
  }

  /** The encoded strings, as `TextEncoder` produces them. */
  const DocTypeBytes: seq<byte> := Ascii(DocType)
  const MuxingAppBytes: seq<byte> := Ascii(MuxingApp)
  const WritingAppBytes: seq<byte> := Ascii(WritingApp)
  const VideoCodecBytes: seq<byte> := Ascii(VideoCodec)
  const AudioCodecBytes: seq<byte> := Ascii(AudioCodec)

  /** The `videoConfig` argument: `setUint16` keeps each dimension modulo
      2^16. */
  datatype VideoConfig = VideoConfig(width: int, height: int)

  /** The `audioConfig` argument, with the sample rate as the four bytes
      `setFloat32` stores for it. */
  datatype AudioConfig = AudioConfig(sampleRate: Float32Bytes, numberOfChannels: int)

  // ---------------------------------------------------------------- header

  /** The three children `createEBMLHeader` combines. */
  function EbmlHeaderPayload(): (r: seq<byte>)
    ensures |r| == 15
  {
    var docType := WriteElement(IdText(DocTypeId), DocTypeBytes);
    var docTypeVersion := WriteElement(IdText(DocTypeVersionId), [1]);
    var docTypeReadVersion := WriteElement(IdText(DocTypeReadVersionId), [1]);
    FlattenThree(docType, docTypeVersion, docTypeReadVersion);
    Flatten([docType, docTypeVersion, docTypeReadVersion])
  }

  /** `createEBMLHeader`. */
  function CreateEbmlHeader(): seq<byte>
  {
    WriteElement(IdText(EbmlId), EbmlHeaderPayload())
  }

  /** The three children `createSegmentInfo` combines: the TimecodeScale
      as a big-endian 64-bit unsigned integer, then the two application
      names. */
  function InfoPayload(): (r: seq<byte>)
    ensures |r| == 63
  {
    var timecodeScale := WriteElement(IdText(TimecodeScaleId), BigEndian(TimecodeScale, 8));
    var muxingApp := WriteElement(IdText(MuxingAppId), MuxingAppBytes);
    var writingApp := WriteElement(IdText(WritingAppId), WritingAppBytes);
    FlattenThree(timecodeScale, muxingApp, writingApp);
    Flatten([timecodeScale, muxingApp, writingApp])
  }

  /** `createSegmentInfo`. */
  function CreateSegmentInfo(): seq<byte>
  {
    WriteElement(IdText(InfoId), InfoPayload())
  }

  /** The `video` array of `createVideoTrack`: the two dimensions. */
  function VideoSettings(config: VideoConfig): (r: seq<byte>)
    ensures |r| == 8
  {
    var pixelWidth := WriteElement(IdText(PixelWidthId), BigEndian(config.width, 2));
    var pixelHeight := WriteElement(IdText(PixelHeightId), BigEndian(config.height, 2));
    FlattenTwo(pixelWidth, pixelHeight);
    Flatten([pixelWidth, pixelHeight])
  }

  /** `createVideoTrack`: the payload of the video TrackEntry. */
  function CreateVideoTrack(config: VideoConfig): (r: seq<byte>)
    ensures |r| == 27
  {
    var trackNumber := WriteElement(IdText(TrackNumberId), [VideoTrackNumber]);
    var trackUid := WriteElement(IdText(TrackUidId), [VideoTrackNumber]);
    var trackType := WriteElement(IdText(TrackTypeId), [1]);
    var codecId := WriteElement(IdText(CodecIdId), VideoCodecBytes);
    var video := WriteElement(IdText(VideoId), VideoSettings(config));
    FlattenFive(trackNumber, trackUid, trackType, codecId, video);
    Flatten([trackNumber, trackUid, trackType, codecId, video])
  }

  /** The `audio` array of `createAudioTrack`: the sampling frequency and
      the channel count, stored in one `Uint8Array` cell (modulo 256). */
  function AudioSettings(config: AudioConfig): (r: seq<byte>)
    ensures |r| == 9
  {
    var samplingFrequency := WriteElement(IdText(SamplingFrequencyId), config.sampleRate);
    var channels := WriteElement(IdText(ChannelsId), [config.numberOfChannels % 256]);
    FlattenTwo(samplingFrequency, channels);
    Flatten([samplingFrequency, channels])
  }

  /** `createAudioTrack`: the payload of the audio TrackEntry. */
  function CreateAudioTrack(config: AudioConfig): (r: seq<byte>)
    ensures |r| == 29
  {
    var trackNumber := WriteElement(IdText(TrackNumberId), [AudioTrackNumber]);
    var trackUid := WriteElement(IdText(TrackUidId), [AudioTrackNumber]);
    var trackType := WriteElement(IdText(TrackTypeId), [2]);
    var codecId := WriteElement(IdText(CodecIdId), AudioCodecBytes);
    var audio := WriteElement(IdText(AudioId), AudioSettings(config));
    FlattenFive(trackNumber, trackUid, trackType, codecId, audio);
    Flatten([trackNumber, trackUid, trackType, codecId, audio])
  }

  /** The video TrackEntry `createTracks` pushes. */
  function VideoEntry(config: VideoConfig): (r: seq<byte>)
    ensures |r| == 29
  {
    WriteElement(IdText(TrackEntryId), CreateVideoTrack(config))
  }

  /** The audio TrackEntry `createTracks` pushes. */
  function AudioEntry(config: AudioConfig): (r: seq<byte>)
    ensures |r| == 31
  {
    WriteElement(IdText(TrackEntryId), CreateAudioTrack(config))
  }

  /** The `tracks` array of `createTracks`: video first, each only when its
      configuration is present. */
  function TrackEntries(video: Option<VideoConfig>, audio: Option<AudioConfig>): seq<seq<byte>>
  {
    (if video.Some? then [VideoEntry(video.value)] else [])
    + (if audio.Some? then [AudioEntry(audio.value)] else [])
  }

  /** The combined TrackEntries. */
  function TracksPayload(video: Option<VideoConfig>, audio: Option<AudioConfig>): (r: seq<byte>)
    ensures |r| == (if video.Some? then 29 else 0) + (if audio.Some? then 31 else 0)
  {
    var vb := if video.Some? then [VideoEntry(video.value)] else [];
    var ab := if audio.Some? then [AudioEntry(audio.value)] else [];
    FlattenAppend(vb, ab);
    FlattenAtMostOne(vb);
    FlattenAtMostOne(ab);
    Flatten(TrackEntries(video, audio))
  }

  lemma FlattenAtMostOne<T>(parts: seq<seq<T>>)
    requires |parts| <= 1
    ensures Flatten(parts) == if parts == [] then [] else parts[0]
  {
    if parts != [] {
      FlattenOne(parts[0]);
      assert parts == [parts[0]];
    }
  }

  /** `createTracks`. */
  function CreateTracks(video: Option<VideoConfig>, audio: Option<AudioConfig>): seq<byte>
  {
    WriteElement(IdText(TracksId), TracksPayload(video, audio))
  }

  /** `generateHeader`: EBML header, Info and Tracks, concatenated. */
  function GenerateHeader(video: Option<VideoConfig>, audio: Option<AudioConfig>): seq<byte>
  {
    Flatten([CreateEbmlHeader(), CreateSegmentInfo(), CreateTracks(video, audio)])
  }

  // ---------------------------------------------------------- header shape

  function EbmlHeaderChildren(): seq<Tree>
  {
    [Leaf(DocTypeId, DocTypeBytes), Leaf(DocTypeVersionId, [1]), Leaf(DocTypeReadVersionId, [1])]
  }

  function InfoChildren(): seq<Tree>
  {
    [Leaf(TimecodeScaleId, BigEndian(TimecodeScale, 8)),
     Leaf(MuxingAppId, MuxingAppBytes),
     Leaf(WritingAppId, WritingAppBytes)]
  }

  function VideoChildren(config: VideoConfig): seq<Tree>
  {
    [Leaf(PixelWidthId, BigEndian(config.width, 2)), Leaf(PixelHeightId, BigEndian(config.height, 2))]
  }

  function VideoEntryChildren(config: VideoConfig): seq<Tree>
  {
    [Leaf(TrackNumberId, [1]), Leaf(TrackUidId, [1]), Leaf(TrackTypeId, [1]),
     Leaf(CodecIdId, VideoCodecBytes), Node(VideoId, VideoChildren(config))]
  }

  function AudioChildren(config: AudioConfig): seq<Tree>
  {
    [Leaf(SamplingFrequencyId, config.sampleRate), Leaf(ChannelsId, [config.numberOfChannels % 256])]
  }

  function AudioEntryChildren(config: AudioConfig): seq<Tree>
  {
    [Leaf(TrackNumberId, [2]), Leaf(TrackUidId, [2]), Leaf(TrackTypeId, [2]),
     Leaf(CodecIdId, AudioCodecBytes), Node(AudioId, AudioChildren(config))]
  }

  function TracksChildren(video: Option<VideoConfig>, audio: Option<AudioConfig>): seq<Tree>
  {
    (if video.Some? then [Node(TrackEntryId, VideoEntryChildren(video.value))] else [])
    + (if audio.Some? then [Node(TrackEntryId, AudioEntryChildren(audio.value))] else [])
  }

  /** The header as `generateHeader` builds it: the EBML header, then Info,
      then Tracks, and no Segment around them. */
  function HeaderShape(video: Option<VideoConfig>, audio: Option<AudioConfig>): seq<Tree>
  {
    [Node(EbmlId, EbmlHeaderChildren()), Node(InfoId, InfoChildren()),
     Node(TracksId, TracksChildren(video, audio))]
  }

  lemma ReadsTwo(a: seq<byte>, ta: Tree, b: seq<byte>, tb: Tree)
    requires Reads(a, [ta]) && Reads(b, [tb])
    ensures Reads(Flatten([a, b]), [ta, tb])
  {
    FlattenTwo(a, b);
    ReadsAppend(a, [ta], b, [tb]);
  }

  lemma ReadsThree(a: seq<byte>, ta: Tree, b: seq<byte>, tb: Tree, c: seq<byte>, tc: Tree)
    requires Reads(a, [ta]) && Reads(b, [tb]) && Reads(c, [tc])
    ensures Reads(Flatten([a, b, c]), [ta, tb, tc])
  {
    FlattenThree(a, b, c);
    ReadsAppend(a, [ta], b, [tb]);
    ReadsAppend(a + b, [ta, tb], c, [tc]);
  }

  lemma ReadsFive(a: seq<byte>, ta: Tree, b: seq<byte>, tb: Tree, c: seq<byte>, tc: Tree,
                  d: seq<byte>, td: Tree, e: seq<byte>, te: Tree)
    requires Reads(a, [ta]) && Reads(b, [tb]) && Reads(c, [tc]) && Reads(d, [td]) && Reads(e, [te])
    ensures Reads(Flatten([a, b, c, d, e]), [ta, tb, tc, td, te])
  {
    FlattenFive(a, b, c, d, e);
    ReadsAppend(a, [ta], b, [tb]);
    ReadsAppend(a + b, [ta, tb], c, [tc]);
    ReadsAppend(a + b + c, [ta, tb, tc], d, [td]);
    ReadsAppend(a + b + c + d, [ta, tb, tc, td], e, [te]);
  }

  /** The EBML header reads as one element holding DocType "webm",
      DocTypeVersion 1 and DocTypeReadVersion 1. */
  lemma EbmlHeaderReads()
    ensures Reads(CreateEbmlHeader(), [Node(EbmlId, EbmlHeaderChildren())])
  {
    HeaderIdsValid();
    ReadsLeaf(DocTypeId, DocTypeBytes);
    ReadsLeaf(DocTypeVersionId, [1]);
    ReadsLeaf(DocTypeReadVersionId, [1]);
    ReadsThree(WriteElement(IdText(DocTypeId), DocTypeBytes), Leaf(DocTypeId, DocTypeBytes),
               WriteElement(IdText(DocTypeVersionId), [1]), Leaf(DocTypeVersionId, [1]),
               WriteElement(IdText(DocTypeReadVersionId), [1]), Leaf(DocTypeReadVersionId, [1]));
    ReadsNode(EbmlId, EbmlHeaderPayload(), EbmlHeaderChildren());
  }

  /** Info reads as one element holding a TimecodeScale whose eight bytes
      decode to 1000000, then MuxingApp and WritingApp. */
  lemma SegmentInfoReads()
    ensures Reads(CreateSegmentInfo(), [Node(InfoId, InfoChildren())])
    ensures BeValue(InfoChildren()[0].payload) == 1000000
  {
    HeaderIdsValid();
    InfoPayloadReads();
    ReadsNode(InfoId, InfoPayload(), InfoChildren());
    TimecodeScaleValue();
  }

  lemma InfoPayloadReads()
    ensures Reads(InfoPayload(), InfoChildren())
  {
    HeaderIdsValid();
    var cs := InfoChildren();
    var timecodeScale := WriteElement(IdText(TimecodeScaleId), BigEndian(TimecodeScale, 8));
    var muxingApp := WriteElement(IdText(MuxingAppId), MuxingAppBytes);
    var writingApp := WriteElement(IdText(WritingAppId), WritingAppBytes);
    ReadsLeaf(TimecodeScaleId, BigEndian(TimecodeScale, 8));
    ReadsLeaf(MuxingAppId, MuxingAppBytes);
    ReadsLeaf(WritingAppId, WritingAppBytes);
    ReadsThree(timecodeScale, cs[0], muxingApp, cs[1], writingApp, cs[2]);
  }

  lemma TimecodeScaleValue()
    ensures BeValue(BigEndian(TimecodeScale, 8)) == 1000000
  {
    BeValueBigEndian(TimecodeScale, 8);
    PowersOf256();
    assert Pow256(8) == Pow256(4) * 256 * 256 * 256 * 256;
  }

  /** The Video element's payload reads as the two dimensions, each as two
      big-endian bytes. */
  lemma VideoSettingsReads(config: VideoConfig)
    ensures Reads(VideoSettings(config), VideoChildren(config))
  {
    TrackIdsValid();
    ReadsLeaf(PixelWidthId, BigEndian(config.width, 2));
    ReadsLeaf(PixelHeightId, BigEndian(config.height, 2));
    ReadsTwo(WriteElement(IdText(PixelWidthId), BigEndian(config.width, 2)), VideoChildren(config)[0],
             WriteElement(IdText(PixelHeightId), BigEndian(config.height, 2)), VideoChildren(config)[1]);
  }

  /** The video TrackEntry reads as track number 1, UID 1, track type 1,
      codec "V_VP9" and the Video element. */
  lemma VideoEntryReads(config: VideoConfig)
    ensures Reads(VideoEntry(config), [Node(TrackEntryId, VideoEntryChildren(config))])
  {
    TrackIdsValid();
    VideoTrackReads(config);
    ReadsNode(TrackEntryId, CreateVideoTrack(config), VideoEntryChildren(config));
  }

  lemma VideoTrackReads(config: VideoConfig)
    ensures Reads(CreateVideoTrack(config), VideoEntryChildren(config))
  {
    TrackIdsValid();
    VideoSettingsReads(config);
    var cs := VideoEntryChildren(config);
    var trackNumber := WriteElement(IdText(TrackNumberId), [VideoTrackNumber]);
    var trackUid := WriteElement(IdText(TrackUidId), [VideoTrackNumber]);
    var trackType := WriteElement(IdText(TrackTypeId), [1]);
    var codecId := WriteElement(IdText(CodecIdId), VideoCodecBytes);
    var settings := WriteElement(IdText(VideoId), VideoSettings(config));
    TrackFieldsRead(VideoTrackNumber, 1, VideoCodecBytes);
    ReadsNode(VideoId, VideoSettings(config), VideoChildren(config));
    ReadsFive(trackNumber, cs[0], trackUid, cs[1], trackType, cs[2], codecId, cs[3], settings, cs[4]);
  }

  /** The Audio element's payload reads as the sampling frequency bytes and
      the channel count modulo 256. */
  lemma AudioSettingsReads(config: AudioConfig)
    ensures Reads(AudioSettings(config), AudioChildren(config))
  {
    TrackIdsValid();
    ReadsLeaf(SamplingFrequencyId, config.sampleRate);
    ReadsLeaf(ChannelsId, [config.numberOfChannels % 256]);
    ReadsTwo(WriteElement(IdText(SamplingFrequencyId), config.sampleRate), AudioChildren(config)[0],
             WriteElement(IdText(ChannelsId), [config.numberOfChannels % 256]), AudioChildren(config)[1]);
  }

  /** The audio TrackEntry reads as track number 2, UID 2, track type 2,
      codec "A_OPUS" and the Audio element. */
  lemma AudioEntryReads(config: AudioConfig)
    ensures Reads(AudioEntry(config), [Node(TrackEntryId, AudioEntryChildren(config))])
  {
    TrackIdsValid();
    AudioTrackReads(config);
    ReadsNode(TrackEntryId, CreateAudioTrack(config), AudioEntryChildren(config));
  }

  lemma AudioTrackReads(config: AudioConfig)
    ensures Reads(CreateAudioTrack(config), AudioEntryChildren(config))
  {
    TrackIdsValid();
    AudioSettingsReads(config);
    var cs := AudioEntryChildren(config);
    var trackNumber := WriteElement(IdText(TrackNumberId), [AudioTrackNumber]);
    var trackUid := WriteElement(IdText(TrackUidId), [AudioTrackNumber]);
    var trackType := WriteElement(IdText(TrackTypeId), [2]);
    var codecId := WriteElement(IdText(CodecIdId), AudioCodecBytes);
    var settings := WriteElement(IdText(AudioId), AudioSettings(config));
    TrackFieldsRead(AudioTrackNumber, 2, AudioCodecBytes);
    ReadsNode(AudioId, AudioSettings(config), AudioChildren(config));
    ReadsFive(trackNumber, cs[0], trackUid, cs[1], trackType, cs[2], codecId, cs[3], settings, cs[4]);
  }

  /** The four leading fields of a TrackEntry each read as a leaf. */
  lemma TrackFieldsRead(track: byte, kind: byte, codec: seq<byte>)
    requires |codec| < 127
    ensures Reads(WriteElement(IdText(TrackNumberId), [track]), [Leaf(TrackNumberId, [track])])
    ensures Reads(WriteElement(IdText(TrackUidId), [track]), [Leaf(TrackUidId, [track])])
    ensures Reads(WriteElement(IdText(TrackTypeId), [kind]), [Leaf(TrackTypeId, [kind])])
    ensures Reads(WriteElement(IdText(CodecIdId), codec), [Leaf(CodecIdId, codec)])
  {
    TrackIdsValid();
    ReadsLeaf(TrackNumberId, [track]);
    ReadsLeaf(TrackUidId, [track]);
    ReadsLeaf(TrackTypeId, [kind]);
    ReadsLeaf(CodecIdId, codec);
  }

  /** Tracks reads as one element holding one TrackEntry per present
      configuration, video first. */
  lemma TracksReads(video: Option<VideoConfig>, audio: Option<AudioConfig>)
    ensures Reads(CreateTracks(video, audio), [Node(TracksId, TracksChildren(video, audio))])
  {
    TrackIdsValid();
    var vs := if video.Some? then [Node(TrackEntryId, VideoEntryChildren(video.value))] else [];
    var as_ := if audio.Some? then [Node(TrackEntryId, AudioEntryChildren(audio.value))] else [];
    var vb := if video.Some? then [VideoEntry(video.value)] else [];
    var ab := if audio.Some? then [AudioEntry(audio.value)] else [];
    FlattenAtMostOne(vb);
    FlattenAtMostOne(ab);
    if video.Some? {
      VideoEntryReads(video.value);
    } else {
      ReadsIntro([], [], []);
    }
    if audio.Some? {
      AudioEntryReads(audio.value);
    } else {
      ReadsIntro([], [], []);
    }
    FlattenAppend(vb, ab);
    ReadsAppend(Flatten(vb), vs, Flatten(ab), as_);
    ReadsNode(TracksId, TracksPayload(video, audio), TracksChildren(video, audio));
  }

  /** `generateHeader` reads as exactly three elements: the EBML header,
      Info and Tracks. */
  lemma GenerateHeaderReads(video: Option<VideoConfig>, audio: Option<AudioConfig>)
    ensures Reads(GenerateHeader(video, audio), HeaderShape(video, audio))
  {
    EbmlHeaderReads();
    SegmentInfoReads();
    TracksReads(video, audio);
    var shape := HeaderShape(video, audio);
    ReadsThree(CreateEbmlHeader(), shape[0], CreateSegmentInfo(), shape[1],
               CreateTracks(video, audio), shape[2]);
  }

  /** There is no Segment element among the header's top-level elements. */
  lemma HeaderWithoutSegment(video: Option<VideoConfig>, audio: Option<AudioConfig>)
    ensures var es := ParseAll(GenerateHeader(video, audio));
      && es.Some? && |es.value| == 3
      && forall i :: 0 <= i < 3 ==> es.value[i].id != SegmentId
  {
    GenerateHeaderReads(video, audio);
    ReadsElim(GenerateHeader(video, audio), HeaderShape(video, audio));
  }

  // ---------------------------------------------------------------- frames

  /** What the frame methods are handed as `chunk`, as far as
      `createSimpleBlock` can see it: an ArrayBuffer or a Uint8Array, whose
      bytes `new Uint8Array(chunk)` copies, or a WebCodecs
      `EncodedVideoChunk`/`EncodedAudioChunk`, which is neither a buffer nor
      iterable nor array-like, so that the copy is empty and only its
      `byteLength` counts. */
  datatype FrameSource = Buffer(bytes: seq<byte>) | WebCodecsChunk(byteLength: nat)

  /** `chunk.byteLength`. */
  function ByteLength(s: FrameSource): nat
  {
    match s
    case Buffer(b) => |b|
    case WebCodecsChunk(n) => n
  }

  /** The frame bytes that end up in the block: `byteLength` bytes are
      reserved after the block header and `new Uint8Array(chunk)` is copied
      over them, so a buffer's bytes come through as they are and a WebCodecs
      chunk leaves them all zero. */
  function FrameBytes(s: FrameSource): (r: seq<byte>)
    ensures |r| == ByteLength(s)
    ensures s.Buffer? ==> r == s.bytes
    ensures s.WebCodecsChunk? ==> forall i :: 0 <= i < |r| ==> r[i] == 0
  {
    match s
    case Buffer(b) => b
    case WebCodecsChunk(n) => seq(n, _ => 0)
  }

  /** What `addVideoFrame` is handed: the chunk's `type` property (absent
      on a plain buffer) and the chunk itself. */
  datatype EncodedChunk = EncodedChunk(kind: Option<string>, source: FrameSource)

  /** `chunk.type === 'key'`. */
  predicate IsKey(c: EncodedChunk)
  {
    c.kind == Some("key")
  }

  /** The writer's state: the chunks collected so far. */
  datatype Writer = Writer(chunks: seq<seq<byte>>)

  /** The constructor's state. */
  function NewWriter(): Writer
  {
    Writer([])
  }

  /** Frames whose block still fits the writer's size field. */
  predicate FrameFits(data: seq<byte>)
  {
    |data| < 0x7FFF_FFFC
  }

  /** `createCluster`: a Cluster whose only child is a Timecode holding
      `floor(timestamp)` as a big-endian 64-bit unsigned integer. */
  function CreateCluster(timestamp: real): (r: seq<byte>)
    ensures |r| == 15
  {
    WriteElement(IdText(ClusterId), WriteElement(IdText(TimecodeId), BigEndian(timestamp.Floor, 8)))
  }

  /** The `blockData` of `createSimpleBlock`: `0x80 | trackNumber`,
      `floor(timestamp)` as a big-endian 16-bit integer, the flags byte
      and the frame bytes. */
  function BlockData(track: byte, timestamp: real, data: seq<byte>, keyframe: bool): (r: seq<byte>)
    ensures |r| == 4 + |data| && r[4..] == data
  {
    var flags: byte := if keyframe then 0x80 else 0x00;
    var blockHeader := [SetBit(track, 7)] + BigEndian(timestamp.Floor, 2) + [flags];
    blockHeader + data
  }

  /** `createSimpleBlock`. */
  function CreateSimpleBlock(track: byte, timestamp: real, data: seq<byte>, keyframe: bool): seq<byte>
    requires FrameFits(data)
  {
    WriteElement(IdText(SimpleBlockId), BlockData(track, timestamp, data, keyframe))
  }

  /** `addVideoFrame`: appends one chunk, a Cluster followed by a video
      SimpleBlock, and leaves the earlier chunks alone. */
  function AddVideoFrame(w: Writer, chunk: EncodedChunk, timestamp: real): (r: Writer)
    requires FrameFits(FrameBytes(chunk.source))
    ensures |r.chunks| == |w.chunks| + 1 && r.chunks[..|w.chunks|] == w.chunks
  {
    var cluster := CreateCluster(timestamp);
    var simpleBlock := CreateSimpleBlock(VideoTrackNumber, timestamp, FrameBytes(chunk.source), IsKey(chunk));
    Writer(w.chunks + [Flatten([cluster, simpleBlock])])
  }

  /** `addAudioFrame`: appends one chunk, an audio SimpleBlock, and leaves
      the earlier chunks alone. */
  function AddAudioFrame(w: Writer, chunk: FrameSource, timestamp: real): (r: Writer)
    requires FrameFits(FrameBytes(chunk))
    ensures |r.chunks| == |w.chunks| + 1 && r.chunks[..|w.chunks|] == w.chunks
  {
    Writer(w.chunks + [CreateSimpleBlock(AudioTrackNumber, timestamp, FrameBytes(chunk), true)])
  }

  /** `finalize`: the collected chunks, concatenated (the header is not
      among them). */
  function Finalize(w: Writer): (r: seq<byte>)
    ensures |r| == TotalLength(w.chunks)
  {
    FlattenLength(w.chunks);
    Flatten(w.chunks)
  }

  /** A block payload reads back as the track, the timestamp as a signed
      16-bit integer, the keyframe flag and the frame bytes. */
  lemma BlockDataReads(track: byte, timestamp: real, data: seq<byte>, keyframe: bool)
    requires track < 0x80
    ensures ParseBlock(BlockData(track, timestamp, data, keyframe))
         == Some(Block(track, Int16(timestamp.Floor), keyframe, data))
  {
    var p := BlockData(track, timestamp, data, keyframe);
    BlockTrackField(track, timestamp, data, keyframe);
    BlockTimecodeField(track, timestamp, data, keyframe);
    SetBitRange(track, 7);
    PowersOfTwo();
    assert p[3] == if keyframe then 0x80 else 0x00;
  }

  lemma BlockTrackField(track: byte, timestamp: real, data: seq<byte>, keyframe: bool)
    requires track < 0x80
    ensures ReadVarInt(BlockData(track, timestamp, data, keyframe), 0) == Some(VarInt(track, 1))
  {
    PowersOfTwo();
    var p := BlockData(track, timestamp, data, keyframe);
    SetBitBelow(track, 7);
    ReadsBack(SetBit(track, 7), track, 1, []);
    assert [track + 0x80] + [] == [track + 0x80];
    ReadVarIntShift([], [track + 0x80], p[1..], 0);
    assert [] + [track + 0x80] + p[1..] == p;
  }

  lemma BlockTimecodeField(track: byte, timestamp: real, data: seq<byte>, keyframe: bool)
    ensures Int16(BeValue(BlockData(track, timestamp, data, keyframe)[1..3])) == Int16(timestamp.Floor)
  {
    var p := BlockData(track, timestamp, data, keyframe);
    assert p[1..3] == BigEndian(timestamp.Floor, 2);
    BeValueBigEndian(timestamp.Floor, 2);
    PowersOf256();
  }

  /** A Cluster reads as one element holding only the Timecode. */
  lemma ClusterReads(timestamp: real)
    ensures Reads(CreateCluster(timestamp), [Node(ClusterId, [Leaf(TimecodeId, BigEndian(timestamp.Floor, 8))])])
  {
    FrameIdsValid();
    var tc := Leaf(TimecodeId, BigEndian(timestamp.Floor, 8));
    ReadsElement(TimecodeId, BigEndian(timestamp.Floor, 8), tc);
    ReadsElement(ClusterId, WriteElement(IdText(TimecodeId), BigEndian(timestamp.Floor, 8)),
                 Node(ClusterId, [tc]));
  }

  /** A SimpleBlock reads as one element whose payload is the block. */
  lemma SimpleBlockReads(track: byte, timestamp: real, data: seq<byte>, keyframe: bool)
    requires track < 0x80 && FrameFits(data) && ReadableSize(4 + |data|)
    ensures Reads(CreateSimpleBlock(track, timestamp, data, keyframe),
                  [BlockLeaf(SimpleBlockId, Block(track, Int16(timestamp.Floor), keyframe, data))])
  {
    FrameIdsValid();
    BlockDataReads(track, timestamp, data, keyframe);
    ReadsElement(SimpleBlockId, BlockData(track, timestamp, data, keyframe),
                 BlockLeaf(SimpleBlockId, Block(track, Int16(timestamp.Floor), keyframe, data)));
  }

  /** One recorded frame, as the encoder hands it to the writer. */
  datatype Frame =
    | VideoFrame(chunk: EncodedChunk, timestamp: real)
    | AudioFrame(source: FrameSource, timestamp: real)

  function FrameData(f: Frame): seq<byte>
  {
    match f
    case VideoFrame(c, _) => FrameBytes(c.source)
    case AudioFrame(d, _) => FrameBytes(d)
  }

  function AddFrame(w: Writer, f: Frame): Writer
    requires FrameFits(FrameData(f))
  {
    match f
    case VideoFrame(c, t) => AddVideoFrame(w, c, t)
    case AudioFrame(d, t) => AddAudioFrame(w, d, t)
  }

  /** The writer after `frames` were added to a fresh one, in order. */
  function Record(frames: seq<Frame>): Writer
    requires forall i :: 0 <= i < |frames| ==> FrameFits(FrameData(frames[i]))
  {
    if frames == [] then NewWriter()
    else AddFrame(Record(frames[..|frames| - 1]), frames[|frames| - 1])
  }

  /** How one frame reads: a video frame as a Cluster holding only the
      Timecode, then a track-1 SimpleBlock that is a keyframe exactly when
      the chunk's type is "key"; an audio frame as a track-2 SimpleBlock
      that is always a keyframe. The frame in the block is `FrameBytes`. */
  function FrameShape(f: Frame): seq<Tree>
  {
    match f
    case VideoFrame(c, t) =>
      [Node(ClusterId, [Leaf(TimecodeId, BigEndian(t.Floor, 8))]),
       BlockLeaf(SimpleBlockId, Block(1, Int16(t.Floor), IsKey(c), FrameBytes(c.source)))]
    case AudioFrame(d, t) =>
      [BlockLeaf(SimpleBlockId, Block(2, Int16(t.Floor), true, FrameBytes(d)))]
  }

  function StreamShape(frames: seq<Frame>): seq<Tree>
  {
    if frames == [] then [] else StreamShape(frames[..|frames| - 1]) + FrameShape(frames[|frames| - 1])
  }

  /** The chunk a frame appends reads as the frame's shape. */
  lemma AddFrameReads(w: Writer, f: Frame)
    requires FrameFits(FrameData(f)) && ReadableSize(4 + |FrameData(f)|)
    ensures var r := AddFrame(w, f);
      && |r.chunks| == |w.chunks| + 1
      && r.chunks[..|w.chunks|] == w.chunks
      && Reads(r.chunks[|w.chunks|], FrameShape(f))
  {
    match f
    case VideoFrame(c, t) =>
      ClusterReads(t);
      SimpleBlockReads(VideoTrackNumber, t, FrameBytes(c.source), IsKey(c));
      ReadsTwo(CreateCluster(t), FrameShape(f)[0],
               CreateSimpleBlock(VideoTrackNumber, t, FrameBytes(c.source), IsKey(c)), FrameShape(f)[1]);
      assert FrameShape(f) == [FrameShape(f)[0], FrameShape(f)[1]];
    case AudioFrame(d, t) =>
      SimpleBlockReads(AudioTrackNumber, t, FrameBytes(d), true);
  }

  /** A WebCodecs chunk handed to `addVideoFrame` yields a block that reads
      back with the chunk's key flag and `byteLength` zero bytes in place of
      the frame. */
  lemma WebCodecsFrameBlank(w: Writer, kind: Option<string>, n: nat, t: real)
    requires FrameFits(seq(n, _ => 0)) && ReadableSize(4 + n)
    ensures var r := AddVideoFrame(w, EncodedChunk(kind, WebCodecsChunk(n)), t);
      Reads(r.chunks[|w.chunks|],
            [Node(ClusterId, [Leaf(TimecodeId, BigEndian(t.Floor, 8))]),
             BlockLeaf(SimpleBlockId, Block(1, Int16(t.Floor), kind == Some("key"), seq(n, _ => 0)))])
  {
    AddFrameReads(w, VideoFrame(EncodedChunk(kind, WebCodecsChunk(n)), t));
  }

  /** `finalize` after recording `frames` reads as the frames' shapes in
      order, and nothing else: no header, no Segment. */
  lemma {:induction false} FinalizeReads(frames: seq<Frame>)
    requires forall i :: 0 <= i < |frames| ==> FrameFits(FrameData(frames[i]))
    requires forall i :: 0 <= i < |frames| ==> ReadableSize(4 + |FrameData(frames[i])|)
    ensures Reads(Finalize(Record(frames)), StreamShape(frames))
    decreases |frames|
  {
    if frames == [] {
      ReadsIntro([], [], []);
    } else {
      var n := |frames| - 1;
      var prefix := frames[..n];
      assert forall i :: 0 <= i < n ==> prefix[i] == frames[i];
      FinalizeReads(prefix);
      var w := Record(prefix);
      var w' := AddFrame(w, frames[n]);
      AddFrameReads(w, frames[n]);
      assert w'.chunks == w.chunks + [w'.chunks[|w.chunks|]];
      FlattenAppend(w.chunks, [w'.chunks[|w.chunks|]]);
      FlattenOne(w'.chunks[|w.chunks|]);
      ReadsAppend(Flatten(w.chunks), StreamShape(prefix), w'.chunks[|w.chunks|], FrameShape(frames[n]));
    }
  }
}
