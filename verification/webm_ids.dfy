/** The Matroska element IDs the writer and the duration patcher use, as
    bytes (section 5 of RFC 9559 lists them). */
module WebmIds {
  import opened Bytes
  import opened VarInt
  import opened EbmlReader

  const EbmlId: seq<byte> := [0x1A, 0x45, 0xDF, 0xA3]
  const DocTypeId: seq<byte> := [0x42, 0x86]
  const DocTypeVersionId: seq<byte> := [0x42, 0xF7]
  const DocTypeReadVersionId: seq<byte> := [0x42, 0xF2]
  const SegmentId: seq<byte> := [0x18, 0x53, 0x80, 0x67]
  const InfoId: seq<byte> := [0x15, 0x49, 0xA9, 0x66]
  const TimecodeScaleId: seq<byte> := [0x2A, 0xD7, 0xB1]
  const MuxingAppId: seq<byte> := [0x4D, 0x80]
  const WritingAppId: seq<byte> := [0x57, 0x41]
  const DurationId: seq<byte> := [0x44, 0x89]
  const TracksId: seq<byte> := [0x16, 0x54, 0xAE, 0x6B]
  const TrackEntryId: seq<byte> := [0xAE]
  const TrackNumberId: seq<byte> := [0xD7]
  const TrackUidId: seq<byte> := [0x73, 0xC5]
  const TrackTypeId: seq<byte> := [0x83]
  const CodecIdId: seq<byte> := [0x86]
  const VideoId: seq<byte> := [0xE0]
  const PixelWidthId: seq<byte> := [0xB0]
  const PixelHeightId: seq<byte> := [0xBA]
  const AudioId: seq<byte> := [0xE1]
  const SamplingFrequencyId: seq<byte> := [0xB5]
  const ChannelsId: seq<byte> := [0x9F]
  const ClusterId: seq<byte> := [0x1F, 0x43, 0xB6, 0x75]
  const TimecodeId: seq<byte> := [0xE7]
  const SimpleBlockId: seq<byte> := [0xA3]

  /** An ID whose first byte lies in [2^(8-w), 2^(9-w)) and whose length is
      `w` is well formed. */
  lemma ValidIdBy(id: seq<byte>, w: nat)
    requires 1 <= w <= 4 && |id| == w && Pow2(8 - w) <= id[0] < Pow2(9 - w)
    ensures ValidId(id)
  {
    MarkerWidthIs(id[0], w);
  }

  /** The IDs of the EBML header and of Segment and Info are well formed. */
  lemma HeaderIdsValid()
    ensures ValidId(EbmlId) && ValidId(DocTypeId) && ValidId(DocTypeVersionId)
    ensures ValidId(DocTypeReadVersionId) && ValidId(SegmentId) && ValidId(InfoId)
    ensures ValidId(TimecodeScaleId) && ValidId(MuxingAppId) && ValidId(WritingAppId)
    ensures ValidId(DurationId)
  {
    PowersOfTwo();
    ValidIdBy(EbmlId, 4);
    ValidIdBy(DocTypeId, 2);
    ValidIdBy(DocTypeVersionId, 2);
    ValidIdBy(DocTypeReadVersionId, 2);
    ValidIdBy(SegmentId, 4);
    ValidIdBy(InfoId, 4);
    ValidIdBy(TimecodeScaleId, 3);
    ValidIdBy(MuxingAppId, 2);
    ValidIdBy(WritingAppId, 2);
    ValidIdBy(DurationId, 2);
  }

  /** The IDs of Tracks and of the track entries are well formed. */
  lemma TrackIdsValid()
    ensures ValidId(TracksId) && ValidId(TrackEntryId)
    ensures ValidId(TrackNumberId) && ValidId(TrackUidId) && ValidId(TrackTypeId)
    ensures ValidId(CodecIdId) && ValidId(VideoId) && ValidId(PixelWidthId)
    ensures ValidId(PixelHeightId) && ValidId(AudioId) && ValidId(SamplingFrequencyId)
    ensures ValidId(ChannelsId)
  {
    PowersOfTwo();
    ValidIdBy(TracksId, 4);
    ValidIdBy(TrackEntryId, 1);
    ValidIdBy(TrackNumberId, 1);
    ValidIdBy(TrackUidId, 2);
    ValidIdBy(TrackTypeId, 1);
    ValidIdBy(CodecIdId, 1);
    ValidIdBy(VideoId, 1);
    ValidIdBy(PixelWidthId, 1);
    ValidIdBy(PixelHeightId, 1);
    ValidIdBy(AudioId, 1);
    ValidIdBy(SamplingFrequencyId, 1);
    ValidIdBy(ChannelsId, 1);
  }

  /** The IDs of Cluster, Timecode and SimpleBlock are well formed. */
  lemma FrameIdsValid()
    ensures ValidId(ClusterId) && ValidId(TimecodeId) && ValidId(SimpleBlockId)
  {
    PowersOfTwo();
    ValidIdBy(ClusterId, 4);
    ValidIdBy(TimecodeId, 1);
    ValidIdBy(SimpleBlockId, 1);
  }
}
