# WebM writing, duration patching and recording helpers

A Dafny model of the byte-level and string-level core of a Chrome screen
recording extension. The core is five JavaScript files:

- webm-writer.js: the `WebMWriter` class. It builds EBML elements (ID bytes,
  a size VINT, then the payload), the EBML header, the Info and Tracks
  elements, and one Cluster/SimpleBlock chunk per encoded frame. `finalize`
  concatenates the chunks.
- webm-duration-fix.js: the `WebMDurationFix` class. It searches a WebM file
  for the Segment and Info IDs, then walks Info's children looking for a
  Duration element. If it finds one, it overwrites the float64 in place.
  Otherwise it splices in an eleven-byte Duration element and rewrites
  Info's size. The file also holds `addDurationToFileName`.
- download-manager.js: how a download is named. This covers the
  extension normalisation of `generateFilename`, the default format, and
  the folder prefix handed to the downloads API.
- recorder.js: `formatDuration`, and the default recording name built from
  an ISO timestamp and the length.
- settings.js: the `Settings` object. It holds defaults, merges loaded
  settings over them, merges saved settings with "autoDownload" forced on,
  and offers `get`, `getAll` and `reset`. Storage is an abstract stored map.

Modules, one per file:

| file | module | contents |
|---|---|---|
| wrappers.dfy | `Wrappers` | `Option`, and `Outcome` (returns, throws or diverges) |
| bytes.dfy | `Bytes` | bytes, big-endian integers (DataView), single-bit OR, concatenation (`combineArrays`) |
| varint.dfy | `VarInt` | `readVarInt` and `encodeVarInt`, with their round trip |
| ebml_writer.dfy | `EbmlWriter` | `writeEBMLId`, `writeEBMLSize`, `writeEBMLElement`, `combineArrays` |
| ebml_reader.dfy | `EbmlReader` | a strict RFC 8794 element reader: the reference that the writer's output is checked against |
| webm_ids.dfy | `WebmIds` | the Matroska element IDs used |
| webm_reader.dfy | `WebmReader` | expected shapes (element trees, SimpleBlock fields) and reading lemmas |
| webm_writer.dfy | `WebmWriter` | the header, the frame chunks, `finalize` |
| duration_fix.dfy | `DurationFix` | `fixDuration` and the searches, walk, overwrite and insert it uses |
| text.dfy | `Text` | decimal text of integers, JavaScript `%`, `endsWith`, `includes`, index search |
| clock_text.dfy | `ClockText` | a reader for "1h2m3s" clock texts: the reference for the duration printers |
| duration_name.dfy | `DurationName` | `addDurationToFileName` |
| recorder.dfy | `Recorder` | `formatDuration`, the timestamp, the recording name |
| download.dfy | `Download` | `generateFilename`, the default format, the download target |
| settings.dfy | `Settings` | the settings state and its operations |

How JavaScript is modelled:

- **Arrays.** A `Uint8Array` is a `seq<byte>`.
- **Typed-array copies.** A `TypedArray.set` that overruns its target is `Throws` (a RangeError).
- **Infinite loops.** A loop that never ends is `Diverges`. This covers `readVarInt` on a zero byte or on a byte past the end.
- **Outside the model.** `Diverges` also stands for the one place where the model stops following the source: a VINT of five to eight bytes whose value is 2^31 or more, which `readVarInt`'s 32-bit shifts wrap to a signed 32-bit integer.
- **Reads past the end.** `data[i]` past the end inside a bitwise operation reads as 0, because `undefined | x` is `x`.
- **Bitwise OR.** Every `|` in the source ORs in a single bit, and is modelled arithmetically by `SetBit`.
- **Floats.** Floating-point values appear only as the four or eight bytes that `setFloat32`/`setFloat64` store.
- **Division and remainder.** `Math.floor(a / b)` with a positive divisor is Dafny's `/`. JavaScript's truncating `%` is `Text.JsRem`.
- **Missing values.** `undefined` is `None`.

The code is modelled as written, quirks included:

- the header holds no Segment;
- the Cluster holds only its Timecode;
- `writeEBMLSize` mis-encodes some ranges;
- the Info walk assumes two-byte IDs;
- the Duration is inserted a fixed sixteen bytes into Info;
- a missing Info makes `fixDuration` call the undefined `insertDuration`.

Two places where the code departs from RFC 9559 (Matroska):

- A Matroska file wraps Info, Tracks and the Clusters in a Segment. `generateHeader` emits no Segment, and `finalize` returns only the frame chunks, without the header.
- An EBML size field of width w reserves the all-ones value. `writeEBMLSize` emits 127 as the one byte 0xFF, which is that reserved value. It emits 128..255 as one byte that reads back 128 too small.

## Model

| member | source | states |
|---|---|---|
| `EbmlWriter.WriteId` | webm-writer.js:18-24 | one byte per character of the ID, each the character code modulo 256, in order |
| `EbmlWriter.WriteIdText` | webm-writer.js:18-24 | the ID literals written as `'\x1A\x45...'` give back exactly the ID bytes they spell |
| `EbmlWriter.MinimalBytes` | webm-writer.js:32-37 | the `while (temp > 0)` loop yields bytes whose big-endian value is the size, and none exactly when the size is 0 |
| `EbmlWriter.MinimalBytesWidth` | webm-writer.js:32-37 | the loop yields k bytes exactly when 256^(k-1) <= size < 256^k |
| `EbmlWriter.WriteSize` | webm-writer.js:26-43 | below 127 the single byte size OR 0x80; otherwise 1 to 4 bytes, as many as the size's minimal big-endian form |
| `EbmlWriter.WriteSizeShape` | webm-writer.js:32-42 | from 127 on: the minimal bytes, with the marker `0x80 >> (len - 1)` or-ed into the first byte, the first byte being the size's top digit |
| `EbmlWriter.MarkedRead` | webm-writer.js:39-40 | a first byte with the width-k marker or-ed in reads back through `readVarInt` as that byte's value exactly when the byte had room below the marker |
| `EbmlWriter.MarkedReadFull` | webm-writer.js:39-40 | when the marker bit is already occupied, the read back is not the written value |
| `EbmlWriter.MarkerAlreadySet` | webm-writer.js:39-40 | if the top set bit is the marker itself, the or-ing changes nothing and the read loses that bit's weight |
| `EbmlWriter.MarkerAboveTop` | webm-writer.js:39-40 | if a bit above the marker is set, the read announces a narrower width |
| `EbmlWriter.TopByteRoom` | webm-writer.js:32-42 | the top byte has room for the marker exactly for 127 and on [256, 0x4000), [0x10000, 0x200000) and [0x1000000, 0x10000000) |
| `EbmlWriter.WriteSizeRoundTrip` | webm-writer.js:26-43 | `writeEBMLSize` then `readVarInt` gives back the size and the width if and only if the size is at most 127 or lies in one of those three ranges |
| `EbmlWriter.WriteSizeByteRange` | webm-writer.js:28-42 | sizes 128..255 are written as the one byte `size`, which reads back as size - 128 |
| `EbmlWriter.WriteSizeUnknownMarker` | webm-writer.js:28-30 | size 127 is written as 0xFF, the all-ones value RFC 8794 section 6.2 reserves for an unknown size |
| `EbmlWriter.WriteElement` | webm-writer.js:45-55 | length is ID + size field + payload; in order, the ID bytes, `writeEBMLSize(data.length)` and the payload verbatim |
| `EbmlWriter.CombineArrays` | webm-writer.js:219-230 | the sum-of-lengths allocation and offset loop produce the in-order concatenation of the arrays |
| `Bytes.FlattenLength` | webm-writer.js:220 | the concatenation is as long as the sum of the lengths `reduce` computes |
| `Bytes.FlattenAppend` | webm-writer.js:219-230 | combining two lists of arrays in turn combines their concatenations |
| `Bytes.BigEndian` | webm-writer.js:86-87 | DataView's big-endian unsigned stores give exactly `width` bytes |
| `Bytes.BeValueBigEndian` | webm-writer.js:126-130 | the stored big-endian bytes decode to the value modulo 256^width (`setUint16` wraps) |
| `Bytes.SetBitRange` | webm-writer.js:208 | 0x80 OR b is at least 0x80 and at least `b` |
| `Bytes.SetBitBelow` | webm-writer.js:29 | or-ing in a bit above every set bit adds it (size OR 0x80 is size + 128 below 128) |
| `Bytes.SetBitAlreadySet` | webm-writer.js:39 | or-ing in a bit that is already the top set bit changes nothing |
| `EbmlReader.ParseElement` | webm-writer.js:45-55 | the reference reader: a parsed element has a valid ID, which is the first bytes of the input, and a payload that lies inside the input after the ID and size field |
| `EbmlReader.ParseSerialized` | webm-writer.js:45-55 | an element written with a readable size parses back as itself, whatever follows it |
| `EbmlReader.ParseSerializedAll` | webm-writer.js:219-230 | a concatenation of written elements parses back as the list of elements |
| `EbmlReader.Size127Unreadable` | webm-writer.js:28-30 | an element with a 127-byte payload carries the reserved size and cannot be read |
| `WebmReader.Int16` | webm-writer.js:209 | `setInt16` keeps the integer modulo 2^16, in [-32768, 32768), and unchanged when it already fits |
| `WebmReader.ParseBlock` | webm-writer.js:204-217 | a parsed SimpleBlock's frame is the last bytes of the payload, after at least four header bytes |
| `WebmReader.ReadsAppend` | webm-writer.js:219-230 | concatenated element streams read as the concatenated shapes |
| `WebmReader.ReadsFlatten` | webm-writer.js:219-230 | `combineArrays` of streams that each read as expected reads as the concatenation of the shapes |
| `WebmIds.HeaderIdsValid` | webm-writer.js:77-98 | the header's IDs (EBML, DocType, versions, Info, TimecodeScale, MuxingApp, WritingApp) and Segment and Duration are well-formed EBML IDs |
| `WebmIds.TrackIdsValid` | webm-writer.js:107-168 | the Tracks, TrackEntry and track-field IDs are well formed |
| `WebmIds.FrameIdsValid` | webm-writer.js:199-216 | the Cluster, Timecode and SimpleBlock IDs are well formed |
| `WebmWriter.Ascii` | webm-writer.js:72 | `TextEncoder` spends one byte per ASCII character |
| `WebmWriter.EbmlHeaderReads` | webm-writer.js:71-83 | the EBML header reads as one element holding DocType "webm", DocTypeVersion 1 and DocTypeReadVersion 1 |
| `WebmWriter.SegmentInfoReads` | webm-writer.js:85-99 | Info reads as one element holding an 8-byte TimecodeScale that decodes to 1000000, then MuxingApp and WritingApp |
| `WebmWriter.VideoEntryReads` | webm-writer.js:119-144 | the video TrackEntry reads as track number 1, UID 1, type 1, codec "V_VP9" and a Video element with the two-byte width and height |
| `WebmWriter.AudioEntryReads` | webm-writer.js:146-170 | the audio TrackEntry reads as track number 2, UID 2, type 2, codec "A_OPUS" and an Audio element with the float32 rate and the channel count modulo 256 |
| `WebmWriter.TracksPayload` | webm-writer.js:101-117 | one TrackEntry per present configuration: 29 bytes for video, 31 for audio |
| `WebmWriter.TracksReads` | webm-writer.js:101-117 | Tracks reads as one element holding one TrackEntry per present configuration, video first |
| `WebmWriter.GenerateHeaderReads` | webm-writer.js:57-69 | the header reads as exactly three elements: the EBML header, Info and Tracks, in that order |
| `WebmWriter.HeaderWithoutSegment` | webm-writer.js:57-69 | the header's three top-level elements include no Segment |
| `WebmWriter.CreateCluster` | webm-writer.js:195-202 | a Cluster is 15 bytes: its header and one Timecode element |
| `WebmWriter.ClusterReads` | webm-writer.js:195-202 | a Cluster reads as one element whose only child is the Timecode holding floor(timestamp) as 8 big-endian bytes |
| `WebmWriter.BlockData` | webm-writer.js:204-214 | the block payload is four header bytes followed by the frame verbatim |
| `WebmWriter.BlockDataReads` | webm-writer.js:204-214 | the block payload reads back as the track, floor(timestamp) modulo 2^16 as a signed integer, the keyframe flag and the frame |
| `WebmWriter.BlockTrackField` | webm-writer.js:208 | the byte 0x80 OR track reads as a one-byte VINT holding the track |
| `WebmWriter.BlockTimecodeField` | webm-writer.js:209 | bytes 1..2 hold floor(timestamp) as a big-endian 16-bit integer |
| `WebmWriter.SimpleBlockReads` | webm-writer.js:204-217 | a SimpleBlock reads as one element whose payload is that block |
| `WebmWriter.FrameBytes` | webm-writer.js:212-214 | the frame bytes in the block are `byteLength` long: a buffer's own bytes, or all zero for a WebCodecs chunk, which `new Uint8Array` copies as empty |
| `WebmWriter.AddVideoFrame` | webm-writer.js:172-182 | exactly one chunk is appended, and the earlier chunks are unchanged |
| `WebmWriter.AddAudioFrame` | webm-writer.js:184-193 | exactly one chunk is appended, and the earlier chunks are unchanged |
| `WebmWriter.AddFrameReads` | webm-writer.js:172-193 | the appended chunk reads as a Cluster holding only the Timecode, then a track-1 SimpleBlock that is a keyframe exactly when the type is "key" (video); or as a track-2 SimpleBlock that is always a keyframe (audio) |
| `WebmWriter.WebCodecsFrameBlank` | webm-writer.js:172-215 | a WebCodecs chunk given to `addVideoFrame` yields a Cluster and a block that reads back with the chunk's key flag and `byteLength` zero bytes as the frame |
| `WebmWriter.Finalize` | webm-writer.js:232-236 | the output is as long as all collected chunks together |
| `WebmWriter.FinalizeReads` | webm-writer.js:172-236 | after any sequence of frames, `finalize` reads as the frames' shapes in order and nothing else: no header and no Segment |
| `VarInt.MarkerWidth` | webm-duration-fix.js:171-178 | the width a nonzero first byte announces is the w with 2^(8-w) <= byte < 2^(9-w) |
| `VarInt.MarkerWidthLoop` | webm-duration-fix.js:172-178 | the mask-shifting loop stops at that width |
| `VarInt.ReadVarInt` | webm-duration-fix.js:167-186 | a result exactly when the byte at the offset exists, is nonzero, and either announces at most four bytes or the value is below 2^31; a first byte of at least 0x10 always gives one, of width at most 4; the width is the marker width (1 to 8), and the value is below 2^31 and has at most 7·width bits up to width 4 |
| `VarInt.ReadWideSize` | webm-duration-fix.js:167-186 | the eight-byte size `01 00 00 00 00 00 00 0B` reads as 11 with width 8 |
| `VarInt.ReadWrapsOutside` | webm-duration-fix.js:180-183 | the five-byte VINT `08 80 00 00 00`, worth 2^31, is where the shifts wrap: no value in the model |
| `VarInt.ReadsBack` | webm-duration-fix.js:167-186 | a marker byte over a top digit, then w - 1 bytes, reads as the big-endian value and width w, for every width up to 4 and for widths 5 to 8 when the value is below 2^31 |
| `VarInt.ReadVarIntShift` | webm-duration-fix.js:167-186 | `readVarInt` looks only at its own bytes, so surrounding bytes do not change its result |
| `VarInt.ReadVarIntBounds` | webm-duration-fix.js:167-186 | every value `readVarInt` returns is below 2^31, and below 2^28 when it is at most four bytes wide |
| `VarInt.EncodeVarInt` | webm-duration-fix.js:191-213 | widths 1, 2, 3 and 4 below 0x7F, 0x3FFF, 0x1FFFFF and above, for every value |
| `VarInt.EncodeVarIntRoundTrip` | webm-duration-fix.js:167-213 | for every value below 2^28, `readVarInt(encodeVarInt(v), 0)` gives v and the encoded length |
| `VarInt.EncodeVarIntOverflow` | webm-duration-fix.js:205-211 | at 2^28 the value's top bit lands on the marker, and the encoding reads back as 0 |
| `DurationFix.CompareBytes` | webm-duration-fix.js:155-162 | true exactly when the pattern is empty or occurs in full at the offset |
| `DurationFix.Scan` | webm-duration-fix.js:53-58 | the least position in [from, end) where the pattern matches, or -1 exactly when there is none |
| `DurationFix.FindSegment` | webm-duration-fix.js:51-59 | the least i < length - 4 holding the Segment ID, or -1 when there is none |
| `DurationFix.SegmentAtEndMissed` | webm-duration-fix.js:53 | a Segment ID in the last four bytes is not found |
| `DurationFix.FindSegmentInfo` | webm-duration-fix.js:64-72 | the least i in [start, min(start + 5000, length - 4)) holding the Info ID, or -1 |
| `DurationFix.Walk` | webm-duration-fix.js:85-106 | the walk never throws; where it stops on a Duration ID, that ID lies in the walked range |
| `DurationFix.WalkStep` | webm-duration-fix.js:103-105 | a non-Duration child is skipped by 2 + size-field width + size bytes |
| `DurationFix.NextChild` | webm-duration-fix.js:104-105 | each step moves strictly forward, so the walk ends |
| `DurationFix.SetAt` | webm-duration-fix.js:96-98 | `set` succeeds exactly when the source fits at the offset; it keeps the length and replaces just that window |
| `DurationFix.OverwriteDuration` | webm-duration-fix.js:86-100 | same length; the eight bytes after the size byte are the float64; every other byte is unchanged, the size byte included; RangeError when those bytes overrun |
| `DurationFix.DurationElement` | webm-duration-fix.js:117-124 | eleven bytes: the Duration ID, size byte 0x88 and the float64 |
| `DurationFix.InsertDurationInInfo` | webm-duration-fix.js:115-150 | the result is eleven bytes longer; it diverges exactly when Info's size cannot be read |
| `DurationFix.SpliceLayout` | webm-duration-fix.js:132-147 | the five copies succeed exactly when the new size field is no wider than the old, and then give: prefix, new size, sixteen payload bytes, Duration element, rest, zero padding |
| `DurationFix.InsertLayout` | webm-duration-fix.js:115-150 | that layout, for the Info size `readVarInt` finds, re-encoded plus eleven |
| `DurationFix.InsertSameWidth` | webm-duration-fix.js:115-150 | when the width stays: length + 11, the prefix unchanged, the size field decoding to old + 11, sixteen payload bytes kept, `44 89 88` plus the float, the tail shifted by eleven |
| `DurationFix.InsertWidthGrows` | webm-duration-fix.js:136-147 | when the new size needs a wider field, the last copy overruns and throws |
| `DurationFix.OneByteSizesThatGrow` | webm-duration-fix.js:129-136 | Info sizes 116..126 grow from a one-byte to a two-byte field |
| `DurationFix.UpdateDuration` | webm-duration-fix.js:77-110 | the result keeps the length or adds eleven bytes |
| `DurationFix.UpdateOverwrites` | webm-duration-fix.js:85-100 | when the walk finds a Duration ID, `updateDuration` is the in-place overwrite there |
| `DurationFix.UpdateInserts` | webm-duration-fix.js:85-109 | when the walk passes the end of Info, `updateDuration` is `insertDurationInInfo` |
| `DurationFix.FixDuration` | webm-duration-fix.js:20-46 | it never throws; without a Segment, or without an Info (the undefined `insertDuration` throws and is caught), the input comes back; otherwise the length is kept or grows by eleven |
| `DurationFix.FixDurationFound` | webm-duration-fix.js:34-45 | with both IDs found, the outcome of `updateDuration`, with a thrown error replaced by the input |
| `DurationFix.FixDurationOverwrites` | webm-duration-fix.js:20-46 | with a Duration found at p, the input with bytes p+3..p+10 replaced by the float64, or the input itself when they overrun |
| `DurationFix.WideSizesOverwritten` | webm-duration-fix.js:20-100 | a file whose Info size is the eight-byte VINT 11 has the Duration found at offset 24 overwritten in place, the rest kept |
| `DurationFix.FixDurationInserts` | webm-duration-fix.js:20-46 | with no Duration in Info, the spliced layout when the size field keeps its width, and the input when it grows |
| `DurationFix.OverwrittenIsFixed` | webm-duration-fix.js:20-100 | a file whose Duration was just overwritten is returned unchanged by a second patch with the same duration |
| `DurationFix.FixDurationIdempotent` | webm-duration-fix.js:20-100 | on the overwrite path, patching twice with the same duration is patching once |
| `DurationFix.FoundAgree` | webm-duration-fix.js:51-105 | everything the patcher reads on the way to a Duration ID at p lies before p + 3 |
| `DurationName.StripWebm` | webm-duration-fix.js:230 | one trailing ".webm" is removed, and a name without one is kept |
| `DurationName.TimeText` | webm-duration-fix.js:219-227 | the clock text is non-empty and ends with "s" |
| `DurationName.TimeTextRoundTrip` | webm-duration-fix.js:219-227 | the clock text reads back as floor(ms / 1000) for every duration, with hours, minutes and seconds recombined |
| `DurationName.AddDurationToFileName` | webm-duration-fix.js:218-232 | the name without ".webm", then "_", then a clock text that reads back as the whole seconds of the recording, then ".webm" |
| `DurationName.AddDurationRoundTrip` | webm-duration-fix.js:218-232 | the result splits back at its last underscore into the base name and the whole seconds of the recording |
| `Recorder.Split` | recorder.js:177-180 | for ms >= 0: seconds in [0, 60), minutes·60 + seconds = floor(ms / 1000), and minutes 0 exactly below 60000 ms |
| `Recorder.FormatDuration` | recorder.js:177-182 | the text ends with "s" |
| `Recorder.FormatDurationRoundTrip` | recorder.js:177-182 | for ms >= 0, the text reads back as floor(ms / 1000) seconds |
| `Recorder.FormatDurationNegative` | recorder.js:178-181 | -1 ms prints as "-1m-1s", which no clock text reading accepts |
| `Recorder.ReplaceSeparators` | recorder.js:172 | same length, every colon and dot turned into a dash, and nothing else changed |
| `Recorder.Timestamp` | recorder.js:172 | the separators replaced and the last five characters cut; a shorter text becomes empty |
| `Recorder.TimestampOfIso` | recorder.js:171-172 | of a `toISOString` text, the timestamp is the date and time to the second, with the colons turned into dashes |
| `Recorder.GenerateFilename` | recorder.js:170-175 | the name starts with "screen-recording_" and ends with ".webm" |
| `Recorder.GenerateFilenameRoundTrip` | recorder.js:170-182 | the name splits back into the timestamp and the recording's whole seconds |
| `Download.DefaultFormat` | download-manager.js:9 | "mp4" exactly when the blob type contains "mp4", else "webm" |
| `Download.ExtensionIsLastDot` | download-manager.js:94 | a match of `/\.[^/.]+$/` starts at the last dot, with a non-empty extension holding no slash |
| `Download.ExtensionAtUnique` | download-manager.js:94 | the regex matches at most one position |
| `Download.StripExtension` | download-manager.js:94 | when the regex matches, exactly the match is cut; otherwise the name is unchanged |
| `Download.GenerateFilename` | download-manager.js:89-97 | the result ends with "." + format; a name already ending with it is kept; any other name loses its extension, if it has one, and gets ".format" |
| `Download.GenerateFilenameIdempotent` | download-manager.js:89-97 | naming a download twice with the same format names it once |
| `Download.FolderDotIsNoExtension` | download-manager.js:94 | a dot before the last slash starts no extension: "a.b/c" becomes "a.b/c.mp4" |
| `Download.WebmNameAsMp4` | download-manager.js:89-97 | "rec.webm" saved as mp4 becomes "rec.mp4" |
| `Download.DownloadTarget` | download-manager.js:22 | the folder, "/" and the name when the folder is truthy, otherwise the bare name |
| `Download.DownloadTargetName` | download-manager.js:22 | for a name without a slash, the last slash of the target is the one after the folder, so the folder never changes the file name |
| `Download.DownloadFilename` | download-manager.js:6-22 | with a truthy folder (the option, or the stored setting when the option is absent), the target is the folder, "/" and `generateFilename(filename, format)`; otherwise it is that name alone; an absent format falls back to the blob type's, and the target ends with the chosen format's extension |
| `Settings.Init` | settings.js:2-16 | the settings in memory are a copy of the defaults; storage is untouched |
| `Settings.Spread` | settings.js:22 | the keys of both objects, each value from the second object where it has the key |
| `Settings.Load` | settings.js:18-28 | with stored settings and a successful read, the stored keys override the defaults and the other defaults are kept; otherwise nothing changes; the result is the settings in memory |
| `Settings.Save` | settings.js:30-43 | "autoDownload" ends true; every other key of the input takes its value, and keys absent from the input keep theirs; memory changes even when the write fails; resolves to whether the write succeeded |
| `Settings.Get` | settings.js:45-47 | the value in memory, or `undefined` exactly when the key is absent |
| `Settings.GetAll` | settings.js:49-51 | a copy with the same keys, each agreeing with `get` |
| `Settings.Reset` | settings.js:53-56 | memory ends as the defaults; storage holds the defaults when the write succeeds |
| `Settings.SaveGood` | settings.js:30-43 | saving keeps every default key present and "autoDownload" on, in memory and in storage |
| `Settings.LoadGood` | settings.js:18-28 | loading keeps that invariant |
| `Settings.ResetGood` | settings.js:53-56 | resetting keeps that invariant |
| `Settings.SaveThenLoad` | settings.js:18-43 | what a successful save writes, a later load reads back unchanged |
| `Settings.FailedSaveChangesMemory` | settings.js:33-41 | a failed save changes memory exactly as a successful one does, and leaves storage alone |
| `Text.JsRem` | webm-duration-fix.js:224-226 | JavaScript's `%`: the sign of the dividend, magnitude below the divisor, congruent to it |
| `Text.IntTextRoundTrip` | recorder.js:181 | the decimal text of a template literal `${n}` reads back as n |
| `Text.Contains` | download-manager.js:9 | `includes` is true exactly when the text occurs somewhere |
| `Text.LastIndex` | download-manager.js:94 | the last position of a character, or none exactly when it does not occur |

## Left out

- I/O and browser APIs are not modelled: `Blob`, `arrayBuffer`, `URL.createObjectURL`, `chrome.downloads`, `chrome.storage` and the console. Byte buffers are sequences, storage is an abstract stored map, and the outcome of each storage call is a boolean parameter.
- `async`/`await` and promise resolution are not modelled. The Settings operations are pure functions returning the new state and the resolved value.
- The download polling loop (`checkDownload`), `openDownloadFolder` and `setDownloadPath` are not modelled. They are timers and browser calls with no data logic.
- Float encoding is not modelled. `setFloat64` (Duration) and `setFloat32` (sample rate) appear only as the eight or four bytes they store. The duration is those bytes, not a number of milliseconds.
- The current time is not modelled. recorder.js's `new Date().toISOString()` is a parameter; `TimestampOfIso` covers four-digit years only.
- VarInt.ReadVarInt: a VINT of five to eight bytes (first byte 0x01..0x0F) whose value is 2^31 or more gives no value. The source's `(value << 8)` then wraps to a signed 32-bit integer, and the model stops there.
- DurationFix.FixDuration: when Info's size field, or the size field of a child the walk steps over, is such a wrapped VINT, the model gives `Diverges`, meaning outside the model. The source carries on with the wrapped size. For Info's size it returns. For a child's size it may return a patched file, or step to a negative offset, where `compareBytes` sees `undefined` and `readVarInt` loops forever.
- EbmlWriter.WriteSize: it requires sizes below 2^31, because `temp >>= 8` is a 32-bit signed shift.
- EbmlWriter.WriteElement: it requires payloads below 2^31 bytes, since it passes the payload length to `WriteSize`.
- WebmWriter.AddVideoFrame: it requires frames below 2^31 - 4 bytes (`FrameFits`), so that the block's size field stays in `WriteSize`'s range. Its argument is an ArrayBuffer or Uint8Array, with an optional `type`, or a WebCodecs chunk. Other typed arrays (a `Float32Array`, say) are not modelled: `new Uint8Array` converts them element by element, and the copy's length differs from `byteLength`.
- WebmWriter.AddAudioFrame: it requires frames below 2^31 - 4 bytes, for the same reason. Its argument is likewise an ArrayBuffer, a Uint8Array or a WebCodecs chunk.
- WebmWriter.FinalizeReads: it holds only for frames whose block sizes the reader can read back (`ReadableSize`). Other sizes are mis-encoded by `writeEBMLSize`, as `WriteSizeRoundTrip` states.
- DurationFix.InsertSameWidth: the layout of `insertDurationInInfo` is stated only when the buffer holds at least sixteen bytes after Info's size field, whatever Info's own size says. With fewer, the source's copies throw or pad, and the outcome is covered only by `InsertDurationInInfo`'s length contract. It also requires Info's size plus eleven to be below 2^28, where `encodeVarInt` reads back; `EncodeVarIntOverflow` shows what happens at 2^28.
- The `Blob` type (`video/webm`) is not modelled. The outputs of `finalize` and of the patcher are the bytes alone.
- The `WebMDurationFix` constructor's `clusters`, `CLUSTER_ID` and `TIMECODE_ID` are never read by the modelled code and are not modelled.
- Timestamps are real numbers floored with `Math.floor`. The NaN and infinity cases of `BigInt(Math.floor(t))`, which throw in the source, are not modelled.
