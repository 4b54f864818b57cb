# Verification of the PS5 port's core logic

A Dafny model of the parts of the port that carry state or parse bytes, with proofs of what they are
for. `dafny verify dfyconfig.toml` checks every file.

## What is modelled

**Hardware video decoding.** `FramePool` is the machine of the zero-copy frame pool: each section under
a lock, each call into the hardware and each hand-over of a picture is one step, and other threads give
pictures back between any two of them. `VideoDec2` is the wrapper class, proved to make only steps of
that machine. `Replay` holds the recorded start of a stream and what a switch to software does with it;
`AccessUnits` the checks, the rewriting and the queue a unit goes through; `Timestamps` the pending set of
timestamps; `PictureQueue` the pictures waiting to be taken, with their buffers and timestamps; `CodecState`
what decoding keeps of the codec's counters, and the account of the packets the decoder was fed. `HwCodec` is
the codec class with the packet path, the recovery and the seek. `HwCodec.EveryRun` puts the guarantees
together for any sequence of requests.

The hardware is an environment that may accept a frame or not, return any frame it holds or none, and
fail whenever it likes. It returns only frames it accepted and still has. A flush that fails keeps no
frame: the code leaves such a frame unmarked, and `FramePool.FailedFlush` shows that this is right exactly
under that condition. A reset makes the hardware drop every frame. The software decoder is an environment
that accepts a packet or asks for a picture to be taken first; a bitstream filter is any function from what it
was given since it was built, and a packet, to a list of access units.

**NAL units.** `AnnexB`, `LengthPrefixed`, `ParameterSets`, `ExpGolomb` and `Cleaner` are the byte
formats: splitter and writer of start codes (section B.1 of H.264, B.2 of H.265), 4-byte lengths (section
5.3.3.1 of ISO/IEC 14496-15), avcC and hvcC records (sections 5.3.3.1 and 8.3.3.1 there), emulation
prevention (section 7.4.1 of H.264), Exp-Golomb codes (section 9.1 of H.264) and the cleaned bitstream.

**C library.** `Calendar` has the day arithmetic with `gmtime_r` and `timegm` on ideal integers, the year
cut to 32 bits as the struct field cuts it; `SearchTree` the linked tree of `tsearch`, on a heap of nodes;
`Fnmatch` the matcher for the flags NOESCAPE and PATHNAME; `Paths` `realpath`, `getcwd` and the mirrored
`chdir`.

**Add-on loader, audio, controller.** `GnuHash`, `Relocation`, `Words` and `ElfLoader` load an ELF64
object from a byte string into a reservation; `AudioSink` assembles blocks; `PadInput` turns polls into key
events.

Methods that change state are classes or array algorithms as in the source and are proved against functions
on values; the lemmas are about those functions.

## Results that differ from what one would expect

- Replay exactness. After a switch to software, packets without data are not filtered out any more, so the
  software decoder may be handed one. The packets it has or still gets are the non-empty ones acknowledged
  exactly when no packet without data was acknowledged after the switch (`Replay.ReplayIsExact`;
  `HwCodec.HwCodec.AddToSoftware` says so of accepting one, and `Replay.EmptyPacketIsExtra` is an instance of
  the state). `log.exact` is set by the switch: no picture was
  taken yet and the record of the stream had not overflowed. A seek in software mode sets it again: what was
  taken before it is not wanted any more.
- Lost frames. A call that fails while the hardware returns a frame leaves that frame the decoder's, with nobody
  holding it, until the next reset (`FramePool.DecoderFrames`, `FramePool.FirstLost`, `FramePool.ResetRecovers`).
- Frame ownership after a switch. `SwitchToSoftware` closes the decoder, which frees every frame. Before the
  first picture none is live, as the code says there (line 1190). When a stream is given up after pictures were
  shown, live ones may be left with a frame that counts as free: ownership then holds exactly when no picture is
  live (`FramePool.CloseOwned`), and `FramePool.ClosedWhileShown` is a run where it does not.
- Exp-Golomb codes. The reader stops at a 32nd zero and reads on, so it accepts bits that no code starts with
  (`ExpGolomb.ReadCodeIsUnique`, `ExpGolomb.ThirtyTwoZeros`).
- Length-prefixed input. Rewriting with start codes keeps the NAL list exactly when no unit contains a start
  code (`LengthPrefixed.ConversionKeepsNals`), parameter sets survive exactly when they are non-empty and
  free of start codes (`ParameterSets.AvcRoundTrip`, `ParameterSets.HevcRoundTrip`).
- Calendar. `timegm` undoes `gmtime_r` exactly for the seconds whose year fits the 32-bit field
  (`Calendar.GmtimeThenTimegm`, `Calendar.YearFits` gives the interval).
- A symbol table with no chain needs symoffset to be at least 1: bucket value 0 means an empty bucket, and
  `GnuHash.WellFormed` says so.

## Model

| member | source | states |
|---|---|---|
| AnnexB.SplitAnnexB | overlay/xbmc/platform/ps5/video/DVDVideoCodecPS5.cpp:1213-1238 | the scanning loop returns the non-empty payloads between start codes, 3 or 4 bytes long, of any byte string |
| AnnexB.SplitJoin | overlay/xbmc/platform/ps5/video/DVDVideoCodecPS5.cpp:1213-1238 | payloads written behind 4-byte start codes are split again into the same list if and only if each is non-empty and has no 00 00 01 inside; trailing zeros are allowed |
| AnnexB.SplitIsWellFormed | overlay/xbmc/platform/ps5/video/DVDVideoCodecPS5.cpp:1213-1238 | no payload split from any input is empty or has a start code inside |
| AnnexB.JoinConcat | overlay/xbmc/platform/ps5/video/DVDVideoCodecPS5.cpp:1467-1474 | writing two lists one after the other is writing their concatenation |
| LengthPrefixed.SplitLengthPrefixed | overlay/xbmc/platform/ps5/video/DVDVideoCodecPS5.cpp:1242-1259 | the units when the 4-byte sizes use up the whole buffer and no unit is empty or has its first bit set, and otherwise none |
| LengthPrefixed.DecodeIsInverse | overlay/xbmc/platform/ps5/video/DVDVideoCodecPS5.cpp:1242-1259 | an input is read as a list of units if and only if the units are readable and the input is their encoding, so what is accepted re-encodes to itself |
| LengthPrefixed.UnitLayout | overlay/xbmc/platform/ps5/video/DVDVideoCodecPS5.cpp:1242-1259 | a unit is its length in four octets, the most significant first, then its octets, the first of them below 128 |
| LengthPrefixed.ToAnnexB | overlay/xbmc/platform/ps5/video/DVDVideoCodecPS5.cpp:1459-1476 | converts exactly the non-empty inputs that parse, to the start-code form of their units |
| LengthPrefixed.ConversionKeepsNals | overlay/xbmc/platform/ps5/video/DVDVideoCodecPS5.cpp:1459-1476 | splitting the converted bytes gives back the units if and only if none contains a start code |
| ParameterSets.BuildParameterSets | overlay/xbmc/platform/ps5/video/DVDVideoCodecPS5.cpp:257-331 | for any extradata and codec: nothing when it is short, no record and no start code, or of VP9; the extradata itself when it starts with two zeros; the sets that could be read of a record, with every read inside the extradata |
| ParameterSets.AddEntries | overlay/xbmc/platform/ps5/video/DVDVideoCodecPS5.cpp:286-306 | one list of entries is added up to the first that does not fit, and parsing goes on only if none was cut |
| ParameterSets.AddArrays | overlay/xbmc/platform/ps5/video/DVDVideoCodecPS5.cpp:314-329 | the hvcC arrays one after the other |
| ParameterSets.AvcRoundTrip | overlay/xbmc/platform/ps5/video/DVDVideoCodecPS5.cpp:278-307 | splitting what is built from an avcC record gives back its SPS and PPS in order, if and only if all are non-empty and free of start codes |
| ParameterSets.HevcRoundTrip | overlay/xbmc/platform/ps5/video/DVDVideoCodecPS5.cpp:308-330 | the same for an hvcC record with any number of arrays |
| ParameterSets.AvcCut | overlay/xbmc/platform/ps5/video/DVDVideoCodecPS5.cpp:278-296 | of an avcC record that ends within its SPS list exactly the whole entries are used |
| ParameterSets.AvcCutLater | overlay/xbmc/platform/ps5/video/DVDVideoCodecPS5.cpp:278-307 | of one that ends within its PPS list all SPS and the whole PPS are |
| ParameterSets.HevcCut | overlay/xbmc/platform/ps5/video/DVDVideoCodecPS5.cpp:308-330 | of an hvcC record that ends within an array, or within its header, all whole entries up to there are used |
| ExpGolomb.RbspHead | overlay/xbmc/platform/ps5/video/DVDVideoCodecPS5.cpp:1262-1277 | the first `limit` bytes of the unescaped payload |
| ExpGolomb.UnescapeEscape | overlay/xbmc/platform/ps5/video/DVDVideoCodecPS5.cpp:1262-1277 | removing emulation prevention undoes inserting it, for every byte string |
| ExpGolomb.HeadOfEscaped | overlay/xbmc/platform/ps5/video/DVDVideoCodecPS5.cpp:1262-1277 | the head of an escaped byte string behind any header is the first `limit` bytes of the original |
| ExpGolomb.Bits.Read | overlay/xbmc/platform/ps5/video/DVDVideoCodecPS5.cpp:1284-1297 | the next bits as a number, most significant first; past the end the reader is marked bad |
| ExpGolomb.Bits.Ue | overlay/xbmc/platform/ps5/video/DVDVideoCodecPS5.cpp:1298-1304 | one number, below 2^32 without any wrap |
| ExpGolomb.UeReadsCode | overlay/xbmc/platform/ps5/video/DVDVideoCodecPS5.cpp:1298-1304 | the ue(v) code of every k from 0 to 2^32 - 2 is read as k, and the cursor ends just past it |
| ExpGolomb.ReadCodeIsUnique | overlay/xbmc/platform/ps5/video/DVDVideoCodecPS5.cpp:1282-1304 | for every successful read: the code of the number read stood there if and only if there is a one among the first 32 bits |
| ExpGolomb.ThirtyTwoZeros | overlay/xbmc/platform/ps5/video/DVDVideoCodecPS5.cpp:1298-1304 | 32 zeros with 31 more bits behind them are read all the same, as the number that 31 zeros and a one would give |
| ExpGolomb.UeLength | overlay/xbmc/platform/ps5/video/DVDVideoCodecPS5.cpp:1298-1304 | a code takes twice the bits of k + 1, less one, at most 63 |
| Cleaner.CleanAccessUnit | overlay/xbmc/platform/ps5/video/DVDVideoCodecPS5.cpp:1400-1457 | the output has, in order and behind 4-byte start codes, exactly the units of H.265 types 0 to 34, 36 and 37, or H.264 types 1 to 5, 7, 8, 10 and 11, each as often as it occurs; a slice is there if and only if some type is 0 to 31, or 1 to 5; decoding can start if and only if some type is 16 to 23, or 5, or 1 with an intra slice |
| Cleaner.IsIntraSlice | overlay/xbmc/platform/ps5/video/DVDVideoCodecPS5.cpp:1439-1447 | the slice type in the first 48 unescaped bytes is I or SI |
| Cleaner.IntraSliceBySliceType | overlay/xbmc/platform/ps5/video/DVDVideoCodecPS5.cpp:1439-1447 | for every slice header that codes first_mb and slice_type, escaped: I or SI if and only if slice_type mod 5 is 2 or 4 |
| Cleaner.SplitOfClean | overlay/xbmc/platform/ps5/video/DVDVideoCodecPS5.cpp:1400-1457 | the NAL list of the output is that of the input, filtered in order |
| Cleaner.CleanByType | overlay/xbmc/platform/ps5/video/DVDVideoCodecPS5.cpp:1414-1435 | the same of the function that the cleaned bitstream is, for every byte string |
| Cleaner.InsideByType | overlay/xbmc/platform/ps5/video/DVDVideoCodecPS5.cpp:1417-1447 | having a slice, and being a start, by the numbers of the NAL unit types; a start is a slice |
| Cleaner.Survivors | overlay/xbmc/platform/ps5/video/DVDVideoCodecPS5.cpp:1414-1435 | what is kept survives as often as it occurs, and nothing else is there; `CleanByType` says by number what is kept |
| Cleaner.CleanKeepsVerdict | overlay/xbmc/platform/ps5/video/DVDVideoCodecPS5.cpp:1400-1457 | input and output agree on having a slice and on being a start |
| Cleaner.CleanIdempotent | overlay/xbmc/platform/ps5/video/DVDVideoCodecPS5.cpp:1400-1457 | cleaning twice is cleaning once, also for cleaned parameter sets in front of a cleaned unit |
| Cleaner.SlicesBehindSets | overlay/xbmc/platform/ps5/video/DVDVideoCodecPS5.cpp:614-622 | a unit with a slice still has one behind cleaned parameter sets |
| Timestamps.FeedKeepsLargest | overlay/xbmc/platform/ps5/video/DVDVideoCodecPS5.cpp:438-464 | after every feed at most 24 timestamps are pending, in order, and only the smallest were discarded |
| Timestamps.FeedIsLargest | overlay/xbmc/platform/ps5/video/DVDVideoCodecPS5.cpp:438-464 | what is pending after a feed are all of those before and the new one, or the 24 largest of them, in order |
| Timestamps.PendingBounded | overlay/xbmc/platform/ps5/video/DVDVideoCodecPS5.cpp:438-464 | in every run the pending set is in order and at most 24 long |
| Timestamps.PicturesGetTheirTimestamps | overlay/xbmc/platform/ps5/video/DVDVideoCodecPS5.cpp:810-820 | in every run where pictures come out in display order after their units were fed and at most 24 are pending, the k-th picture gets the k-th smallest timestamp |
| FramePool.RunsAreOwned | overlay/xbmc/platform/ps5/video/VideoDec2.cpp:428-505 | after every interleaving of decoding, flushing, resetting, releasing and closing: live pictures are on distinct frames, exactly those in state Kodi, what the hardware holds is the decoder's, and the pool lists its idle buffers once each; after a close this holds if and only if no picture is live |
| FramePool.CloseOwned | overlay/xbmc/platform/ps5/video/VideoDec2.cpp:428-451 | closing, which frees every frame, keeps ownership if and only if no picture is live |
| FramePool.ClosedWhileShown | overlay/xbmc/platform/ps5/video/VideoDec2.cpp:428-451 | a run in which it does not: one picture shown, then the decoder closed |
| FramePool.FirstShown | overlay/xbmc/platform/ps5/video/VideoDec2.cpp:543-613 | runs with a picture shown while another frame is offered exist |
| FramePool.OfferedFrameIsNobodys | overlay/xbmc/platform/ps5/video/VideoDec2.cpp:543-613 | the frame offered to the hardware is free: no live picture is on it and the hardware does not hold it |
| FramePool.OnlyReleaseFrees | overlay/xbmc/platform/ps5/video/VideoDec2.cpp:498-505 | a frame of Kodi's changes only when its own picture is given back or discarded, or by a close |
| FramePool.DecoderFrames | overlay/xbmc/platform/ps5/video/VideoDec2.cpp:601-610 | between calls, after any run, a frame is the decoder's if and only if the hardware has it, or returned it with an error since the last reset |
| FramePool.FirstLost | overlay/xbmc/platform/ps5/video/VideoDec2.cpp:601-610 | a run in which a frame is lost so: the decoder's, with nobody holding it |
| FramePool.ResetRecovers | overlay/xbmc/platform/ps5/video/VideoDec2.cpp:639-649 | a reset takes such frames back: none is the decoder's any more |
| FramePool.FirstFreeFinds | overlay/xbmc/platform/ps5/video/VideoDec2.cpp:463-475 | the ring search misses no free frame |
| FramePool.FailedFlush | overlay/xbmc/platform/ps5/video/VideoDec2.cpp:629-636 | leaving the frame of a failed flush unmarked keeps ownership if and only if the hardware did not keep it |
| VideoDec2.VideoDec2.NextFrameBuffer | overlay/xbmc/platform/ps5/video/VideoDec2.cpp:453-476 | a free frame, or -1 if and only if there is none; no frame changes hands |
| VideoDec2.VideoDec2.HasFreeFrame | overlay/xbmc/platform/ps5/video/VideoDec2.cpp:487-496 | true if and only if some frame is free |
| VideoDec2.VideoDec2.ReleaseFrame | overlay/xbmc/platform/ps5/video/VideoDec2.cpp:498-505 | a frame of Kodi's becomes free, any other and any bad index is left alone |
| VideoDec2.VideoDec2.ToPicture | overlay/xbmc/platform/ps5/video/VideoDec2.cpp:528-533 | a returned frame of ours becomes Kodi's, no other frame changes |
| VideoDec2.VideoDec2.MarkAccepted | overlay/xbmc/platform/ps5/video/VideoDec2.cpp:601-605 | the offered frame becomes the decoder's if it was accepted, no other changes |
| VideoDec2.VideoDec2.Decode | overlay/xbmc/platform/ps5/video/VideoDec2.cpp:543-613 | stalls if and only if no frame was free; otherwise the hardware gets exactly this unit, in one call, and its answer is returned: false if and only if it failed, and the picture it returned, called immediate if and only if it is on the frame just offered; a unit of a bad size fails and reaches nobody |
| VideoDec2.VideoDec2.Flush | overlay/xbmc/platform/ps5/video/VideoDec2.cpp:615-637 | with a frame free the hardware is asked once for a held-back picture and that answer is returned; it is on a frame that was not on show, and no access unit is consumed |
| VideoDec2.VideoDec2.Reset | overlay/xbmc/platform/ps5/video/VideoDec2.cpp:639-649 | every frame is free or still Kodi's, the hardware holds none, and nothing is stalled |
| VideoDec2.VideoDec2.SweepFrames | overlay/xbmc/platform/ps5/video/VideoDec2.cpp:644-647 | exactly the frames in state Decoder become Free |
| VideoDec2.VideoDec2.GetBuffer | overlay/xbmc/platform/ps5/video/VideoBufferPS5.cpp:85-102 | the idle buffer listed last leaves the list, or a new one is made when none is listed; every other buffer and every frame stays |
| VideoDec2.VideoDec2.Wrap | overlay/xbmc/platform/ps5/video/VideoBufferPS5.cpp:44-54 | a buffer that showed nothing shows the picture in hand; the others change only as other threads give pictures back |
| VideoDec2.VideoDec2.GiveFrame | overlay/xbmc/platform/ps5/video/VideoBufferPS5.cpp:56-63 | giving a picture back empties its buffer and frees its frame, and nothing else changes |
| VideoDec2.VideoDec2.GiveBuffer | overlay/xbmc/platform/ps5/video/VideoBufferPS5.cpp:104-111 | and lists the buffer again, last; no frame changes |
| VideoDec2.VideoDec2.Close | overlay/xbmc/platform/ps5/video/VideoDec2.cpp:428-451 | every frame is free, whoever shows it, and pictures can still be given back |
| VideoDec2.VideoDec2.NothingShows | overlay/xbmc/platform/ps5/video/VideoDec2.cpp:428-451 | on a closed decoder frames have the owners they should if and only if no buffer shows one |
| VideoDec2.VideoDec2.Shows | overlay/xbmc/platform/ps5/video/VideoBufferPS5.cpp:44-63 | a buffer that shows a frame of an open decoder shows one of Kodi's, and no other buffer shows it |
| PictureQueue.QueueKept | overlay/xbmc/platform/ps5/video/DVDVideoCodecPS5.cpp:877-882 | a newly wrapped picture joins the queue: buffers are distinct, show their frames and are not handed out |
| PictureQueue.PicturesHanded | overlay/xbmc/platform/ps5/video/DVDVideoCodecPS5.cpp:1124-1139 | a picture taken moves from the queue to those handed out, with its timestamp |
| PictureQueue.NothingQueued | overlay/xbmc/platform/ps5/video/DVDVideoCodecPS5.cpp:1190-1193 | before the first picture is taken, and with none queued, no buffer shows a frame |
| PictureQueue.StampsMore | overlay/xbmc/platform/ps5/video/DVDVideoCodecPS5.cpp:438-464 | the timestamps fed are those of the packets fed, in order |
| PictureQueue.StampsAreTimes | overlay/xbmc/platform/ps5/video/DVDVideoCodecPS5.cpp:440-443 | the timestamps fed are the presentation times of the packets, in order, when every packet has one, whatever its decoding time; the decoding times when none has the other; none when there is neither |
| PictureQueue.PicturesInDisplayOrder | overlay/xbmc/platform/ps5/video/DVDVideoCodecPS5.cpp:810-820 | in every run where pictures come out in display order the timestamps that pictures get are those of their places, a dropped unit taking the place it had |
| Replay.SwitchKeepsPackets | overlay/xbmc/platform/ps5/video/DVDVideoCodecPS5.cpp:1176-1199 | at a switch before the first picture and without overflow the software decoder's queue is exactly the non-empty packets taken |
| Replay.SoftwareTakes | overlay/xbmc/platform/ps5/video/DVDVideoCodecPS5.cpp:392-409 | a packet accepted once the replay is through comes right after everything taken before |
| Replay.ReplayIsExact | overlay/xbmc/platform/ps5/video/DVDVideoCodecPS5.cpp:390-436 | what the software decoder has or still gets is the non-empty packets acknowledged, in order and once each, if and only if no empty packet was acknowledged after the switch |
| Replay.EmptyPacketBreaks | overlay/xbmc/platform/ps5/video/DVDVideoCodecPS5.cpp:392-409 | with a packet without data among those accepted after the switch, what the software decoder has or still gets is not the non-empty packets acknowledged |
| Replay.EmptyPacketIsExtra | overlay/xbmc/platform/ps5/video/DVDVideoCodecPS5.cpp:392-409 | an instance of such a state: one packet replayed, then one without data |
| AccessUnits.HevcAccessUnitIsRasl | overlay/xbmc/platform/ps5/video/DVDVideoCodecPS5.cpp:541-555 | the scan for the first slice, over any bytes |
| AccessUnits.RaslOfJoined | overlay/xbmc/platform/ps5/video/DVDVideoCodecPS5.cpp:541-555 | on a stream of NAL units the scan says whether the first unit of type 0 to 31 is of type 8 or 9 |
| AccessUnits.Vp9ByBits | overlay/xbmc/platform/ps5/video/DVDVideoCodecPS5.cpp:508-538 | a VP9 unit counts as shown if and only if, by the bits of its first byte, it is no frame header, or show_existing_frame or show_frame is set, one bit further down in profile 3 |
| AccessUnits.RetriedUnchanged | overlay/xbmc/platform/ps5/video/DVDVideoCodecPS5.cpp:714-720 | a unit that stalled passes all checks when retried and is offered byte for byte as before |
| AccessUnits.Waits | overlay/xbmc/platform/ps5/video/DVDVideoCodecPS5.cpp:714-720 | a stalled unit goes back to the front of the queue as it was offered, and the account is kept |
| AccessUnits.MeetsFate | overlay/xbmc/platform/ps5/video/DVDVideoCodecPS5.cpp:557-748 | a unit dropped by the checks, unfit or given to the hardware keeps the account: every unit has the fate that the checks give it in stream order, or waits, or is unseen |
| AccessUnits.GoesUnseen | overlay/xbmc/platform/ps5/video/DVDVideoCodecPS5.cpp:557-562 | a unit that nobody looks at keeps the account as well |
| AccessUnits.FateInOrder | overlay/xbmc/platform/ps5/video/DVDVideoCodecPS5.cpp:563-631 | new or retried, a unit meets the fate, and is offered with the bytes, that running the checks over the units fed, one after the other, gives it |
| AccessUnits.StreamThrough | overlay/xbmc/platform/ps5/video/DVDVideoCodecPS5.cpp:563-631 | over any stream, cleaned or not, from its start or after an error in its middle, the checks pass over exactly the units they should - those before the first unit with a NAL unit of type 16 to 23 (H.264: 5, or 1 with an intra slice) when the stream is cleaned or resynchronised, those without a slice when it is cleaned, leading pictures before anything else - put the parameter sets in front of the first other unit and of no other, and let the rest go, cleaned or as it is |
| AccessUnits.FateByRule | overlay/xbmc/platform/ps5/video/DVDVideoCodecPS5.cpp:563-631 | the same of every single unit: dropped if and only if it is one of those, and otherwise next in that stream |
| AccessUnits.Resumes | overlay/xbmc/platform/ps5/video/DVDVideoCodecPS5.cpp:563-577 | after an error in the middle of a stream no unit is given to the hardware, and none is of an unfit size, before one with a NAL unit of type 16 to 23, or 5, or 1 with an intra slice, has come; the first unit consumed comes with or after one |
| AccessUnits.StreamOrder | overlay/xbmc/platform/ps5/video/DVDVideoCodecPS5.cpp:557-748 | then the units consumed are the fitting ones of that stream, in order, up to those that wait; what waits is the rest of it, and in a cleaned stream a unit that passed the checks and waits in front is its next |
| CodecState.FollowsPacket | overlay/xbmc/platform/ps5/video/DVDVideoCodecPS5.cpp:431-436 | a packet taken and fed leaves the decoder fed with the latest packets taken: the units made of each after those before it, with or without a bitstream filter, and their timestamps; with all packets taken, as long as the decoder was not started afresh in the middle |
| CodecState.PacketRewritten | overlay/xbmc/platform/ps5/video/DVDVideoCodecPS5.cpp:466-486 | without a filter length-prefixed units are rewritten with start codes, but not for VP9 |
| CodecState.PacketKept | overlay/xbmc/platform/ps5/video/DVDVideoCodecPS5.cpp:466-486 | a packet that is no list of length-prefixed units is fed as it is |
| CodecState.FlagsInOrder | overlay/xbmc/platform/ps5/video/DVDVideoCodecPS5.cpp:721-737 | VP9, over any run: the verdicts on pictures that come out late, then the flags still waiting, are the flags of the units whose picture did not come out at once, in order and once each |
| CodecState.FollowsOnward | overlay/xbmc/platform/ps5/video/DVDVideoCodecPS5.cpp:557-748 | any amount of decoding keeps that, whether or not the decoder is started afresh |
| CodecState.GavePacket | overlay/xbmc/platform/ps5/video/DVDVideoCodecPS5.cpp:390-436 | while the decoder is not started afresh a packet taken is fed once, as the units the filter makes of it, and nothing else is |
| HwCodec.HwCodec.constructor | overlay/xbmc/platform/ps5/video/DVDVideoCodecPS5.cpp:186-221 | a codec just opened satisfies all invariants, with nothing acknowledged |
| HwCodec.HwCodec.NextPts | overlay/xbmc/platform/ps5/video/DVDVideoCodecPS5.cpp:810-820 | the smallest pending timestamp is taken, or the latest one advances by a frame |
| HwCodec.HwCodec.InsertPts | overlay/xbmc/platform/ps5/video/DVDVideoCodecPS5.cpp:438-464 | the presentation time joins the pending ones, whatever the decoding time; that one only when there is no other; nothing changes with neither; of more than 24 the largest 24 stay |
| HwCodec.HwCodec.AwaitKeyframe | overlay/xbmc/platform/ps5/video/DVDVideoCodecPS5.cpp:563-577 | after a resync a unit is dropped, with one timestamp, if and only if no NAL unit in it is of type 16 to 23 (H.264: 5, or 1 with an intra slice) |
| HwCodec.HwCodec.CleanOne | overlay/xbmc/platform/ps5/video/DVDVideoCodecPS5.cpp:579-604 | in a cleaned stream a unit is dropped, with one timestamp, if and only if it has no NAL unit of type 0 to 31 (H.264: 1 to 5), or no keyframe came yet and it is none; otherwise what is left of it are its units of the kept types |
| HwCodec.HwCodec.CountDrop | overlay/xbmc/platform/ps5/video/DVDVideoCodecPS5.cpp:587-600 | with nothing shown, 8 units without a slice or 300 without a keyframe call for recovery |
| HwCodec.HwCodec.SkipRasl | overlay/xbmc/platform/ps5/video/DVDVideoCodecPS5.cpp:605-613 | leading pictures after a seek are dropped, with one timestamp each, up to the first other one |
| HwCodec.HwCodec.Screen | overlay/xbmc/platform/ps5/video/DVDVideoCodecPS5.cpp:563-613 | a unit is dropped if and only if one of the three checks says so, and the flags after it are exactly those of the model of the checks; a dropped unit takes exactly one timestamp along, any other none |
| HwCodec.HwCodec.Prepend | overlay/xbmc/platform/ps5/video/DVDVideoCodecPS5.cpp:615-627 | parameter sets go in front of the first unit after a reset, and of no other |
| HwCodec.HwCodec.GiveToHardware | overlay/xbmc/platform/ps5/video/DVDVideoCodecPS5.cpp:628-720 | the unit is consumed by the hardware exactly once, in one call whose answer is returned, or unfit, or waiting in front of the queue |
| HwCodec.HwCodec.OfferOne | overlay/xbmc/platform/ps5/video/DVDVideoCodecPS5.cpp:614-748 | the same, and what the answer does: a failure is counted, a success forgets those before; one timestamp is taken if and only if a picture is queued; with VP9 a picture that comes at once is queued if and only if the bits of its own unit say shown, a later one by the flag of the oldest unit waiting |
| HwCodec.HwCodec.TakePicture | overlay/xbmc/platform/ps5/video/DVDVideoCodecPS5.cpp:721-748 | a picture is queued with the next timestamp and its own frame, unless VP9 says it is hidden; then its frame is free again and no timestamp is used |
| HwCodec.HwCodec.Keep | overlay/xbmc/platform/ps5/video/DVDVideoCodecPS5.cpp:875-882 | zero-copy: a buffer of the pool shows the decoder's frame |
| HwCodec.HwCodec.DecodeFailed | overlay/xbmc/platform/ps5/video/DVDVideoCodecPS5.cpp:634-687 | the counters after a failure, in numbers; the eighth with nothing shown calls for recovery, the sixtieth in a row is fatal, and the twelfth of a shown stream leads to a resync; the replay is untouched |
| HwCodec.HwCodec.Resync | overlay/xbmc/platform/ps5/video/DVDVideoCodecPS5.cpp:657-679 | up to six times the decoder starts afresh and waits for a keyframe; then the decoder is closed, whatever pictures are live, and the stream goes on in software with a replay that is not exact, or it fails |
| HwCodec.HwCodec.Restart | overlay/xbmc/platform/ps5/video/DVDVideoCodecPS5.cpp:671-678 | nothing is pending or queued any more and units up to a keyframe are dropped |
| HwCodec.HwCodec.DecodeOne | overlay/xbmc/platform/ps5/video/DVDVideoCodecPS5.cpp:557-748 | the unit is dropped exactly when recovery is pending, a check says so or its size is unfit, else consumed or queued again in front; one timestamp goes with a unit the checks drop or a picture queued, and no other; stream order, counters and replay are kept |
| HwCodec.HwCodec.RetryPending | overlay/xbmc/platform/ps5/video/DVDVideoCodecPS5.cpp:795-808 | the queue is worked off in order and the loop ends: true if and only if nothing is left, and false only when no frame is free or the decoder found none; no unit and no timestamp is fed |
| HwCodec.HwCodec.FeedUnit | overlay/xbmc/platform/ps5/video/DVDVideoCodecPS5.cpp:481-486 | a unit is counted behind the fed ones and queues behind those waiting |
| HwCodec.HwCodec.FeedAll | overlay/xbmc/platform/ps5/video/DVDVideoCodecPS5.cpp:495-503 | all units the filter made are fed in order, unless the filter was rebuilt in between |
| HwCodec.HwCodec.FeedHardware | overlay/xbmc/platform/ps5/video/DVDVideoCodecPS5.cpp:438-505 | the fed units grow by exactly those of the packet - what the filter makes of it after the packets before it, or the packet itself - its timestamp is fed once and before any is taken, and false means a fatal error |
| HwCodec.HwCodec.BufferForReplay | overlay/xbmc/platform/ps5/video/DVDVideoCodecPS5.cpp:1334-1352 | the record is everything taken up to the first picture, until the 400 packets or 128 MiB would be exceeded |
| HwCodec.HwCodec.SwitchToSoftware | overlay/xbmc/platform/ps5/video/DVDVideoCodecPS5.cpp:1176-1199 | software is opened once; nothing changes if it cannot open the stream; otherwise it is queued the whole record, exactly so if no picture was taken and the record had not overflowed, the hardware's queue is gone and the decoder is closed; before the first picture no buffer shows a frame then |
| HwCodec.HwCodec.RunRecovery | overlay/xbmc/platform/ps5/video/DVDVideoCodecPS5.cpp:1354-1398 | the stage rises, so the recursion ends; still in hardware the whole record was fed again, cleaned, and in software, from either stage, the whole record is queued and nothing was accepted yet; false means fatal |
| HwCodec.HwCodec.CleanFromHere | overlay/xbmc/platform/ps5/video/DVDVideoCodecPS5.cpp:1359-1376 | from here the stream is cleaned, its parameter sets are, and the counters start again |
| HwCodec.HwCodec.StartCleaned | overlay/xbmc/platform/ps5/video/DVDVideoCodecPS5.cpp:1359-1390 | the record is kept and the packets fed are the record; a second refusal goes on to software with all of it |
| HwCodec.HwCodec.FeedReplay | overlay/xbmc/platform/ps5/video/DVDVideoCodecPS5.cpp:1377-1390 | the packets fed are those recorded, in order, up to one that calls for recovery; the units fed are those made of them, with or without a filter, and so are the timestamps |
| HwCodec.HwCodec.SendReplay | overlay/xbmc/platform/ps5/video/DVDVideoCodecPS5.cpp:394-407 | the record goes to the software decoder in order, each packet once, until it refuses one |
| HwCodec.HwCodec.AddToSoftware | overlay/xbmc/platform/ps5/video/DVDVideoCodecPS5.cpp:392-409 | a new packet is accepted only after the whole record, and refused only when the software decoder refused one; accepting one without data after an exact switch leaves the software decoder with a packet too many |
| HwCodec.HwCodec.TakePacket | overlay/xbmc/platform/ps5/video/DVDVideoCodecPS5.cpp:431-436 | the packet is acknowledged if and only if true is returned, whatever recovery it sets off; while the decoder is the same and not started afresh exactly the units made of it and its timestamp are fed, once |
| HwCodec.HwCodec.Conclude | overlay/xbmc/platform/ps5/video/DVDVideoCodecPS5.cpp:433-435 | recovery runs if and only if it was called for, and a packet refused after all is not acknowledged |
| HwCodec.HwCodec.AddData | overlay/xbmc/platform/ps5/video/DVDVideoCodecPS5.cpp:390-436 | all invariants hold after, the account of every unit among them; true means acknowledged and, while the decoder is the same and not started afresh, fed as the units made of it; false then feeds nothing unless an error was fatal, and comes in hardware only after a fatal error, with two pictures queued, with no frame free or none found for a unit that waits - and never when decodes failed and nothing was ever shown, for then recovery runs; packets without data change nothing in hardware and break the exact replay in software; the recursion ends |
| HwCodec.HwCodec.GetPicture | overlay/xbmc/platform/ps5/video/DVDVideoCodecPS5.cpp:1109-1167 | the first queued picture with no timestamp taken, or when draining one the decoder held back with the next timestamp, the end of the stream only after the decoder was asked and had none; its buffer shows a frame of Kodi's that no other buffer shows and is handed out; the first picture ends the recording |
| HwCodec.HwCodec.Drain | overlay/xbmc/platform/ps5/video/DVDVideoCodecPS5.cpp:1116-1123 | the decoder is asked for a held-back picture, and at most one comes: its buffer shows the frame the decoder returned, and it takes the smallest pending timestamp or the next one; no unit is consumed |
| HwCodec.HwCodec.ClearQueue | overlay/xbmc/platform/ps5/video/DVDVideoCodecPS5.cpp:1053-1059 | every queued picture gives its frame back |
| HwCodec.HwCodec.ResetDecoderState | overlay/xbmc/platform/ps5/video/DVDVideoCodecPS5.cpp:1081-1107 | nothing pending, queued or counted is left, and the filter is rebuilt once: new, or gone exactly when it cannot be rebuilt |
| HwCodec.HwCodec.Reset | overlay/xbmc/platform/ps5/video/DVDVideoCodecPS5.cpp:1061-1079 | a seek forgets what was taken, in either mode, with the exact counters and flags after it, and what follows is replayed exactly again |
| HwCodec.EveryRun | overlay/xbmc/platform/ps5/video/DVDVideoCodecPS5.cpp:390-436 | for every sequence of packets, pictures taken, seeks and releases from other threads, as `HwCodec.RunOk` says: ownership of frames, after a close exactly when no picture is live and always when none was taken before; queued pictures on frames of their own; what was fed are the units that the filter, or none, makes of the latest packets taken, all of them until the decoder is started afresh, with their timestamps, which are the presentation times when every packet has one; every unit fed met the fate that the checks give it in stream order, or waits, or is unseen because recovery was called for; at every stage, cleaned or not, resynchronised or not, the hardware got all fitting units of the stream as it should be, in order up to those that wait, unless recovery is called for (`HwCodec.NothingMissing`); after a resync the first unit consumed came with or after a keyframe, by NAL unit type; the pictures given out and queued have the timestamps the clock gave to pictures; and exactness of the replay with its condition |
| HwCodec.PicturesGetTheirPlaces | overlay/xbmc/platform/ps5/video/DVDVideoCodecPS5.cpp:810-820 | when pictures come out in display order, those given out and queued have the timestamps of their places among the timestamps of the packets fed - their presentation times, when every packet has one: the k-th the k-th smallest when no unit was dropped |
| Calendar.CivilCountsMonths | shims/native-app/libc_posix.c:25-33 | the era formula equals counting the days of the years and months one by one, for every year |
| Calendar.CivilFromDaysIsRight | shims/native-app/libc_posix.c:71-80 | every day number is split into an existing date that counts to it |
| Calendar.Tm.GmtimeR | shims/native-app/libc_posix.c:56-90 | the fields become those of the second count |
| Calendar.Tm.Timegm | shims/native-app/libc_posix.c:35-54 | the seconds of the fields, which become normalised |
| Calendar.SecondsCountMonths | shims/native-app/libc_posix.c:35-54 | for all field values, months and days out of range included, the seconds are those of a count month by month |
| Calendar.GmtimeIsCalendar | shims/native-app/libc_posix.c:56-90 | for every second count the fields are in range and count back to it, with weekday and day of the year; the year is cut to 32 bits |
| Calendar.GmtimeThenTimegm | shims/native-app/libc_posix.c:35-90 | the round trip holds if and only if the year fits its field |
| Calendar.YearFits | shims/native-app/libc_posix.c:82 | which seconds those are |
| Calendar.TimegmThenGmtime | shims/native-app/libc_posix.c:35-90 | the other round trip holds for every existing date and time |
| SearchTree.Root.Tfind | shims/native-app/libc_posix.c:309-322 | a node is found if and only if the key set has the key, and it is one with that key |
| SearchTree.Root.Tsearch | shims/native-app/libc_posix.c:288-307 | the ordered key list gains exactly the missing key, a present one's node is returned, all other nodes stay, and the links stay a tree |
| SearchTree.Root.Tdelete | shims/native-app/libc_posix.c:325-360 | the ordered key list loses exactly the key, one node leaves and the others stay, the result is the parent |
| SearchTree.Root.Unlink | shims/native-app/libc_posix.c:342-357 | what takes a node's place holds the other nodes below it in order |
| SearchTree.Root.DetachSuccessor | shims/native-app/libc_posix.c:348-353 | the in-order successor is cut out and nothing else moves |
| SearchTree.Root.SetLink | shims/native-app/libc_posix.c:298-305 | writing through the link at the end of a search path changes that link only |
| SearchTree.RunHolds | shims/native-app/libc_posix.c:288-360 | after any run of insertions and deletions the keys are sorted and are those added last and not deleted since |
| SearchTree.HasAfterInsert | shims/native-app/libc_posix.c:288-307 | insertion adds exactly the keys equal to the one inserted |
| SearchTree.HasAfterDelete | shims/native-app/libc_posix.c:325-360 | deletion removes exactly the keys equal to the one deleted |
| Fnmatch.MatchBracket | shims/native-app/libc_posix.c:447-483 | match, mismatch or malformed, and where the expression ends |
| Fnmatch.ElementsOfSpelled | shims/native-app/libc_posix.c:447-560 | a pattern means the elements it was spelled from, with ! or ^ to negate a bracket expression, ranges, and characters escaped or, with NOESCAPE, as they are |
| Fnmatch.ElementMatches | shims/native-app/libc_posix.c:447-560 | what one element matches: its character; any one character, but with PATHNAME no slash; any string, but with PATHNAME none with a slash; one character within some range, or with negation within none |
| Fnmatch.FnmatchAt | shims/native-app/libc_posix.c:485-560 | for any rest of a pattern and of a string: true if and only if the string splits along the rest's elements; it terminates |
| Fnmatch.TryEach | shims/native-app/libc_posix.c:521-528 | trying every place a star can reach decides the match |
| Fnmatch.Find | shims/native-app/libc_posix.c:514-520 | the first slash, or the end |
| Fnmatch.Match | shims/native-app/libc_posix.c:562-565 | the whole pattern against the whole string |
| Fnmatch.SlashesAreSpelled | shims/native-app/libc_posix.c:485-560 | with PATHNAME every slash of a matching string is one the pattern spells out |
| Paths.Normalise | shims/native-app/libc_posix.c:936-955 | the loop yields a slash and the slash-joined components without empty and "." ones |
| Paths.SegmentsRejoin | shims/native-app/libc_posix.c:936-955 | the segments are the string cut at every slash: put together with slashes they give it again |
| Paths.ComponentsCounted | shims/native-app/libc_posix.c:936-955 | of the segments exactly the empty ones and "." are dropped |
| Paths.NormalIsStable | shims/native-app/libc_posix.c:936-955 | a normalised path is absolute, not longer, and normalising it again changes nothing |
| Paths.PartsUnder | shims/native-app/libc_posix.c:926-935 | a relative path has the working directory's components, then its own |
| Paths.DotTest | shims/native-app/libc_posix.c:947-948 | the test for a "." looks at two characters and is exact |
| Paths.WorkingDirectory.Init | shims/native-app/libc_posix.c:844-853 | the home directory if it is absolute and fits, else the root; once |
| Paths.WorkingDirectory.Getcwd | shims/native-app/libc_posix.c:855-882 | the directory, or the error for each way the buffer can be wrong |
| Paths.WorkingDirectory.Chdir | shims/native-app/libc_posix.c:887-907 | the directory follows an accepted change whose path fits, and stays absolute and within its buffer |
| Paths.WorkingDirectory.Realpath | shims/native-app/libc_posix.c:909-967 | the normal form of every path that fits, an error otherwise; applying it again changes nothing |
| Words.NumberOfOctets | overlay/xbmc/platform/ps5/elf/ElfLoader.cpp:144-151 | a word stored little-endian reads back as itself |
| Words.HalfByOctets | overlay/xbmc/platform/ps5/elf/ElfLoader.cpp:19-24 | a 32-bit number is its four octets, the least significant first |
| Words.WordByHalves | overlay/xbmc/platform/ps5/elf/ElfLoader.cpp:19-24 | a 64-bit word is its first 32 bits plus 2^32 times its last |
| Words.Store | overlay/xbmc/platform/ps5/elf/ElfLoader.cpp:144-151 | eight octets change and no others |
| GnuHash.SymbolCount | overlay/xbmc/platform/ps5/elf/ElfLoader.cpp:76-95 | for every well-formed table over symoffset..N-1 the count is N, and the chain walk ends inside the table |
| GnuHash.NoChains | overlay/xbmc/platform/ps5/elf/ElfLoader.cpp:85-89 | with all buckets empty that is symoffset |
| GnuHash.CountIsUnique | overlay/xbmc/platform/ps5/elf/ElfLoader.cpp:76-95 | a table is well-formed for one N only |
| Relocation.ApplyOne | overlay/xbmc/platform/ps5/elf/ElfLoader.cpp:144-180 | one relocation stores in its slot, at bias plus r_offset, the word B + A of type 8, S + A of types 1 and 6 or S of type 7, where S is bias plus st_value of a symbol with a section, the host's address of its name, or 0 for an unknown weak one; it counts its kind; if the symbol has no address it says why and stores nothing; other types store nothing |
| Relocation.WordIsValue | overlay/xbmc/platform/ps5/elf/ElfLoader.cpp:98-180 | a relocation has exactly the word that its type and the octets of its symbol give it |
| Relocation.TallyByKind | overlay/xbmc/platform/ps5/elf/ElfLoader.cpp:144-180 | the counts are how many entries have type 8, 1 or 6, 7, and 16 to 18 at octet 8 of 24, and all others |
| Relocation.ApplyRela | overlay/xbmc/platform/ps5/elf/ElfLoader.cpp:138-182 | entries are read from memory that changes, yet the stores are those the table asked for at the start, up to the first symbol without an address; the counts are the table's |
| Relocation.SlotHolds | overlay/xbmc/platform/ps5/elf/ElfLoader.cpp:138-182 | with disjoint slots every slot holds its word at the end |
| Relocation.EntryInWrites | overlay/xbmc/platform/ps5/elf/ElfLoader.cpp:138-182 | a store is made if and only if some entry asks for it: B + A of type 8, S + A of types 1 and 6, S of type 7, with S from the symbol's octets, at bias plus r_offset |
| Relocation.OrderIrrelevant | overlay/xbmc/platform/ps5/elf/ElfLoader.cpp:138-182 | any permutation of relocations with disjoint slots leaves the same memory |
| Relocation.AllRelocated | overlay/xbmc/platform/ps5/elf/ElfLoader.cpp:138-182 | with disjoint slots every relocation's value is in its slot at the end |
| Relocation.ResolveUnchanged | overlay/xbmc/platform/ps5/elf/ElfLoader.cpp:98-136 | a symbol's address depends on the symbol and string tables only |
| Relocation.SecondTable | overlay/xbmc/platform/ps5/elf/ElfLoader.cpp:334-341 | the PLT's table says the same after the first table was applied |
| ElfLoader.Span | overlay/xbmc/platform/ps5/elf/ElfLoader.cpp:204-225 | for any program headers, with ends cut to 64 bits: the tight bounds of everything to load, and the last dynamic segment |
| ElfLoader.SpanFits | overlay/xbmc/platform/ps5/elf/ElfLoader.cpp:204-231 | when no segment's addresses wrap the bounds are in order, with a page to spare |
| ElfLoader.HeaderAccepted | overlay/xbmc/platform/ps5/elf/ElfLoader.cpp:189-199 | a header is accepted if and only if the octets are 7f "ELF", class 2, data 1, type 3 and machine 62, in a file of 64 octets or more |
| ElfLoader.SegmentsRead | overlay/xbmc/platform/ps5/elf/ElfLoader.cpp:19-21 | the segments of a file are those that its file header and program headers were written from, field by field as they are laid out, wherever the table stands |
| ElfLoader.CopySegment | overlay/xbmc/platform/ps5/elf/ElfLoader.cpp:258-260 | a segment's bytes of the file, then zeros, and nothing else changes |
| ElfLoader.CopySegments | overlay/xbmc/platform/ps5/elf/ElfLoader.cpp:242-261 | every byte of the reservation is that of the last segment over it, or zero |
| ElfLoader.LoadedByte | overlay/xbmc/platform/ps5/elf/ElfLoader.cpp:242-261 | with disjoint segments it is its own segment's |
| ElfLoader.PagesInside | overlay/xbmc/platform/ps5/elf/ElfLoader.cpp:227-256 | all pages made accessible for a segment lie in the reservation |
| ElfLoader.ParseDynamic | overlay/xbmc/platform/ps5/elf/ElfLoader.cpp:263-287 | each field is the value of the last entry with its tag before the end of the table |
| ElfLoader.CountSymbols | overlay/xbmc/platform/ps5/elf/ElfLoader.cpp:315-318 | the number the hash tables give, 0 when there is none |
| ElfLoader.Relocate | overlay/xbmc/platform/ps5/elf/ElfLoader.cpp:334-341 | both tables together make exactly the stores read from the untouched image and count their kinds, or the error is of an entry whose symbol has no address |
| ElfLoader.Link | overlay/xbmc/platform/ps5/elf/ElfLoader.cpp:263-341 | the image is relocated, or refused for exactly one of: tables outside the mapping, missing tables, an unknown symbol count, a symbol without an address |
| ElfLoader.MapSegments | overlay/xbmc/platform/ps5/elf/ElfLoader.cpp:204-261 | the reservation equals the image computed from the file, at the base the bias is taken from; no segments or no dynamic table, and then no reservation, are the only errors |
| ElfLoader.Load | overlay/xbmc/platform/ps5/elf/ElfLoader.cpp:185-341 | each bad header, a file without segments and a failed reservation are refused; otherwise the result is the file's image with exactly its relocations' stores made, or the reason it cannot be linked |
| ElfLoader.EveryByte | overlay/xbmc/platform/ps5/elf/ElfLoader.cpp:185-341 | a loaded object with disjoint segments and disjoint slots: every relocation of the file's two tables has its value in its slot; every byte is an octet of the value of the relocation there, and otherwise the byte that the file has for the segment there, or zero |
| ElfLoader.EveryRelocation | overlay/xbmc/platform/ps5/elf/ElfLoader.cpp:263-341 | a loaded object with disjoint slots: every 24-octet entry of the tables under dynamic tags 7 and 23, as many as tags 8 and 2 say, has in its slot the word B + A, S + A or S that its octets and its symbol's ask for; symbols, names and their size are under tags 6, 5 and 10 |
| ElfLoader.FindSymbol | overlay/xbmc/platform/ps5/elf/ElfLoader.cpp:418-428 | bias plus st_value of the first symbol of that name whose section number is not 0, or none |
| AudioSink.Sink.AddPackets | overlay/xbmc/platform/ps5/audio/AESinkPS5.cpp:250-285 | the frames taken, counted by the result, are appended to the stream; blocks played and the partial block are always that stream, each frame swapped once in HBR mode; the loop ends even with a full block |
| AudioSink.Sink.Assemble | overlay/xbmc/platform/ps5/audio/AESinkPS5.cpp:258-284 | all frames are taken unless the port refused a block, which is kept whole |
| AudioSink.Sink.Fill | overlay/xbmc/platform/ps5/audio/AESinkPS5.cpp:258-283 | one turn takes what fits; a turn that takes nothing started with a full block |
| AudioSink.Sink.Write | overlay/xbmc/platform/ps5/audio/AESinkPS5.cpp:262-271 | the frames land behind the others, with words 2 and 3 changed over in HBR mode |
| AudioSink.Sink.SwapWords | overlay/xbmc/platform/ps5/audio/AESinkPS5.cpp:264-271 | exactly those two words of the new frames change places |
| AudioSink.Sink.PlayBlock | overlay/xbmc/platform/ps5/audio/AESinkPS5.cpp:276-282 | a played block empties the buffer, a refused one stays |
| AudioSink.BlocksAreDetermined | overlay/xbmc/platform/ps5/audio/AESinkPS5.cpp:250-285 | two runs that took the same frames have played the same blocks and hold the same remainder, or one has played and the other still holds the same full block, however calls were cut |
| PadInput.Pad.PollPad | overlay/xbmc/platform/ps5/input/PS5PadInput.cpp:196-273 | state and events after one poll, for every state of the pad and the keyboard dialog, as the lemmas below say by bit numbers, stick positions and times |
| PadInput.Pad.EmitChanges | overlay/xbmc/platform/ps5/input/PS5PadInput.cpp:243-263 | the loop over the changed bits emits one event for each, in bit order |
| PadInput.Pad.ReleaseAll | overlay/xbmc/platform/ps5/input/PS5PadInput.cpp:206-213 | a release for every button that was down |
| PadInput.StepFollows | overlay/xbmc/platform/ps5/input/PS5PadInput.cpp:196-273 | one poll's events take the keys down from those of the old buttons to those of the new |
| PadInput.RunFollows | overlay/xbmc/platform/ps5/input/PS5PadInput.cpp:196-273 | over any run the keys whose latest event is a press are those of the last buttons, releases are of pressed keys, and only directions still down repeat |
| PadInput.NothingHeld | overlay/xbmc/platform/ps5/input/PS5PadInput.cpp:203-241 | a disconnected pad or an open keyboard leaves no key down and presses none |
| PadInput.WaitsForRest | overlay/xbmc/platform/ps5/input/PS5PadInput.cpp:225-241 | once the keyboard was open the pad waits until a poll finds it at rest |
| PadInput.WaitsExactly | overlay/xbmc/platform/ps5/input/PS5PadInput.cpp:218-241 | over any run, a readable poll leaves the pad waiting if and only if the keyboard is open, or it waited and a button was down or the stick outside 64..192; the keyboard hears of input every 80 ms at most |
| PadInput.ButtonsAreSeen | overlay/xbmc/platform/ps5/input/PS5PadInput.cpp:218-222 | a poll that does not wait leaves exactly the buttons of the pad, and with none of the bits 4 to 7 among them the stick's: 7 below 64 and 5 above 192 across, 4 below 64 and 6 above 192 along |
| PadInput.KeysOfPoll | overlay/xbmc/platform/ps5/input/PS5PadInput.cpp:243-270 | such a poll presses once the key of each button that went down and releases once that of each that came up; the direction held is pressed once more when it is due; nothing else |
| PadInput.HeldDirection | overlay/xbmc/platform/ps5/input/PS5PadInput.cpp:251-270 | a direction just pressed is held, the highest bit of several, and due after 400 ms; a repeated one after 80; one that came up is not held |
| PadInput.QuietAfterKeyboard | overlay/xbmc/platform/ps5/input/PS5PadInput.cpp:225-241 | after the keyboard closes nothing is pressed before a poll with nothing pressed |
| PadInput.KeysAreDistinct | overlay/xbmc/platform/ps5/input/PS5PadInput.cpp:55-94 | no two buttons share a key |

## Left out

- HwCodec.HwCodec.Resync: when the hardware is given up in the middle of a stream nothing is claimed of the packets that software misses (`log.exact` is false then).
- HwCodec.HwCodec.Keep: the copying and the deinterlacing forms of a picture (lines 884-1050 of the codec) are not modelled, only zero-copy.
- VideoDec2.VideoDec2.NextFrameBuffer: the ring mode without a pool is not modelled, nor opening the decoder; closing it with pictures held is.
- VideoDec2.VideoDec2.OtherThreads: reference counts of picture buffers belong to a base class that is not part of this model; any picture handed out may be given back at any moment, once.
- HwCodec.HwCodec.FeedHardware: a bitstream filter is any function from the data it was given since it was built, and a packet's data, to access units; FFmpeg's filters, its software decoder, bwdif and failing allocations are not modelled.
- HwCodec.Software.AddData: the software decoder's pictures are not modelled, only which packets it accepts.
- Fnmatch.Match: PERIOD, LEADING_DIR and CASEFOLD are left out.
- SearchTree.Root.Tsearch: the comparator is a function of two keys, and a null root pointer is not modelled.
- Calendar.Tm.Timegm: arithmetic is on ideal integers but for the year field, so overflow of 64-bit seconds or of tm_mday at the least 32-bit number is not modelled.
- Paths.WorkingDirectory.Chdir: whether the kernel accepts the change is a parameter.
- ElfLoader.Load: thread-local relocations are counted and left alone as in the source; protections, exception tables, constructors and unloading are not modelled. The file's own tables must lie where they say (the source checks only two of them), which is the method's precondition.
- ElfLoader.MapSegments: program headers and segment bytes outside the file, which the source does not check, are excluded by its precondition.
- Relocation.Resolve: the host's resolver is a function from names to addresses, 0 for an unknown one.
- AudioSink.Sink.AddPackets: frames are sequences of 16-bit words or opaque values, not bytes; draining, which discards the block even when the port refuses it, is left out.
- PadInput.Pad.PollPad: opening and closing pads and the refresh of users are left out; closing clears the buttons without key events.
- The decoder's statistics, logging and picture metadata, the network shims, the renderer and the keyboard dialog itself: input, output and thin wrappers.
- iconv and the locale forwarders: they would add only easy members.
