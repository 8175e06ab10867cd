# Verified model of a video streamer

The streamer takes compressed frames from a camera's encoder and sends them over the network or through shared memory.
This project models the parts of it where much can go wrong in few lines, and proves what they promise:

- the H.265 sender, which puts cached parameter sets in front of IDR units, packs small NAL units into aggregation
  packets and cuts large ones into fragments (RFC 7798, section 4.4, over RTP, RFC 3550, section 5.1), and its H.264
  and header-copying siblings. What they are measured against is a receiver written from the standards alone
  (`HevcReceiver`, `H264Receiver`);
- the shared-memory ring between one producer and one consumer, with every interleaving of their statements, and its
  futex handshake;
- the JSON printer and parser that read and write the configuration, with their numbers, two-pass buffer sizes, Unicode
  escapes and doubly linked lists;
- the overlay: lines, rectangles, points and text on a canvas of which only a dirty rectangle is cleared;
- the scene detector, the crop controller of the image stabiliser, the decoder of the gyro's FIFO, the ring of motion
  samples, the regions of interest and the aspect crop.

Bytes are integers from 0 to 255 (`Bytes`), C integers have their widths, C floating point is real arithmetic. A
callback, a socket or a device is an oracle that accepts or refuses each call, and a trace of what it accepted. C code
that changes things step by step is a class or a method with loops; what it computes is a function or a predicate, and
the theorems are about that. They are stated without it where they can be, by what went in and what came out:
`HevcLayout` by buffers as an encoder fills them, `VencRead` and `VencWrite` by whole calls, `JsonGrammar`,
`JsonLiteral`, `JsonNumberText` and `JsonForm` by the standard's grammar and tables, `SceneLaws` by the frames alone,
`GyroLaws` by rotations, `ImuLayout` by what a sensor measured. `hide` statements only keep proof obligations small.

Where the code does less than its comments or documentation say, the code is modelled and the difference is a theorem:

- `VencRing.AsleepExactly` and `VencRing.LostWakeup`: the blocking read can sleep on a non-empty ring, and exactly when.
- `JsonList.AddItemToArray`: appending keeps the list just when the element is not in it yet and the list was empty or
  the element has no next one; otherwise what hangs from the parent is no list. By `JsonList.InsertItemInArray` and
  `JsonList.ReplaceItemViaPointer` the same becomes of the list when an element of it, or the parent, is inserted or put
  in the place of another element; but the first one in the place of the last one of three or more is all that stays.
- `JsonPrinter.PrintPreallocated`: a buffer needs two bytes more than the text, not the five the header asks for.
- `DebugOsd.DebugOsdState.RunOnTwo`, `DebugOsd.DebugOsdState.RunAlternating`, `OsdDrawing.Screen.AllStartBlank` and
  `OsdDrawing.Screen.PixelStays`: with the two canvases a comment in `debug_osd_begin_frame` mentions, pixels can stay.
  If they take turns, every frame starts blank exactly if all that each frame draws lies in what the next one makes
  dirty.
- `SceneDetector.SpikeLength` and `SceneDetector.SpikeOnOneFrame`: a spike takes `holdoff` consecutive frames over the
  threshold, as `include/venc_config.h` has it, unless the frame before it ended a spike, by a request or by a time-out,
  and too few such frames came before it; then, by `SceneDetector.StaleSpike`, a single one makes the next spike.
- `HevcRtp.FrameOutcome`, with `LastMarkerExpected`, and `HevcRtp.LoseMarker`: if the last slot of a frame holds no NAL
  unit, a packet carries the marker just when the last unit before it went into the queue, which takes four bytes more
  than the unit has; fragmented or not, a longer one leaves the frame without.
- `MarukoH264.SendNalH264`: a fragmented H.264 NAL unit arrives without its forbidden bit.
- `Gyroglide.Create` and `Gyroglide.OddFirstWindow`: the first crop window starts at `FirstCrop` of the configuration on
  either axis, which may be odd; every later one is even.
- `Precrop.PrecropFits` and `Precrop.ProductWraps`: the crop is less than two pixels short just when the product that is
  scaled fits 32 bits or is less than twice its divisor. By `Precrop.PrecropLongest` it always is where the image has
  been clamped to the sensor, as src/star6e_pipeline.c:862-863 does.
- `JsonString.BadDigits`, `JsonString.WellEscapedIff` and `JsonString.SwallowedBackslash`: a `\u` escape with other
  characters for its first four digits counts as zero instead of failing. It can swallow a backslash, and then the
  closing quote is read as an escaped one. The accepted literals with a bad escape are just those that contain such a
  `\u`.

## Model

| member | source | states |
|---|---|---|
| HevcReceiver.ParseApBody | src/star6e_hevc_rtp.c:90-94 | the aggregation units of any NAL units parse back to exactly these |
| HevcReceiver.HeaderAppend | src/star6e_hevc_rtp.c:77-88 | how the header fields section 4.4.2 of RFC 7798 asks for (F of any unit, least LayerId, least TID) change with one more unit |
| RtpPacketizer.HeaderFields | src/rtp_packetizer.c:24-36 | the twelve header bytes mean version 2, no padding, extension or CSRC, and the given marker, type, number, time and source |
| RtpPacketizer.BuildHeader | src/rtp_packetizer.c:19-36 | the header filled byte by byte decodes to those fields |
| RtpPacketizer.SendPacket | src/rtp_packetizer.c:14-44 | an accepted packet is added to the trace with its payload and fields and moves the number on modulo 2^16; a refused one changes nothing |
| RtpPacketizer.FuHeaderMeans | src/rtp_packetizer.c:75-97 | the three bytes say type 49 with the F bit, LayerId and TID of the NAL unit, then S, E and its type |
| RtpPacketizer.FuIndicators | src/rtp_packetizer.c:75-85 | taking F, LayerId and TID out of the header and putting them together again gives the payload header of every fragment |
| RtpPacketizer.FuStep | src/rtp_packetizer.c:89-113 | what a receiver does with a fragment: start, go on, finish, or drop it if it carries both S and E |
| RtpPacketizer.FuProgressStep | src/rtp_packetizer.c:89-113 | one round of the fragmenter keeps: the receiver holds what was sent, no marker before the last packet, the counts are right |
| RtpPacketizer.SendHevcFu | src/rtp_packetizer.c:46-116 | a NAL unit too long for one fragment arrives whole if all was accepted, and not at all otherwise; packets are numbered consecutively, of one stream, all but the last as long as allowed; the marker is on the last just if asked for and sent |
| RtpPacketizer.SendHevcNal | src/rtp_packetizer.c:118-142 | for any payload limit, a well-formed NAL unit arrives byte for byte exactly if its whole length is reported; with a writer that succeeds, exactly if it is deliverable; no fragment carries both S and E |
| RtpPacketizer.SentTrans | src/rtp_packetizer.c:42 | consecutive numbering modulo 2^16, one timestamp and the payload limit compose over sends |
| RtpPacketizer.ConsecutiveTrans | src/rtp_packetizer.c:42 | consecutive numbering modulo 2^16 composes, whatever the streams |
| ParamSets.ParamCache.Store | src/h26x_param_sets.c:5-13 | a set that fits replaces the stored one; an empty one or one that is too long leaves it |
| ParamSets.ParamCache.Update | src/h26x_param_sets.c:15-42 | the stored sets become what `UpdateSets` says, for either codec |
| ParamSets.ParamCache.GetPrepend | src/h26x_param_sets.c:44-86 | the references are to the stored sets an IDR unit needs, in order, as many as asked for |
| ParamSets.CacheHoldsLatest | src/h26x_param_sets.c:5-42 | over any run of either codec, each stored set is the last one of its type that fitted |
| ParamSets.ExpandConcat | src/star6e_hevc_rtp.c:291-304 | what goes out for two runs of units one after the other is what goes out for each, the second under the sets the first left |
| ParamSets.SetsPrecedeIdr | src/h26x_param_sets.c:44-86 | over any run of either codec, each IDR unit (type 19 or 20, in H.264 5) goes out right behind the latest parameter sets that fitted, in their order, and nothing is put in front of any other unit |
| H26xUtil.OnlyStartCodes | src/h26x_util.c:15-27 | the result is just what stands behind all the four-byte start codes the data begins with and then all the three-byte ones |
| H26xUtil.StripStartCodes | src/h26x_util.c:15-27 | the two loops strip exactly that |
| HevcDelivery.SendableIff | src/rtp_packetizer.c:68-69 | everything can be sent just when each NAL unit fits or there is room for a fragment |
| HevcDelivery.DeliversMore | src/star6e_hevc_rtp.c:170-202 | delivery goes on with one more NAL unit, which arrives whole or is missing |
| HevcDelivery.DeliversTrans | src/star6e_hevc_rtp.c:225-311 | delivery composes over frames, as a subsequence and, where no write fails, as all that can be sent |
| HevcDelivery.ProgressArrived | src/star6e_hevc_rtp.c:109-150 | when a packet with the whole queue goes out, the receiver has everything handed over so far |
| HevcDelivery.ProgressLost | src/star6e_hevc_rtp.c:121-146 | when a writer refuses it, the queue is missing and nothing else |
| HevcDelivery.ProgressNal | src/star6e_hevc_rtp.c:152-168 | the same for a NAL unit sent on its own |
| HevcDelivery.TracksAdd | src/star6e_hevc_rtp.c:17-29 | the statistics grow modulo 2^32 by exactly the packets, aggregated units and bytes of the trace |
| HevcDelivery.GrownTrans | src/star6e_hevc_rtp.c:17-29 | and over two spans |
| HevcDelivery.ApArrives | src/star6e_hevc_rtp.c:133-138 | an aggregation packet with a right header hands its units to the receiver in order |
| HevcAggregation.ApBuilder.Add | src/star6e_hevc_rtp.c:65-97 | the array holds the aggregation units of the queue with the new one, the lengths and counters are theirs, the header fields the least or combined ones |
| HevcAggregation.ApHeader | src/star6e_hevc_rtp.c:133-136 | the two header bytes of a flushed builder are what section 4.4.2 of RFC 7798 asks for |
| HevcAggregation.Flush | src/star6e_hevc_rtp.c:109-150 | empties the queue into one packet, a single unit as it is and more in one aggregation packet, or none if a writer refuses; the receiver unpacks it to exactly the queue; the marker is where asked for, the bytes and statistics are right |
| HevcAggregation.FlushOnly | src/star6e_hevc_rtp.c:117-131 | a queue of one goes out as a single NAL unit packet, read back from the builder's own length field |
| HevcAggregation.FlushQueue | src/star6e_hevc_rtp.c:133-149 | a longer queue goes out as an aggregation packet |
| HevcAggregation.SendNal | src/star6e_hevc_rtp.c:152-168 | a NAL unit past the builder keeps delivery, markers and statistics |
| HevcRtp.SendOrQueue | src/star6e_hevc_rtp.c:170-202 | a unit that fits with those queued joins them, and all go out in one packet with the last unit of a frame; if it does not fit, those queued go out first; whichever way it takes, order, delivery, byte total, statistics and the place of the marker are kept |
| HevcRtp.SendPrepends | src/star6e_hevc_rtp.c:204-223 | the stored sets are handed over in order, the cache and the marker untouched |
| HevcRtp.SendUnit | src/star6e_hevc_rtp.c:291-304 | a unit is remembered, its sets go out first, then the unit itself |
| HevcRtp.SendSlot | src/star6e_hevc_rtp.c:253-305 | a slot adds its NAL unit, if it holds one, to what has been handed over, and the marker comes only with the last |
| HevcRtp.SendNext | src/star6e_hevc_rtp.c:285-305 | one more NAL unit, with the sets it needs, keeps all that holds within a frame |
| HevcRtp.SendPack | src/star6e_hevc_rtp.c:241-306 | the same for all slots of a pack, at most eight |
| HevcRtp.SendFrame | src/star6e_hevc_rtp.c:225-311 | for every frame, payload limit and writer: packets of one stream numbered consecutively, no payload over the limit, no fragment with both S and E, at most the last one marked; the receiver gets a subsequence of the NAL units whole; with a writer that succeeds and four bytes or more all of them, and the marker exactly where expected; statistics exact; the timestamp moves on |
| HevcRtp.SendFrames | src/star6e_hevc_rtp.c:225-311 | over every run of frames, with a cache or without, for any payload limit and writer: the receiver gets a subsequence of the NAL units whole, with the sets cached by then in front of IDR units; with a writer that succeeds all that can be sent, and with four bytes or more every one. All packets are numbered consecutively modulo 2^16; each frame lies between two points and has its own timestamp and its marker where `SendFrame` says; the statistics count the whole run |
| HevcRtp.SendFromEmpty | src/star6e_hevc_rtp.c:204-311 | what the receiver gets from an empty cache, unit by unit: each one is there, an IDR unit right behind the latest VPS, SPS and PPS that fitted |
| HevcRtp.RunMore | src/star6e_hevc_rtp.c:225-311 | one more frame goes on where the last one ended |
| HevcRtp.CountedMore | src/star6e_hevc_rtp.c:17-29 | statistics over two runs are those over both |
| HevcRtp.HandedConcat | src/star6e_hevc_rtp.c:291-304 | what is handed over for two runs of units is what is for each, the second under the cache the first left |
| HevcRtp.LoseMarker | src/star6e_hevc_rtp.c:241-311 | for every NAL unit that fits a packet but not the queue, a frame that ends in a pack without a buffer delivers it and marks no packet |
| HevcRtp.Outcome | src/star6e_hevc_rtp.c:308-310 | with nothing queued, progress is delivery, of everything once there is room for a fragment |
| HevcRtp.HandedAppend | src/star6e_hevc_rtp.c:291-304 | one more unit adds itself and its sets to what is handed over |
| HevcGrouping.GroupsPack | src/star6e_hevc_rtp.c:170-202 | the groups that go out are the units in order, and none is too long for a packet |
| HevcGrouping.FewestPackets | src/star6e_hevc_rtp.c:170-202 | no way to send the units in order takes fewer packets |
| HevcGrouping.CountGrows | src/star6e_hevc_rtp.c:185-201 | a longer queue makes for no fewer packets, and for one more at the most |
| HevcGrouping.SendTogether | src/star6e_hevc_rtp.c:170-202 | units that are not too long, with a writer that does not fail: each packet carries its group, and there are as few packets as there can be |
| HevcLayout.StripPiece | src/h26x_util.c:15-27 | a NAL unit that begins with no start code is left of itself behind one |
| HevcLayout.LaidAt | src/star6e_hevc_rtp.c:253-269 | the bytes at the sum of the lengths before it are the piece |
| HevcLayout.UnitAtPiece | src/star6e_hevc_rtp.c:253-283 | the unit of a slot is the NAL unit laid out there, with the type reported for it |
| HevcLayout.NothingThere | src/star6e_hevc_rtp.c:258-266 | a slot without a length, or one that reaches out of the buffer, holds none |
| HevcLayout.PackUnits | src/star6e_hevc_rtp.c:241-306 | one to eight NAL units laid out in a buffer, each behind its start code, with slots where they lie: the units of the pack are exactly these, with these types, in order; without slots, it is the one behind the offset, whatever stands in front |
| HevcLayout.FrameUnits | src/star6e_hevc_rtp.c:241-306 | the same for all packs of a frame |
| HevcLayout.SendLaidOut | src/star6e_hevc_rtp.c:225-311 | with a writer that succeeds and payloads of four bytes or more, the receiver gets exactly the well-formed NAL units laid out in the frame, in order, and the last packet is marked |
| HevcLayout.SendLaidOutCached | src/star6e_hevc_rtp.c:225-311 | with a cache, exactly these with the sets each needs in front |
| MarukoH264.FuStep | src/maruko_video.c:136-157 | what an H.264 receiver does with one FU-A fragment, given what it holds |
| MarukoH264.FuHeaderMeans | src/maruko_video.c:108-146 | FU indicator and header carry S, E, type 28 and all of the first byte but F |
| MarukoH264.Cleared | src/maruko_video.c:108-111 | the NAL unit without its F bit, equal to it just when that bit is 0 |
| MarukoH264.SendFuH264 | src/maruko_video.c:103-164 | fragments reassemble (section 5.8 of RFC 6184) to the NAL unit with F cleared, or nothing arrives; numbering, lengths and marker as above, the state written back on every way out |
| MarukoH264.SendNalH264 | src/maruko_video.c:166-182 | a NAL unit that fits arrives as it is, a longer one with F cleared; exactly which ones can be sent |
| CompactOutput.FragmentHeader | src/star6e_output.c:343-348 | a fragment's header differs from the packet's in its number and marker only |
| CompactOutput.FragmentsStep | src/star6e_output.c:334-365 | one more fragment: the payloads make up the packet's so far, numbers go on modulo 2^16, the marker only at the end |
| CompactOutput.SendCompactPacket | src/star6e_output.c:293-368 | a packet that fits goes out unchanged; a longer one as fragments that concatenate to it, all but the last as long as allowed; a failed send leaves a prefix and counts one error; a packet that cannot be cut is dropped with success |
| CompactOutput.SendUdpChunks | src/maruko_video.c:354-378 | the chunks concatenate to the bytes reported as sent, each as long as asked but the last |
| VencRing.MaskIsMod | include/venc_ring.h:123 | masking an index with `slot_count - 1` is the remainder, for every power of two |
| VencRing.StepRefines | include/venc_ring.h:105-212 | every statement of either side keeps the invariant and is a step of a bounded queue |
| VencRing.RunInv | include/venc_ring.h:105-212 | the invariant holds after every interleaving |
| VencRing.DeliveredInOrder | include/venc_ring.h:146-176 | the records read are the first ones accepted, in order, cut only to the buffer they were read into; at most `slot_count` are waiting; no slot is ever found corrupt |
| VencRing.NeverBoth | include/venc_ring.h:123-131 | no slot is written while it is being read |
| VencRing.OversizeDropped | include/venc_ring.h:109-113 | an oversize record is counted and changes nothing else, and only such a record |
| VencRing.FullDropped | include/venc_ring.h:115-121 | a record is dropped for want of room just when the ring was full as the read index was looked at, and changes nothing else |
| VencRing.StoredWhole | include/venc_ring.h:125 | every record that fits keeps all its bytes just when slots hold at most 65535 |
| VencRing.PublishWakes | include/venc_ring.h:131-138 | a publish whose increment follows the consumer's sample never leaves it asleep: it wakes within two producer steps |
| VencRing.AsleepExactly | include/venc_ring.h:182-201 | a consumer asleep beside an idle producer faces records just when it sampled after a publish its failed read had not seen, and faces exactly those |
| VencRing.LostWakeup | include/venc_ring.h:182-201 | a run that ends so |
| VencRead.CallGoesOn | include/venc_ring.h:178-212 | every statement of either side leaves a reading call where it may be after that many waits |
| VencRead.CallComesBack | include/venc_ring.h:178-212 | over every interleaving: without a timeout a blocking read comes back with exactly one record; with one, with one record, or with none after exactly one wait, and it never waits twice; a plain read never waits |
| VencRead.FoundExactly | include/venc_ring.h:146-155 | a read finds no record just when the ring was empty as it looked at the write index |
| VencWrite.WriteGoesOn | include/venc_ring.h:105-142 | every statement of either side leaves a write where it may be, and each of its own brings it nearer to its end |
| VencWrite.WriteComesBack | include/venc_ring.h:105-142 | over every interleaving: a write of a record that fits is done after its length and ten statements; then just that record has been accepted, or none has and the counter of a full ring has grown by one |
| VencWrite.ReadComesBack | include/venc_ring.h:146-176 | over every interleaving: a read that does not wait is done after the size of its buffer and seven statements |
| Unicode.DecodeEncode | lib/cJSON.c:733-765 | decoding the shortest UTF-8 of a scalar value gives the value back |
| Unicode.EncodeDecode | lib/cJSON.c:733-765 | and only the shortest form decodes |
| Unicode.Examples | lib/cJSON.c:733-765 | the samples of section 7 of RFC 3629 are written as it writes them |
| JsonString.PairMeans | lib/cJSON.c:692-718 | a surrogate pair stands for the code point section 2.1 of RFC 2781 makes it from |
| JsonString.BadDigits | lib/cJSON.c:623-720 | an escape whose first four digits are no hexadecimal ones is read as a zero byte; the second half of an accepted pair has hexadecimal digits |
| JsonString.WellEscapedIff | lib/cJSON.c:826-885 | over a whole literal: all its escapes are good ones that end before its closing quote just when it is accepted and no `\u` in it has a bad digit among its first four |
| JsonString.SwallowedBackslash | lib/cJSON.c:826-885 | an accepted literal whose closing quote is read as an escaped one |
| JsonString.ParseHex4 | lib/cJSON.c:623-656 | four hexadecimal digits, upper or lower case, give their value, anything else 0 |
| JsonString.EncodeBytes | lib/cJSON.c:755-771 | the loop writes the last byte first and ends with the shortest UTF-8 |
| JsonString.Utf16LiteralToUtf8 | lib/cJSON.c:660-779 | an escape is read as its code point, written as UTF-8 at the output position with nothing before it touched, or refused |
| JsonString.FindEnd | lib/cJSON.c:797-815 | the first pass finds the closing quote, and how much room the text takes without its escapes' backslashes |
| JsonString.RoomForEscape | lib/cJSON.c:797-820 | wherever the second pass stands, the room reserved suffices for what any escape comes to |
| JsonString.UnescapeInto | lib/cJSON.c:826-885 | the second pass stays inside that room and writes exactly the string, or fails just when the literal is none, at a byte of it |
| JsonString.ParseString | lib/cJSON.c:781-908 | a string literal is read to the string it stands for and the offset behind it; a failure is reported behind its first byte and inside the text |
| JsonLiteral.DigitValue | lib/cJSON.c:623-656 | each hexadecimal digit, written from a table in either case, has its place in the table for its value |
| JsonLiteral.HexRead | lib/cJSON.c:623-656 | four of them are read as the number they are written for |
| JsonLiteral.CodeRead | lib/cJSON.c:660-779 | every scalar value, as its escape or its surrogate pair in any mix of cases, is read as its shortest UTF-8 |
| JsonLiteral.AtomRead | lib/cJSON.c:828-885 | so are the bytes that stand for themselves and the eight two-character escapes, the slash among them |
| JsonLiteral.LiteralRead | lib/cJSON.c:781-908 | whatever way a string is written, it is what is read |
| JsonLiteral.LiteralExactly | lib/cJSON.c:781-908 | a literal is read as a string, and no `\u` in it has a bad digit among its first four, exactly if it was written so for that string |
| JsonString.CountEscapes | lib/cJSON.c:933-957 | the first pass of the printer counts exactly the bytes the second one writes |
| JsonString.QuoteInto | lib/cJSON.c:965-1029 | the second pass fills exactly that room, with a terminating zero and nothing before it touched |
| JsonString.EscapeOne | lib/cJSON.c:985-1024 | one byte's escape |
| JsonValue.TextNoZero | lib/cJSON.c:911-1029 | no printed text holds a zero byte, which finding its end relies on |
| JsonNumber.NumberTextShort | lib/cJSON.c:560-600 | a number of at most fifteen digits never overruns the number buffer |
| JsonNumber.IntIsNumber | lib/cJSON.c:571-574 | an `int` is printed as one, and is such a number |
| JsonNumber.FromDigits | lib/cJSON.c:575-585 | the digits and the decimal places a number needs give it back |
| JsonRoundTrip.AllEscapes | lib/cJSON.c:797-885 | the escapes of any string read back to it, and its closing quote is found |
| JsonRoundTrip.NumberOf | lib/cJSON.c:307-381 | the text of any number of at most fifteen digits, with a fraction or without, reads back to it |
| JsonRoundTrip.DecimalOf | lib/cJSON.c:355-359 | digits with a point and a sign, or without, are read as the number they stand for |
| JsonNumberText.NumberReads | lib/cJSON.c:307-381 | a number of at most 63 bytes with sign, point and exponent, written in any way section 6 of RFC 8259 or `strtod` allows, is read as what it stands for |
| JsonNumberText.NumberFound | lib/cJSON.c:307-381 | whatever number is read was written so |
| JsonRoundTrip.ValueOf | lib/cJSON.c:1325-1377 | the text of any value, at any indent and level, reads back to it exactly if enough levels are left |
| JsonRoundTrip.ArrayOf | lib/cJSON.c:1454-1549 | the same for arrays |
| JsonRoundTrip.ObjectOf | lib/cJSON.c:1614-1729 | the same for objects |
| JsonRoundTrip.ParseOfText | lib/cJSON.h:136-137 | printing any tree whose numbers take at most fifteen digits, formatted or not, and parsing gives an equal tree and consumes all the text, just when it is nested no deeper than 1000; otherwise parsing fails |
| JsonReread.ValueWithin | lib/cJSON.c:1459-1463 | whatever text is read, at whatever level, the tree stays within the nesting limit |
| JsonReread.Reread | lib/cJSON.c:1104-1148 | any text that is read at all: if its numbers take at most fifteen digits and its strings hold no zero byte, printing the tree, formatted or not, and reading that gives the same tree |
| JsonGrammar.ValueSound | lib/cJSON.c:1325-1377 | whatever value is read stands there, by a grammar that names no part of the parser but the string literals of `JsonLiteral` |
| JsonGrammar.ValueComplete | lib/cJSON.c:1325-1377 | whatever value stands there is read as that, exactly if enough levels are left |
| JsonGrammar.ParseExactly | lib/cJSON.c:1104-1181 | with the end required, exactly the texts of the grammar nested no deeper than 1000 are read, each as what it stands for |
| JsonGrammar.PrefixExactly | lib/cJSON.c:1104-1181 | without it, exactly the texts that begin with such a value |
| JsonForm.FormatAddsWhite | lib/cJSON.c:1380-1843 | formatting only adds white space between strings, and without it there is none |
| JsonForm.FormatExample | lib/cJSON.c:1552-1843 | where it adds it: a nested text, byte by byte |
| JsonForm.EscapedAs | lib/cJSON.c:985-1024 | every byte's escape, from tables, with lower-case digits |
| JsonForm.NumberLean | lib/cJSON.c:571-585 | no number has a zero in front of its other digits, or at the end of those behind the point |
| JsonParser.ParseBuffer.SkipWhitespace | lib/cJSON.c:1047-1070 | white space is skipped, but never the last byte |
| JsonParser.ParseBuffer.NumberItem | lib/cJSON.c:307-381 | the copy loop takes at most 63 bytes; sign, digits, point and exponent give the number and the offset behind it, or there is none |
| JsonParser.ParseBuffer.ValueItem | lib/cJSON.c:1325-1377 | parsing in place returns what the specification says, leaves the offset behind it and the depth as it was, and never the offset outside the text; the node it was given then holds the value, with new nodes below it |
| JsonParser.ParseBuffer.ArrayItem | lib/cJSON.c:1454-1549 | the same for arrays: its children are linked in order and hold the elements |
| JsonParser.ParseBuffer.Elements | lib/cJSON.c:1487-1518 | the loop over elements: the specification's elements, and a chain of new nodes that hold them |
| JsonParser.ParseBuffer.ObjectItem | lib/cJSON.c:1614-1729 | the same for objects: its children are linked in order, have the members' names and hold their values |
| JsonParser.ParseWithLengthOpts | lib/cJSON.c:1104-1181 | a whole text, with its byte order mark and, if asked for, nothing but white space behind the value; a tree of new nodes that holds it, or none; the end reported is behind the value, or else on a byte of the text |
| JsonTree.AppendNew | lib/cJSON.c:1489-1508 | a new node at the end keeps the list under construction linked |
| JsonTree.Close | lib/cJSON.c:1528-1533 | with the first node's `prev` at the last one, the chain is the list of the item's children |
| JsonTree.RootsApart | lib/cJSON.c:1454-1549 | in trees without common nodes, no root is below another |
| JsonPrinter.PrintBuffer.Ensure | lib/cJSON.c:447-530 | succeeds exactly if the bytes and one more fit the limit, and keeps what was written when the buffer is replaced |
| JsonPrinter.PrintBuffer.UpdateOffset | lib/cJSON.c:533-543 | the offset moves to the end of the text, wherever in it it stood |
| JsonPrinter.PrintBuffer.PrintStringPtr | lib/cJSON.c:911-1029 | a string literal, within the room made for it |
| JsonPrinter.PrintBuffer.PrintNumber | lib/cJSON.c:553-620 | a number of at most fifteen digits, as `%d` or as `%1.15g` |
| JsonPrinter.PrintBuffer.PrintValue | lib/cJSON.c:1380-1450 | writes exactly the text of the value behind what is there, and succeeds exactly if text, terminating zero and one more byte fit |
| JsonPrinter.PrintBuffer.PrintArray | lib/cJSON.c:1552-1611 | the same for arrays |
| JsonPrinter.PrintBuffer.PrintObject | lib/cJSON.c:1732-1843 | the same for objects |
| JsonPrinter.Print | lib/cJSON.c:1196-1271 | the text and its terminating zero, exactly if it is short enough for an `int` |
| JsonPrinter.PrintPreallocated | lib/cJSON.c:1305-1321 | prints exactly if two bytes more than the text are there |
| JsonPrinter.PrintBuffered | lib/cJSON.c:1274-1303 | whatever size was guessed, the outcome is that of `Print` |
| JsonList.GetArraySize | lib/cJSON.c:1846-1867 | the number of elements |
| JsonList.GetArrayItem | lib/cJSON.c:1869-1886 | the element at an index, or none |
| JsonList.AddItemToArray | lib/cJSON.c:1974-2005 | the list becomes one element longer at the end just when the element is not in it and it was empty or the element has no next one; otherwise no list hangs from the parent any more |
| JsonList.DetachItemViaPointer | lib/cJSON.c:2205-2239 | the list without the element, which points nowhere any more |
| JsonList.DetachItemFromArray | lib/cJSON.c:2241-2249 | the same by index, or nothing |
| JsonList.InsertItemInArray | lib/cJSON.c:2281-2313 | the list with a new element at the index, whatever it pointed at; no list at all if it is an old one or the parent; past the end, as appending |
| JsonList.ReplaceItemViaPointer | lib/cJSON.c:2315-2362 | the list with a new element in an old one's place; what hangs from the parent if the new one is an old one, too, or the parent |
| JsonList.SameWay | lib/cJSON.c:1869-1886 | whatever list hangs from a parent is the one its pointers lead along |
| JsonList.ReplaceItemInArray | lib/cJSON.c:2364-2372 | the same by index, or nothing |
| Bresenham.NearestMeans | src/debug_osd.c:651-657 | nearest cell, halves up, as an inequality without division |
| Bresenham.Step | src/debug_osd.c:651-657 | both decisions of a round, on one error term, lead from each cell of the line to the next |
| Bresenham.StepCell | src/debug_osd.c:651-657 | and the error term with them |
| Bresenham.Ends | src/debug_osd.c:653-654 | the line ends at its second end, after the longer distance and not before |
| Bresenham.LineInBox | src/debug_osd.c:641-642 | and never leaves the box of its ends |
| Bresenham.HalfCell | src/debug_osd.c:644-657 | every cell is within half a cell of the straight line, on either axis |
| Bresenham.Touching | src/debug_osd.c:651-657 | one step on the longer axis, at most one on the other, always towards the end |
| DebugOsd.FillRow | src/debug_osd.c:568-586 | exactly `count` pixels change, wherever the 16-byte boundaries fall |
| DebugOsd.RowOnly | src/debug_osd.c:608-616 | a span of a row of the array is a span of that row of the canvas and of no other |
| OsdDrawing.BoxDirty | src/debug_osd.c:266-278 | with both corners in, the dirty rectangle holds the whole box as far as it is on the canvas, and what it held before |
| OsdDrawing.ExpandedLeast | src/debug_osd.c:266-278 | the dirty rectangle grows by no more than the point takes |
| OsdDrawing.GlyphBitMeans | src/debug_osd.c:305-309 | a row of a glyph is the sum of its lit columns' weights, the leftmost 16 |
| OsdDrawing.GlyphPicture | src/debug_osd.c:304-323 | each column of each of its rows is a block of three by three pixels, all drawn if it is lit and none if not |
| OsdDrawing.GlyphCells | src/debug_osd.c:304-323 | nothing is drawn outside of these blocks |
| OsdDrawing.StringCells | src/debug_osd.c:326-332 | each character stands 18 pixels right of the one before, three of them free; what the font does not have is a question mark |
| OsdDrawing.TextLineWhole | src/debug_osd.c:520-540 | a row is the name, a colon, a blank and the value, as long as the buffers hold them |
| OsdDrawing.Screen.BlankIff | src/debug_osd.c:485-508 | on two canvases in turn, after a blank start two frames before, a frame starts blank exactly if the frame in between made dirty all that was drawn then |
| OsdDrawing.Screen.AllStartBlank | src/debug_osd.c:489-508 | over any run on two canvases in turn, every frame starts blank exactly if all that each draws lies in the dirty rectangle of the next one's calls |
| OsdDrawing.Screen.InTurn | src/debug_osd.c:485-508 | in turn, a canvas keeps what was left on it two frames before but for what is dirty |
| OsdDrawing.Screen.PixelStays | src/debug_osd.c:489-508 | a run of which the third frame does not start blank |
| DebugOsd.DebugOsdState.Rect | src/debug_osd.c:590-623 | exactly the rectangle or its outline, clipped; exactly its box is added to the dirty rectangle, which still covers everything |
| DebugOsd.DebugOsdState.Point | src/debug_osd.c:625-635 | exactly an upright cross, clipped; its box becomes dirty; covered |
| DebugOsd.DebugOsdState.DrawLine | src/debug_osd.c:644-658 | the loop ends and has drawn exactly the cells of the line that lie on the canvas |
| DebugOsd.DebugOsdState.Line | src/debug_osd.c:637-659 | the same; its box becomes dirty; covered |
| DebugOsd.DebugOsdState.DrawChar | src/debug_osd.c:291-324 | exactly the pixels of the glyph's bits, scaled and clipped; its cell becomes dirty; covered |
| DebugOsd.DebugOsdState.DrawString | src/debug_osd.c:326-332 | the characters side by side, and what they make dirty; covered |
| DebugOsd.DebugOsdState.Text | src/debug_osd.c:520-553 | the line on its background, or nothing if the row does not fit, and what they make dirty; covered |
| DebugOsd.DebugOsdState.BeginFrame | src/debug_osd.c:485-508 | clears exactly the dirty rectangle; the canvas is blank just when all it showed lay in there, as it does on the canvas of the frame before |
| DebugOsd.DebugOsdState.Draw | src/debug_osd.c:520-659 | the calls of a frame leave every pixel and the dirty rectangle exactly as their composition says |
| DebugOsd.DebugOsdState.Run | src/debug_osd.c:485-508 | over any run of frames with any drawing calls on one canvas, its query answered or not, beginning a frame leaves every pixel transparent |
| DebugOsd.DebugOsdState.RunOnTwo | src/debug_osd.c:485-508 | over any run on two canvases, whichever the queries name, if they are answered: exactly what each pixel shows as the next frame begins, which is blank just when everything left on its canvas lies in the dirty rectangle |
| DebugOsd.DebugOsdState.RunAlternating | src/debug_osd.c:485-508 | the same for canvases in turn: blank just when everything the frame before last left lies in the dirty rectangle of the last one |
| DebugOsd.AlternatingCanvases | src/debug_osd.c:489-492 | after that run the third frame has begun and the pixel is on its canvas |
| SceneDetector.EmaWithin | src/star6e_runtime.c:158-163 | over any run the average lies between any bounds of the clamped sizes seen |
| SceneDetector.RunKeeps | src/star6e_runtime.c:125-215 | the counters' invariant over any run |
| SceneDetector.Requests | src/star6e_runtime.c:176-215 | a key frame is asked for only if enabled, after warm-up and spikes, and only if none of the last 30 + holdoff frames was one |
| SceneDetector.EarliestRequest | src/star6e_runtime.c:176-215 | a run that asks as early as that allows |
| SceneDetector.PendingClears | src/star6e_runtime.c:186-199 | a pending spike is over within 31 frames, whatever they are |
| SceneDetector.SpikeLength | src/star6e_runtime.c:186-208 | exactly when a new spike has fewer than `holdoff` consecutive frames over the threshold behind it, over any run: when the frame before it ended a spike and too few came before; behind a request it has one |
| SceneDetector.SpikeOnOneFrame | src/star6e_runtime.c:186-208 | a run with a `holdoff` of two whose second spike takes one such frame |
| SceneDetector.CounterOver | src/star6e_runtime.c:200-208 | the counter never runs ahead of these frames but right behind a spike |
| SceneDetector.FreshSpike | src/star6e_runtime.c:200-208 | from any state with the counter clear, a first spike takes `holdoff` consecutive frames over the threshold |
| SceneDetector.StaleSpike | src/star6e_runtime.c:186-208 | after a spike that no IDR frame ended one such frame is enough, unless the 8-bit counter wraps |
| SceneDetector.FrameSize | src/star6e_runtime.c:94-101 | the sum of the packet lengths modulo 2^32 |
| SceneDetector.FrameType | src/star6e_runtime.c:103-123 | an IDR frame is one with such a unit in some packet |
| SceneDetector.Detector.Update | src/star6e_runtime.c:133-215 | the fields change as one step of the specification says, without overflow of 32 bits; what such steps come to over a run is what `SceneLaws` proves |
| SceneLaws.RequestedExactly | src/star6e_runtime.c:186-192 | over any run, a key frame is asked for exactly if a spike is pending and the frame is no IDR frame and at most 120 hundredths of the new average |
| SceneLaws.StaysPending | src/star6e_runtime.c:186-199 | over any run, a pending spike stays pending unless the frame is an IDR frame, is at most that size, or is the 31st since the spike began |
| SceneLaws.Began | src/star6e_runtime.c:186-205 | every pending spike began with some frame |
| SceneLaws.SpikeBegins | src/star6e_runtime.c:176-208 | the first spike begins exactly when the last `holdoff` frames (two by default) were all decided on and at least the threshold |
| SceneLaws.DecidedExactly | src/star6e_runtime.c:176-184 | which frames are decided on: the tenth and later ones, 30 frames behind each IDR frame and the warm-up |
| SceneLaws.CountersAre | src/star6e_runtime.c:150-184 | warm-up, cooldown and the frames since the last IDR frame, exactly, over any run |
| SceneLaws.AverageMoves | src/star6e_runtime.c:156-161 | the first frame is the average, each later one moves it a sixteenth of the way, rounded towards where it was |
| SceneLaws.ReportedAre | src/star6e_runtime.c:140-174 | the size, kind and complexity reported of a frame |
| SceneLaws.ComplexityGrows | src/star6e_runtime.c:166-172 | complexity grows with the size, by at most two for a hundredth, from 0 over 64 at half the average to 255 at three times |
| SceneLaws.Watch | src/star6e_runtime.c:830 | over a whole stream, one detector asks with exactly those frames |
| MotionRing.TsGeMeans | include/eis_ring.h:58-63 | the comparison is the order of instants, on normal times |
| MotionRing.Ring.Push | include/eis_ring.h:46-54 | the history grows by the sample, and the ring holds its last 2048 |
| MotionRing.Ring.ReadRange | include/eis_ring.h:69-93 | exactly the first `max_out` samples in the range among the last 2048 pushed, in order, wrapped or not |
| MotionRing.SelectPrefix | include/eis_ring.h:84-90 | stopping early yields a prefix of the whole selection |
| MotionRing.WithinMeans | include/eis_ring.h:84-86 | both ends of a range belong to it, on normal times |
| MotionRing.SelectJoin | include/eis_ring.h:80-91 | selecting from two lists one behind the other is selecting from each, and one sample is selected if it lies in the range |
| ImuFifo.InterpolateTs | src/imu_bmi270.c:683-695 | a normal time that many whole periods before now |
| ImuFifo.CountGyroFrames | src/imu_bmi270.c:699-724 | the number of gyro frames up to where decoding stops |
| ImuFifo.ImuState.ParseFifoCombined | src/imu_bmi270.c:621-653 | little-endian two's complement, scaled, gyro less bias, both rotated |
| ImuFifo.ImuState.ParseAndPush | src/imu_bmi270.c:729-777 | pushes exactly the counted frames, decoded, each at its time, and keeps the statistics |
| ImuFifo.Spacing | src/imu_bmi270.c:683-695 | the times are exactly one period apart, ascending, and the last is now |
| ImuFifo.ImuState.Drain | src/imu_bmi270.c:786-832 | both passes agree on any buffer: what is pushed is every counted frame, decoded, one period apart up to now; errors are counted and push nothing |
| ImuLayout.BytesMean | src/imu_bmi270.c:624-629 | a 16-bit number written low byte first is read back |
| ImuLayout.DecodeMeasures | src/imu_bmi270.c:621-678 | each axis of a sample comes from its own two bytes, times the scale, less its bias for the gyro, and through the rotation matrix if there is one; without acceleration it is zero |
| ImuLayout.LayoutFrames | src/imu_bmi270.c:729-765 | a buffer a sensor wrote, of any mix of frames, is decoded to exactly those with a rotation, up to its end, an unknown header or a frame cut short |
| ImuLayout.DrainLaid | src/imu_bmi270.c:786-832 | draining it pushes one sample for each of them with what was measured, one period apart up to now; at most 1024 bytes are read |
| GyroglideAxis.NewPosBounds | src/eis_gyroglide.c:283-304 | the offset stays within the margin and moves no further than the slew limit |
| GyroglideAxis.CropExact | src/eis_gyroglide.c:306-319 | the coordinate is margin and offset rounded down to even, with no clamping left to do |
| GyroglideAxis.CropMoves | src/eis_gyroglide.c:306-319 | the window moves by less than the slew limit and two pixels |
| GyroglideAxis.Still | src/eis_gyroglide.c:246-281 | without rotation the offset moves towards the centre and never past it |
| GyroglideAxis.BiasBounded | src/eis_gyroglide.c:215-220 | the bias estimate stays below its threshold for all readings just when the adaption factor is at most one |
| GyroglideAxis.IntegrateBias | src/eis_gyroglide.c:198-221 | over a whole batch |
| GyroLaws.AngleTurned | src/eis_gyroglide.c:198-233 | for readings in order and close together, whatever the rotation: the angle is where the axis points now less where it did at the frame before, less the bias times the time |
| GyroLaws.AngleSteady | src/eis_gyroglide.c:198-233 | a steady rotation turns by its rate, less the bias, times the time |
| GyroLaws.AngleGap | src/eis_gyroglide.c:200-206 | a late reading counts for 50 ms, one from before the frame for nothing |
| GyroLaws.AngleBand | src/eis_gyroglide.c:235-237 | an angle below the deadband counts as none |
| GyroLaws.BiasLearns | src/eis_gyroglide.c:214-220 | small steady readings draw the bias towards them, exponentially |
| GyroLaws.NewPosFree | src/eis_gyroglide.c:239-304 | off the last fifth of the margin, an offset on the move is shifted as it is, or by the slew limit in the direction of the shift |
| GyroLaws.NewPosStill | src/eis_gyroglide.c:246-257 | a still one is drawn to the centre by the recentring rate times the time |
| GyroLaws.NewPosEdge | src/eis_gyroglide.c:259-281 | in the last fifth it is pulled back by 15 times its share beyond it per second |
| GyroLaws.FollowsRotation | src/eis_gyroglide.c:198-304 | a steady rotation that nothing hinders moves the offset by its angle times pixels per radian times gain, up for a rate above the bias and down for one below |
| GyroLaws.SecondsMeans | src/eis_gyroglide.c:92-96 | seconds between two times are their nanoseconds |
| Gyroglide.Size | src/eis_gyroglide.c:475-534 | exactly which configurations are accepted; the window is what the margin leaves or the smallest size allowed, even, with equal margins that leave at most one pixel |
| Gyroglide.State.IntegrateBatch | src/eis_gyroglide.c:191-240 | one loop integrates each axis by itself |
| Gyroglide.State.Compute | src/eis_gyroglide.c:184-316 | offsets, biases and coordinates of a frame, each axis by itself but for the idle test |
| Gyroglide.State.Update | src/eis_gyroglide.c:322-380 | the window lies in the capture and is even after each update, the offset within the margin and the slew limit, in test mode too; a steady rotation that nothing hinders moves the offset by its angle in pixels, to its side, and the window with it; without a sensor the simulated samples enter the ring first; a quiet frame moves towards the centre; the driver's refusal is reported and changes nothing else |
| Gyroglide.State.AfterFollows | src/eis_gyroglide.c:184-304 | each axis follows its own rotation |
| Gyroglide.State.AfterRecentred | src/eis_gyroglide.c:246-257 | where a quiet frame leaves both offsets, exactly |
| Gyroglide.State.constructor | src/eis_gyroglide.c:495-560 | gain, slew limit, deadband, recentring, adaption, test mode and axis flags are as configured, or the default where that makes no sense; the window is centred |
| Gyroglide.State.Simulate | src/eis_gyroglide.c:138-172 | exactly the simulated samples enter the ring, and simulated time goes on by the frame's |
| Gyroglide.State.NeverStarved | src/eis_gyroglide.c:138-172 | without a sensor, no frame lacks samples: they lie in the frame in order, the last one at its end |
| GyroSim.InterpolateMeans | src/eis_gyroglide.c:124-136 | a sample's time is a normal one, its share of the frame behind the frame before |
| GyroSim.SimulatedSpread | src/eis_gyroglide.c:138-172 | the simulated samples lie in the frame, in order, and the last one is at its end |
| Gyroglide.State.PushSample | src/eis_gyroglide.c:382-407 | samples enter the ring with their axes swapped and turned as configured |
| Gyroglide.Create | src/eis_gyroglide.c:473-578 | a valid controller exactly for an acceptable configuration whose first window the driver accepts, configured as asked for; where that window is on either axis |
| Gyroglide.FirstCropIs | src/eis_gyroglide.c:508-538 | margins and smallest size come to one closed form: that share of the capture, at most what a window of 64 pixels leaves on a side |
| Gyroglide.OddFirstWindow | src/eis_gyroglide.c:508-538 | a configuration whose first window is odd |
| RoiBands.ScaleQpGrows | include/pipeline_common.h:42-51 | the QP never shrinks inwards, keeps its sign and is whole at the innermost level |
| RoiBands.LeftNested | src/star6e_controls.c:441-445 | a narrower aligned band lies within a wider one, although each is aligned by itself |
| RoiBands.BandsNest | src/star6e_controls.c:428-457 | bands nest inside the frame with QP never shrinking inwards |
| RoiBands.BandCentred | src/star6e_controls.c:444 | a band is off the middle of the frame by no more than the alignment |
| RoiBands.BandWidthIs | src/star6e_controls.c:438-442 | the innermost band is the centre's share of the frame, each one further out one even part of the rest more, to within the alignment |
| RoiBands.ScaleQpNearest | include/pipeline_common.h:42-51 | the QP of a level is its share of the whole, to the nearest |
| RoiBands.ClampedNearest | src/star6e_controls.c:484-494 | what is configured becomes the nearest QP, number of steps and centre allowed |
| RoiBands.ApplyRoiQp | src/star6e_controls.c:460-519 | the encoder ends with exactly the bands and the rest cleared; where it refuses calls, each region is old, cleared or a band; success means all bands are set |
| Precrop.PrecropFits | src/pipeline_common.c:197-216 | on any sensor with 16-bit sides the crop lies on it, cuts one side only and only if the ratios differ, is even and centred; and exactly when it is less than two pixels short |
| Precrop.PrecropLongest | src/star6e_pipeline.c:862-867 | with an image clamped to the sensor it always is |
| Precrop.ProductWraps | src/pipeline_common.c:206-212 | where a product does not fit 32 bits, it can be empty |

## Left out

- Sockets, I2C, files, the vendor's libraries and the clock: a writer, encoder or socket is an oracle, and times are parameters.
- The H.264 and H.265 frame loops of src/maruko_video.c: the same prepending and slot logic as the H.265 one modelled here.
- JsonParse.ParseNumber: doubles are real numbers, so rounding, overflow to infinity and a locale's decimal point are left out.
- JsonPrinter.Print: numbers of more than fifteen digits, below 0.0001 or printed with an exponent, raw items and allocation failure are not modelled; strings hold no zero byte, as C strings do not.
- JsonParser.ParseWithLengthOpts: on which byte of the text a failure is reported is not modelled, nor allocation failure.
- JsonString.ParseString: a `\u0000` escape yields a zero byte inside the string, at which C code reading it stops.
- JsonList.DetachItemViaPointer: freeing elements, references and names of members are not modelled.
- VencRing.StepRefines: statements are sequentially consistent, and neither the 64-bit indices nor the 32-bit futex counter wrap.
- VencRing.RunInv: creating and attaching the ring is not modelled; a ring starts empty with a power of two of slots.
- RtpPacketizer.SendHevcFu: result counters wrap only where they are added to the stream's statistics.
- HevcRtp.SendFrame: NAL units with a header shorter than two bytes or a type from 48 on are sent, but nothing is said about how a receiver takes them.
- HevcGrouping.SendTogether: NAL units with no room in an aggregation packet and the sets put in front of IDR units are not part of the count; `HevcAggregation.Grouped`, which `HevcRtp.SendOrQueue` promises of every unit, says where these go.
- H26xUtil.StripStartCode: a four-byte start code uncovered by stripping three-byte ones stays, as in the source.
- DebugOsd.DebugOsdState.DrawChar: the bitmaps of the font are a parameter; the scale is the constant 3.
- DebugOsd.DebugOsdState.Text: the formatting of the value is a parameter; the canvas measures at most 65535 by 65535.
- The CPU sampler of the overlay, and the creation of its region.
- Gyroglide.State.Update: floats are reals, so rounding and NaN are left out; the waves of the simulated gyro and the sine of the test mode are parameters.
- ImuFifo.ImuState.ParseAndPush: floats are reals.
- RoiBands.BandsNest: the share of the width is a real number.
- GyroSim.SimulatedSpread: `long long` and `int` do not overflow, which a frame of weeks would make them.
- JsonParser.ParseBuffer.ValueItem: what becomes of the nodes of a text that fails is not modelled.
- Locks: each operation of a ring with a mutex is one step.
- Easy members left out: gain, exposure and rate settings, codec names, sensor modes, audio companding.
