# Transports that carry bytes over video and message channels: a Dafny model

The repository tunnels byte streams through media that were not made for them: SEI messages in
an H.264 stream, black and white tiles in video frames, VP8 frames forwarded by a conference
server, a cloud message bridge. This project models the protocols and codecs that make those
media reliable, and proves what they promise.

| files | what they model |
|---|---|
| `SeiRbsp`, `SeiAccessUnit` | emulation prevention, SEI messages and Annex B access units |
| `SeiFrames`, `SeiReassembly`, `SeiUntrusted`, `SeiArq`, `SeiProgress`, `SeiRecovery`, `SeiRetries`, `SeiTransport` | the fragmenting stop-and-wait protocol of seichannel and videochannel: frames, the receiver on genuine and on arbitrary frames, two endpoints over a lossy FIFO link and how they recover, and the transport as the object it is |
| `TileBits`, `TileGeometry`, `TileLimits`, `TileRender`, `TileCodec`, `VideoTransport` | the tile codec, from payload to shards to pixels and back, and videochannel on top of it |
| `YacReorder`, `YacStreams`, `YacSession`, `YacExact`, `YacLater` | the yac stream multiplexer: reorder buffer, stream manager, and one stream from helper to adapter over an unordered network, with the exact condition for its safety |
| `Vp8Frames`, `Vp8Epoch`, `Vp8Peers`, `KcpFraming` | the vp8channel receive path: frame assembly, epochs, two restarting peers, message framing over KCP |
| `JazzPacket` | SaluteJazz data packets |
| `Bytes`, `Arith` | bytes, words and facts about division |

Protocols are transition systems: a run is any list of events, and every choice of scheduler,
timer, network and peer is an event. Objects whose methods change their fields are classes,
and each method is proved against a function on values, about which the properties are then
proved. CRC-32 is any function of the bytes. The Reed-Solomon library is any that leaves
non-empty shards alone when none is missing.

Some results are about where a promise ends:

- The at-most-once promise rests on the order of the link. The cache of delivered messages is
  emptied when it exceeds 256 entries, and a message is handed up again exactly if it has been
  forgotten and all its fragments arrive once more (`SeiReassembly.HandedUpAgainIff`).
- The tile decoder never repairs anything: it marks no shard as missing
  (`TileCodec.ParityNeverRepairs`), although the comment on `RSPercent` promises recovery.
  The noise margin of the pixels, 63 grey levels, is what protects a frame.
- New checks that a tile module has 1 to 270 pixels, and its comment names that range; but it
  accepts none over 51, and with parity none over 43 (`TileLimits.NewAccepts`).
- What a yac stream writes is a prefix of what was read, unless CloseAll clears the counters or
  drops the buffers at the wrong moment. The condition (`YacSession.Breaks`) is exact: runs that
  keep it keep the promise (`YacSession.ByteStreamSafe`), and after any of them a step is
  forbidden if and only if the promise can be broken after it without a further forbidden step
  (`YacExact.ExactCondition`). The steps of CloseAll are separate critical sections, so a stream
  that is registered between them stays open without its buffer. If the helper has read all by
  then, that is harmless exactly as long as whatever the network can deliver once more, under
  the numbers 1, 2, 3 and so on, happens to continue what was read.
- The comment on `ReadLoop` says that an error sends RST; the code sends FIN in every case,
  and so does the model. Only the bridge sends RST, without a number.
- A reflected frame is recognised by the local epoch only, so one from before a restart is
  taken for the peer's (`Vp8Epoch.StaleEchoResets`).

`dafny verify dfyconfig.toml` checks the project.

## Model

| member | source | states |
|---|---|---|
| SeiArq.ReliableAndOrdered | experiments/b-webrtc/upstream/internal/transport/seichannel/transport.go:199-244 | In every run of two endpoints over FIFO links that may lose any data frame or ack, what onData receives is a subsequence of the Send arguments, in send order and each at most once, also across wipes of the delivered cache; and every Send that returned nil is among it. Both directions, any medium that shows frames as they are |
| SeiArq.RunKeeps | experiments/b-webrtc/upstream/internal/transport/seichannel/transport.go:481-532 | The invariant behind it, kept by every event: frames in flight are genuine fragments, ordered by number and never older than the last message handed up; the last one handed up is always in the cache; acks in flight and in waiters name messages already handed up, with their CRC |
| SeiArq.StepLeftKeeps | experiments/b-webrtc/upstream/internal/transport/seichannel/transport.go:221-243 | Each single step (queueing a fragment, waking by ack, timer or close, writing, losing, arriving) keeps that invariant |
| SeiArq.AcceptKeeps | experiments/b-webrtc/upstream/internal/transport/seichannel/transport.go:481-513 | Accepting a data frame keeps it, and the wipe forgets no number that can still arrive; a message known with this CRC is acked again, unless the transport is closed, and nothing else changes |
| SeiArq.ResolveKeeps | experiments/b-webrtc/upstream/internal/transport/seichannel/transport.go:519-532 | An ack reaches only the waiter for its own number, and only once |
| SeiProgress.EverythingCanBeDelivered | experiments/b-webrtc/upstream/internal/transport/seichannel/transport.go:199-244 | For every list of messages that fit there is a run in which exactly these are handed up, in order, and every Send returns nil at the first attempt |
| SeiRecovery.SendRecovers | experiments/b-webrtc/upstream/internal/transport/seichannel/transport.go:199-244 | Progress with losses: after any run in which a Send waits with attempts left and both ends are open, whatever was lost and whether or not its message has been handed up, one expiry of its timer and one round in which nothing is lost bring the ack, and Send returns nil |
| SeiRecovery.CloseEndsSend | experiments/b-webrtc/upstream/internal/transport/seichannel/transport.go:221-243 | After any run, Close ends a Send under way at its next step with ErrTransportClosed, and nothing is queued |
| SeiRecovery.ClosedQueuesNothing | experiments/b-webrtc/upstream/internal/transport/seichannel/transport.go:384-400 | Once closed, an endpoint queues neither fragments nor acks, whatever happens |
| SeiRecovery.ClosedStillReceives | experiments/b-webrtc/upstream/internal/transport/seichannel/transport.go:481-513 | But it goes on handing up what arrives |
| SeiRetries.SendRetransmits | experiments/b-webrtc/upstream/internal/transport/seichannel/transport.go:221-243 | One call of Send, however its attempts end: all fragments are queued once per attempt up to the first that decides, but for those behind a refused one; it returns nil exactly if the right CRC decides, ErrTransportClosed exactly if a close seen by the select or by enqueueFrame does, and ErrAckTimeout exactly if none does |
| SeiTransport.SeiChannelReliable | experiments/b-webrtc/upstream/internal/transport/seichannel/transport.go:285-293 | The promise of Features() for the whole stack: Send, fragments, SEI messages, Annex B samples and back to onData |
| SeiTransport.SampleRoundTrip | experiments/b-webrtc/upstream/internal/transport/seichannel/transport.go:426-445 | The sample written for a frame shows handleSample exactly that frame; the idle sample shows none |
| SeiTransport.StreamTransport.Send | experiments/b-webrtc/upstream/internal/transport/seichannel/transport.go:199-244 | The method, with its retry loop and the maps it changes, does what the steps of the model do, however each attempt ends: by what its select returns, or by a fragment that enqueueFrame refuses |
| SeiTransport.StreamTransport.HandleInboundFrame | experiments/b-webrtc/upstream/internal/transport/seichannel/transport.go:481-513 | The method changes the receiver as the specification says. A frame of a known message queues its encoded ack again and changes nothing else; what is passed to onData bears the CRC of the frame and is acked; a closed transport queues no ack |
| SeiTransport.StreamTransport.UpsertInbound | experiments/b-webrtc/upstream/internal/transport/seichannel/transport.go:447-468 | Finds or replaces the entry for the number, stores the fragment if its place is empty, and reports completion |
| SeiTransport.StreamTransport.AssembleMessage | experiments/b-webrtc/upstream/internal/transport/seichannel/transport.go:470-479 | Joins the fragments and cuts at totalLen |
| SeiTransport.StreamTransport.HandleSample | experiments/b-webrtc/upstream/internal/transport/seichannel/transport.go:426-445 | Dispatches every frame found in a sample, in order |
| SeiTransport.DecodedAppend | experiments/b-webrtc/upstream/internal/transport/seichannel/transport.go:426-445 | Of the payloads in a sample each that decodes is dispatched; one that does not hides none of the others |
| SeiTransport.StreamTransport.ResolveAck | experiments/b-webrtc/upstream/internal/transport/seichannel/transport.go:519-532 | Fills the waiter of that number if it is there and empty; otherwise changes nothing |
| SeiTransport.StreamTransport.NextOutboundFrame | experiments/b-webrtc/upstream/internal/transport/seichannel/transport.go:363-382 | Acks first, then data, then nothing; a select that sees the transport closed changes nothing, and one that does not may still take a frame |
| SeiTransport.StreamTransport.WriteBatch | experiments/b-webrtc/upstream/internal/transport/seichannel/transport.go:343-361 | The loop writes up to batchSize access units, each of the next frame; the idle one only if nothing is queued at the first turn; it ends the writer where a select sees the close |
| SeiTransport.BatchIsSteps | experiments/b-webrtc/upstream/internal/transport/seichannel/transport.go:343-361 | A tick of the writer is as many write steps of the model as it writes samples |
| SeiTransport.BatchWrites | experiments/b-webrtc/upstream/internal/transport/seichannel/transport.go:343-382 | What a tick writes: the queued frames, all acks before all data, each in order, as many as the batch allows; one idle sample if and only if nothing is queued; and the writer ends exactly if it comes to the turn that sees the close |
| SeiReassembly.ReassemblyIsOrderIndependent | experiments/b-webrtc/upstream/internal/transport/seichannel/transport.go:447-513 | For fragments of any number of messages, interleaved and repeated in any way: as long as a message is incomplete its entry holds exactly the fragments that arrived, and remain counts the missing ones; the last missing one makes the receiver hand it up, byte for byte |
| SeiReassembly.HandedUpAgainIff | experiments/b-webrtc/upstream/internal/transport/seichannel/transport.go:483-506 | A message that was handed up is handed up again if and only if a wipe of the cache has forgotten it and all its fragments have arrived again after that, in any run |
| SeiReassembly.HandedUpExactly | experiments/b-webrtc/upstream/internal/transport/seichannel/transport.go:481-513 | For any run, exactly which fragments make the receiver hand up a message, given what the cache knows and which fragments count |
| SeiReassembly.AtMostOnce | experiments/b-webrtc/upstream/internal/transport/seichannel/transport.go:503-506 | With up to 257 messages none is handed up twice |
| SeiReassembly.HandleGenuine | experiments/b-webrtc/upstream/internal/transport/seichannel/transport.go:481-513 | What one genuine fragment does to any receiver: re-ack, hand up and remember, or keep |
| SeiReassembly.LateDuplicateIsRedelivered | experiments/b-webrtc/upstream/internal/transport/seichannel/transport.go:503-506 | With a 258th message the cache is wiped and a late duplicate of the first is handed up again |
| SeiReassembly.TooManyFragments | experiments/b-webrtc/upstream/internal/transport/seichannel/transport.go:551-563 | A message of 65536 fragments or more is never handed up, whatever of it arrives, because its count does not fit the header |
| SeiUntrusted.OnlyWhatArrived | experiments/b-webrtc/upstream/internal/transport/seichannel/transport.go:447-513 | After any frames at all, forged or broken: what is handed up is made of the payloads of frames that came for its number and agree about CRC, length and count, one for each index in order, cut at the length; and its CRC is theirs |
| SeiUntrusted.AckedIffKnown | experiments/b-webrtc/upstream/internal/transport/seichannel/transport.go:481-513 | For any receiver and any frame: acked if and only if the receiver then knows the message with that CRC |
| SeiUntrusted.EntriesStayOpen | experiments/b-webrtc/upstream/internal/transport/seichannel/transport.go:487-501 | After any frames at all, no full entry is kept, whether its CRC was right or not, so the number can be tried again |
| SeiUntrusted.FilledStays | experiments/b-webrtc/upstream/internal/transport/seichannel/transport.go:463-466 | A fragment that is held is never overwritten while its message is under way |
| SeiUntrusted.OtherMessageReplaces | experiments/b-webrtc/upstream/internal/transport/seichannel/transport.go:449-459 | A frame that disagrees about CRC, length or count replaces the entry under its number |
| SeiFrames.FrameRoundTrip | experiments/b-webrtc/upstream/internal/transport/seichannel/transport.go:551-609 | Decoding an encoded frame gives the frame back, for the magic of either transport |
| SeiFrames.DecodeAcceptsEncodings | experiments/b-webrtc/upstream/internal/transport/seichannel/transport.go:575-609 | Conversely, what decodes is the encoding of what it decodes to, but for bytes behind an ack |
| SeiFrames.EncodingLayout | experiments/b-webrtc/upstream/internal/transport/seichannel/transport.go:551-573 | The place and byte order of every field on the wire |
| SeiFrames.MagicsSpelled | experiments/b-webrtc/upstream/internal/transport/seichannel/transport.go:32-32 | The frames of the two transports begin with OVC1 and OVV2 |
| SeiFrames.EncodeDataFrame | experiments/b-webrtc/upstream/internal/transport/seichannel/transport.go:551-563 | The buffer filled in place is the encoding, with totalLen, fragIdx and fragTotal cut to their widths |
| SeiFrames.EncodeAckFrame | experiments/b-webrtc/upstream/internal/transport/seichannel/transport.go:565-573 | The buffer filled in place is the encoding of the ack |
| SeiFrames.FragmentsJoin | experiments/b-webrtc/upstream/internal/transport/seichannel/transport.go:534-549 | The fragments joined are the message; there are ceil(len/size) of them, one for the empty message; none is longer than size and only the empty message has an empty one |
| SeiFrames.FragmentAt | experiments/b-webrtc/upstream/internal/transport/seichannel/transport.go:534-549 | Fragment k is bytes k*size up to (k+1)*size of the message, or up to its end |
| SeiFrames.FragmentPayload | experiments/b-webrtc/upstream/internal/transport/seichannel/transport.go:534-549 | The loop computes those fragments |
| SeiAccessUnit.AccessUnitRoundTrip | experiments/b-webrtc/upstream/internal/transport/seichannel/h264.go:42-80 | Extraction from an access unit returns exactly the one payload it was built from; from the idle unit, none |
| SeiAccessUnit.AccessUnitSplits | experiments/b-webrtc/upstream/internal/transport/seichannel/h264.go:42-53 | Split at its start codes (ITU-T H.264 section B.1.1) an access unit is exactly SPS, PPS, SEI if there is a payload, and IDR, of NAL unit types 7, 8, 6 and 5 |
| SeiAccessUnit.SeiNalRoundTrip | experiments/b-webrtc/upstream/internal/transport/seichannel/h264.go:82-141 | Parsing the SEI NAL built for a payload finds exactly that payload |
| SeiAccessUnit.SeiNalLayout | experiments/b-webrtc/upstream/internal/transport/seichannel/h264.go:82-98 | What is in the SEI NAL: header 6, and escaped behind it type 5, the size, the 16 bytes of the UUID, the payload and 0x80 |
| SeiAccessUnit.MessagesRead | experiments/b-webrtc/upstream/internal/transport/seichannel/h264.go:100-141 | A unit with any messages of any types and sizes yields exactly those of type 5 that begin with the UUID, in order |
| SeiAccessUnit.CutMessageFails | experiments/b-webrtc/upstream/internal/transport/seichannel/h264.go:120-122 | A message that announces more bytes than are left is an error |
| SeiAccessUnit.EachUnitYields | experiments/b-webrtc/upstream/internal/transport/seichannel/h264.go:59-78 | A NAL unit that cannot be parsed, or is no SEI, yields nothing and hides none of the others |
| SeiAccessUnit.ExtractVideoPayloads | experiments/b-webrtc/upstream/internal/transport/seichannel/h264.go:55-80 | The loop over NAL units collects the messages of the SEI units that parse, in order, and skips the others |
| SeiAccessUnit.ExtractTransportSEI | experiments/b-webrtc/upstream/internal/transport/seichannel/h264.go:100-141 | The loop returns the messages of type 5 that bear the UUID, or the error of the first broken value or length |
| SeiAccessUnit.BuildVideoAccessUnit | experiments/b-webrtc/upstream/internal/transport/seichannel/h264.go:42-53 | Builds the byte stream of those NAL units |
| SeiAccessUnit.BuildSEINAL | experiments/b-webrtc/upstream/internal/transport/seichannel/h264.go:82-98 | Builds the escaped SEI NAL of the payload |
| SeiAccessUnit.SeiValueRoundTrip | experiments/b-webrtc/upstream/internal/transport/seichannel/h264.go:143-164 | A SEI value of any size is read back, whatever surrounds it |
| SeiAccessUnit.ConsumeSEIValue | experiments/b-webrtc/upstream/internal/transport/seichannel/h264.go:151-164 | The loop reads what the specification says, and fails exactly when the bytes end first |
| SeiAccessUnit.AppendSEIValue | experiments/b-webrtc/upstream/internal/transport/seichannel/h264.go:143-149 | The loop appends the value as 0xff bytes and a last one |
| SeiRbsp.EscapeRoundTrip | experiments/b-webrtc/upstream/internal/transport/seichannel/h264.go:171-198 | Unescaping an escaped string gives the string, for all strings (ITU-T H.264 sections 7.3.1 and 7.4.1) |
| SeiRbsp.EscapePrevents | experiments/b-webrtc/upstream/internal/transport/seichannel/h264.go:171-187 | An escaped string holds no 00 00 00, 00 00 01 or 00 00 02, and every 00 00 03 in it stands before a byte of at most 3 |
| SeiRbsp.EscapeImage | experiments/b-webrtc/upstream/internal/transport/seichannel/h264.go:171-198 | And every string with that property is the escaped form of some string: the rule describes exactly what escaping yields |
| SeiRbsp.EscapeRBSP | experiments/b-webrtc/upstream/internal/transport/seichannel/h264.go:171-187 | The loop with its zero counter escapes |
| SeiRbsp.UnescapeRBSP | experiments/b-webrtc/upstream/internal/transport/seichannel/h264.go:189-198 | The loop that looks two bytes back unescapes |
| TileCodec.DecodeEncoded | experiments/b-webrtc/upstream/internal/transport/videochannel/gr/tile/codec.go:126-211 | For every codec New accepts, every payload up to maxPayload and any noise of up to 63 grey levels, decoding what was encoded gives payload, frame id and total, though the two sides cut shards of different size |
| TileCodec.Encode | experiments/b-webrtc/upstream/internal/transport/videochannel/gr/tile/codec.go:126-161 | Fails exactly for payloads over maxPayload; otherwise the frame is the picture of header, CRC, payload and parity |
| TileCodec.Decode | experiments/b-webrtc/upstream/internal/transport/videochannel/gr/tile/codec.go:164-211 | For frames of any content: never reads out of range; fails with the size error exactly for frames of another size; and returns a payload and its numbers if and only if their message, CRC included, stands at the start of the bytes read, as far as these fall into the data shards |
| TileCodec.InterpretIff | experiments/b-webrtc/upstream/internal/transport/videochannel/gr/tile/codec.go:169-211 | The same about the bytes alone, for any wire |
| TileCodec.ParseAccepts | experiments/b-webrtc/upstream/internal/transport/videochannel/gr/tile/codec.go:187-210 | Nothing else parses, and each error says what is wrong: magic, length or CRC |
| TileCodec.ParityNeverRepairs | experiments/b-webrtc/upstream/internal/transport/videochannel/gr/tile/codec.go:169-185 | No shard is ever marked missing, so the result never depends on the parity or the library: the joined shards are the bytes as read |
| TileCodec.UnwireKeepsStart | experiments/b-webrtc/upstream/internal/transport/videochannel/gr/tile/codec.go:169-185 | Re-sharding with the larger size leaves the data where it was |
| TileCodec.WireStarts | experiments/b-webrtc/upstream/internal/transport/videochannel/gr/tile/codec.go:131-158 | The wire starts with the message and fits in the frame |
| TileCodec.WireLayout | experiments/b-webrtc/upstream/internal/transport/videochannel/gr/tile/codec.go:133-157 | And with parity it is the message, zeros up to the end of the data shards, and the parity the library makes for exactly these shards |
| TileCodec.MessageLayout | experiments/b-webrtc/upstream/internal/transport/videochannel/gr/tile/codec.go:131-142 | The place and byte order of every field of the header |
| TileCodec.ParseMessage | experiments/b-webrtc/upstream/internal/transport/videochannel/gr/tile/codec.go:187-210 | Whatever follows a message, parsing gives the message back |
| TileCodec.JoinSplit | experiments/b-webrtc/upstream/internal/transport/videochannel/gr/tile/rs.go:28-55 | n shards joined are the data cut or padded with zeros to n times their size |
| TileCodec.SplitAt | experiments/b-webrtc/upstream/internal/transport/videochannel/gr/tile/rs.go:28-42 | Shard i is the i-th piece of the data, padded |
| TileCodec.SplitShards | experiments/b-webrtc/upstream/internal/transport/videochannel/gr/tile/rs.go:28-42 | The loop computes those shards |
| TileCodec.JoinShards | experiments/b-webrtc/upstream/internal/transport/videochannel/gr/tile/rs.go:44-55 | The loop concatenates |
| TileGeometry.NewSound | experiments/b-webrtc/upstream/internal/transport/videochannel/gr/tile/codec.go:49-106 | For every accepted module size and percentage: the grid lies in the frame, at least one data shard, at most 256 shards, header + maxPayload = dataShards * shardSz, the wire fits in frameBytes, and the shard size of Decode is at least that of Encode |
| TileGeometry.NewFillsFrame | experiments/b-webrtc/upstream/internal/transport/videochannel/gr/tile/codec.go:57-79 | And nothing is wasted: no further column, row, byte or shard byte would fit |
| TileLimits.NewAccepts | experiments/b-webrtc/upstream/internal/transport/videochannel/gr/tile/codec.go:49-85 | What New answers, for any configuration: a codec if and only if the percentage is in 0..200 and the module in 1..51 without parity, 1..43 up to 100 percent, 1..38 above; and which error otherwise |
| TileLimits.DefaultCodec | experiments/b-webrtc/upstream/internal/transport/videochannel/gr/tile/codec.go:29-31 | The default, modules of 4 and 20 percent: 270 columns and rows, 34 and 7 shards of 218 bytes, 7392 bytes of payload |
| TileGeometry.ShardCounts | experiments/b-webrtc/upstream/internal/transport/videochannel/gr/tile/rs.go:5-22 | At least one shard of each kind, at most 256 in all, and the last loop of rsShards has nothing to do |
| TileGeometry.ParityCovers | experiments/b-webrtc/upstream/internal/transport/videochannel/gr/tile/rs.go:5-22 | The parity shards are the fewest that reach the percentage, and at least one |
| TileGeometry.DataShards | experiments/b-webrtc/upstream/internal/transport/videochannel/gr/tile/rs.go:5-22 | One data shard per 256 bytes, at least one; fewer only if these and their parity were more than 256, and then as many as leave room for that parity |
| TileGeometry.RsShards | experiments/b-webrtc/upstream/internal/transport/videochannel/gr/tile/rs.go:5-22 | The reassignments and the loop compute these counts, and the loop ends |
| TileRender.NoiseMargin | experiments/b-webrtc/upstream/internal/transport/videochannel/gr/tile/render.go:41-63 | Reading a frame whose sampled pixels are within 63 levels of the picture yields the wire followed by zeros, for every module size and every wire that fits |
| TileRender.NoiseMarginIsExact | experiments/b-webrtc/upstream/internal/transport/videochannel/gr/tile/render.go:41-63 | 64 levels at the centre of a single black cell break it |
| TileRender.ReadsWire | experiments/b-webrtc/upstream/internal/transport/videochannel/gr/tile/render.go:41-63 | A frame reads as the wire and zeros if and only if every sampled pixel is on its side of the threshold |
| TileRender.ModuleCell | experiments/b-webrtc/upstream/internal/transport/videochannel/gr/tile/render.go:23-28 | Module k lies in the data rows, outside both sync bands |
| TileRender.CellModule | experiments/b-webrtc/upstream/internal/transport/videochannel/gr/tile/render.go:23-28 | Different modules have different cells, and every data cell is a module |
| TileRender.CentreInCell | experiments/b-webrtc/upstream/internal/transport/videochannel/gr/tile/render.go:41-57 | The sampled pixel lies in the module's own cell, so the clamps do nothing |
| TileRender.RenderFrame | experiments/b-webrtc/upstream/internal/transport/videochannel/gr/tile/render.go:3-39 | The nested loops draw, for every pixel, the colour of its cell |
| TileRender.PictureSpelled | experiments/b-webrtc/upstream/internal/transport/videochannel/gr/tile/render.go:3-39 | That colour, in numbers: 192 outside the grid, columns of 64 and 192 in the bands, and between them the bits of the bytes row by row, the most significant first |
| TileRender.RenderSync | experiments/b-webrtc/upstream/internal/transport/videochannel/gr/tile/render.go:65-82 | Alternating columns in the given rows, every other pixel as before |
| TileRender.ReadFrame | experiments/b-webrtc/upstream/internal/transport/videochannel/gr/tile/render.go:41-63 | Bit k of the result is set exactly if the centre of module k is dark |
| TileBits.SetBitSets | experiments/b-webrtc/upstream/internal/transport/videochannel/gr/tile/render.go:58-60 | Setting bit k of a byte sets that bit and no other |
| VideoTransport.VideoChannelReliable | experiments/b-webrtc/upstream/internal/transport/videochannel/transport.go:580-612 | The same protocol over pictures: subsequence, order, at most once and acked-means-delivered, for every accepted tile codec and any channel that shifts grey levels by up to 63 |
| VideoTransport.ExtractRendered | experiments/b-webrtc/upstream/internal/transport/videochannel/visual.go:66-85 | A payload that fits, rendered and carried by such a channel, is extracted as it was |
| VideoTransport.ExtractIdle | experiments/b-webrtc/upstream/internal/transport/videochannel/visual.go:66-73 | The idle picture yields no payload, also through such a channel |
| YacReorder.LongestPrefix | experiments/c-yc-tunnel/upstream/adapter-and-helper/internal/streams/streams.go:193-232 | After any arrivals drawn with repetition from a stream's numbered frames, mixed with any other streams: the handler has been called exactly on frames 1..k in order, k is the largest with 1..k all arrived, and pending holds exactly what has arrived beyond k |
| YacReorder.EverythingDelivered | experiments/c-yc-tunnel/upstream/adapter-and-helper/internal/streams/streams.go:193-232 | Once every frame has arrived at least once, all have been handed on and none is kept |
| YacReorder.HandleTouchesOne | experiments/c-yc-tunnel/upstream/adapter-and-helper/internal/streams/streams.go:199-208 | A frame changes the buffer of its own stream only, and only that stream's frames reach the handler |
| YacReorder.UnorderedPasses | experiments/c-yc-tunnel/upstream/adapter-and-helper/internal/streams/streams.go:194-197 | Without reordering, or without a number, a frame is handed on by itself and no buffer is touched |
| YacStreams.Manager.HandleStreamFrame | experiments/c-yc-tunnel/upstream/adapter-and-helper/internal/streams/streams.go:193-232 | The method with its drain loop, over the map of buffer objects, does what the specification says; the loop ends |
| YacStreams.ReorderBuffer.Accept | experiments/c-yc-tunnel/upstream/adapter-and-helper/internal/streams/streams.go:207-231 | The part under the buffer's lock |
| YacStreams.Manager.SendFrame | experiments/c-yc-tunnel/upstream/adapter-and-helper/internal/streams/streams.go:95-101 | Numbers the frame with the next number of its stream, failing sends included |
| YacStreams.Manager.HandleData | experiments/c-yc-tunnel/upstream/adapter-and-helper/internal/streams/streams.go:104-117 | Writes to the stream registered under the id, unless it is closed |
| YacStreams.Manager.CloseStream | experiments/c-yc-tunnel/upstream/adapter-and-helper/internal/streams/streams.go:147-158 | Closing twice is closing once; the first time the stream goes with its counter and, on the adapter, its buffer, and its numbering starts again |
| YacStreams.Manager.Remove | experiments/c-yc-tunnel/upstream/adapter-and-helper/internal/streams/streams.go:81-91 | Forgets the stream, its counter and, on the adapter, its buffer |
| YacStreams.Manager.ReadLoop | experiments/c-yc-tunnel/upstream/adapter-and-helper/internal/streams/streams.go:238-311 | Everything read is in the DATA payloads, in order, before the FIN; none is empty, none over 65535 bytes with coalescing or 32768 without; numbers are consecutive until another goroutine closes the stream, in any turn of the loop or at any place behind it; after that at most one frame follows, numbered 1 again, which is the FIN if the close comes after the test of s.closed; FIN exactly if nobody else had closed the stream at that test. It stops before the reads end only at a broken read, a close, or without coalescing a failed send, and at each of these |
| YacStreams.Manager.Turn | experiments/c-yc-tunnel/upstream/adapter-and-helper/internal/streams/streams.go:272-310 | One turn of the loop: what it sends and what it holds back with and without coalescing; an expired deadline leaves nothing held; a failed send without coalescing stops the loop; the balance of bytes is kept with a close before its first send or before its second |
| YacStreams.Manager.ReadAll | experiments/c-yc-tunnel/upstream/adapter-and-helper/internal/streams/streams.go:272-310 | The loop: payloads sent plus the coalesce buffer are the bytes read so far |
| YacStreams.SendBalanced | experiments/c-yc-tunnel/upstream/adapter-and-helper/internal/streams/streams.go:243-256 | Sending keeps that balance, under the next number or, after a close, under the number 1 |
| YacSession.ByteStreamSafe | experiments/c-yc-tunnel/upstream/adapter-and-helper/cmd/helper/main.go:206-253 | For any loss, repetition, delay and reordering of frames, any cutting and gathering of reads, and closes at any moment: what is written to the first connection registered for a stream is a prefix of what the helper has read, unless a step of CloseAll comes at a moment that YacSession.Breaks names |
| YacSession.ByteStreamComplete | experiments/c-yc-tunnel/upstream/adapter-and-helper/cmd/adapter/main.go:176-199 | When every numbered frame has come through and nothing is held back, it is all of it |
| YacSession.RunKeeps | experiments/c-yc-tunnel/upstream/adapter-and-helper/internal/streams/streams.go:193-232 | The invariant: DATA exists only after OPEN_OK, OPEN_OK only after a connection is registered; what the first buffer has handed on is what was written, and what a later one hands on always fits behind what was written before |
| YacExact.BreakingStepBreaks | experiments/c-yc-tunnel/upstream/adapter-and-helper/internal/streams/streams.go:160-187 | After any run that keeps the condition, every step of CloseAll that it forbids there can be followed by events, none of them forbidden where it stands, after which what was written is no prefix of what was read |
| YacExact.ExactCondition | experiments/c-yc-tunnel/upstream/adapter-and-helper/internal/streams/streams.go:160-187 | So the condition is exact: after any run that keeps it, a step breaks it if and only if the promise can be broken after that step by events that do not break it themselves |
| YacExact.WithoutCloseAll | experiments/c-yc-tunnel/upstream/adapter-and-helper/internal/streams/streams.go:160-187 | The condition is about CloseAll alone |
| YacExact.CloseAllCanBreak | experiments/c-yc-tunnel/upstream/adapter-and-helper/internal/streams/streams.go:165-186 | There are such moments on either side: once OPEN has come, while the connection is dialled and also when it is registered between the snapshot that CloseAll takes and its reset of the buffers |
| YacExact.DropCanBeHarmless | experiments/c-yc-tunnel/upstream/adapter-and-helper/internal/streams/streams.go:181-186 | And a run after which CloseAll may drop the buffers although a byte has been written and the connection is open |
| YacLater.LaterConnection | experiments/c-yc-tunnel/upstream/adapter-and-helper/cmd/adapter/main.go:98-109 | A connection that comes later, after the first was closed and OPEN came again, is given what was read from where the buffer stood when it was registered: a prefix if no bytes were handed on while it was dialled, else only as far as the bytes repeat at that distance; and when all has come through it has everything if and only if none was |
| YacLater.LaterConnectionEnds | experiments/c-yc-tunnel/upstream/adapter-and-helper/internal/streams/streams.go:147-158 | Once such a connection is closed or no longer the current one, it keeps what it has for ever: neither the event that ends it nor anything after it writes to it |
| YacLater.EveryOpenAccounted | experiments/c-yc-tunnel/upstream/adapter-and-helper/cmd/adapter/main.go:174-199 | In any run every OPEN handed on is being dialled, has failed to be, or has become a connection |
| YacLater.MissedWhileDialling | experiments/c-yc-tunnel/upstream/adapter-and-helper/internal/streams/streams.go:104-108 | A run in which the second connection misses the first byte, because DATA for a stream without a connection is dropped |
| Vp8Frames.FrameIffRun | experiments/b-webrtc/upstream/internal/transport/vp8channel/transport.go:418-459 | Whatever was received before, a packet returns a frame if and only if the packets end in a run of decodable ones with consecutive numbers modulo 65536 that starts at the latest S=1, ends at the marker and totals at least 28 bytes; and then the frame is that run joined |
| Vp8Frames.PacketizedFrameArrives | experiments/b-webrtc/upstream/internal/transport/vp8channel/transport.go:418-459 | A frame cut into packets comes out whole behind any history |
| Vp8Frames.FrameAssembler.ProcessRTPPacket | experiments/b-webrtc/upstream/internal/transport/vp8channel/transport.go:418-459 | The method on its fields does what the specification says |
| Vp8Epoch.NoiseIsIgnored | experiments/b-webrtc/upstream/internal/transport/vp8channel/transport.go:504-520 | Inserting frames with a foreign token, or the endpoint's own reflected, changes nothing at all |
| Vp8Epoch.ResetsAreChanges | experiments/b-webrtc/upstream/internal/transport/vp8channel/transport.go:522-539 | Resets by incoming frames are exactly the changes of epoch among the accepted ones |
| Vp8Epoch.RestartsBoundResets | experiments/b-webrtc/upstream/internal/transport/vp8channel/transport.go:363-384 | r restarts of the peer over a link that keeps order cause at most r resets; none, none |
| Vp8Epoch.SessionsDoNotMix | experiments/b-webrtc/upstream/internal/transport/vp8channel/transport.go:541-549 | No KCP session is ever given payloads of two epochs, and the present one only those of the present epoch |
| Vp8Epoch.PayloadsComeThrough | experiments/b-webrtc/upstream/internal/transport/vp8channel/transport.go:504-550 | If sessions start, KCP is given exactly the payloads of the accepted frames, in order, but for empty ones and for the frame that announces a new epoch |
| Vp8Epoch.SessionsEnd | experiments/b-webrtc/upstream/internal/transport/vp8channel/transport.go:363-384 | With a reconnect of the carrier, or a new epoch, the session ends: the next start decides whether there is one again, and in no continuation does a payload go to a session started before |
| Vp8Epoch.SessionStays | experiments/b-webrtc/upstream/internal/transport/vp8channel/transport.go:484-498 | Nothing else ends a session |
| Vp8Epoch.SessionIsLatest | experiments/b-webrtc/upstream/internal/transport/vp8channel/transport.go:484-498 | Whichever starts fail, the session is the last one that could be started |
| Vp8Epoch.AcceptedSpelled | experiments/b-webrtc/upstream/internal/transport/vp8channel/transport.go:504-520 | Accepted are the frames with the token at bytes 20 to 23 and another epoch than the local one at 24 to 27, big-endian |
| Vp8Epoch.HeaderLayout | experiments/b-webrtc/upstream/internal/transport/vp8channel/transport.go:192-198 | The place of token and epoch behind the 20 bytes of the keepalive frame |
| Vp8Epoch.HeaderRoundTrip | experiments/b-webrtc/upstream/internal/transport/vp8channel/transport.go:192-198 | Token, epoch and payload are read back from the header and what follows it |
| Vp8Epoch.StreamTransport.HandleIncomingFrame | experiments/b-webrtc/upstream/internal/transport/vp8channel/transport.go:504-550 | The method on its fields does what the specification says, whether or not sessions start |
| Vp8Epoch.StaleEchoResets | experiments/b-webrtc/upstream/internal/transport/vp8channel/transport.go:513-520 | A reflection from before the endpoint's own restart is not recognised and causes two resets |
| Vp8Peers.ResetsBoundedByRestarts | experiments/b-webrtc/upstream/internal/transport/vp8channel/transport.go:372-376 | Two endpoints that both may restart, over lossy FIFO links with reflections and noise: over all its lives each has reset at most as often as the other has restarted |
| Vp8Peers.SecondFrameArrives | experiments/b-webrtc/upstream/internal/transport/vp8channel/transport.go:522-550 | And they find each other again: after any run, the second of two frames that arrive is given to the session of the other end, which knows the present epoch from the first on |
| KcpFraming.SendersDoNotTear | experiments/b-webrtc/upstream/internal/transport/vp8channel/kcp.go:132-149 | For senders interleaved in any way under writeMu, and a session that may go down anywhere, also in the middle of writing a header or a message: the stream parses to exactly the messages whose send succeeded, but for empty ones, each once, in the order of the lock |
| KcpFraming.RefusedIffTooLarge | experiments/b-webrtc/upstream/internal/transport/vp8channel/kcp.go:132-135 | In any run a message is refused as too large if and only if it is longer than 8 MiB, and every other call runs or has been answered |
| KcpFraming.FailedOnlyWhenDown | experiments/b-webrtc/upstream/internal/transport/vp8channel/kcp.go:142-147 | A call fails only if the session is down |
| KcpFraming.CallGoesThrough | experiments/b-webrtc/upstream/internal/transport/vp8channel/kcp.go:132-149 | After any run with the session up and the lock free, a call succeeds in four steps, and the stream is longer by the big-endian length and the message |
| KcpFraming.TooLongEndsReading | experiments/b-webrtc/upstream/internal/transport/vp8channel/kcp.go:109-114 | A length over 8 MiB ends the reading, whatever follows |
| KcpFraming.ParseStream | experiments/b-webrtc/upstream/internal/transport/vp8channel/kcp.go:96-122 | A stream of messages of at most 8 MiB parses to the non-empty ones, whatever follows |
| KcpFraming.ParseMonotone | experiments/b-webrtc/upstream/internal/transport/vp8channel/kcp.go:96-122 | At every moment what has been handed up is the beginning of what the whole stream holds |
| KcpFraming.Session.ReadLoop | experiments/b-webrtc/upstream/internal/transport/vp8channel/kcp.go:96-122 | The loop hands up what the bytes say, however they are chunked |
| KcpFraming.Session.ReadFull | experiments/b-webrtc/upstream/internal/transport/vp8channel/kcp.go:101-116 | Reads exactly n bytes over any chunks, or fails exactly if fewer are left |
| JazzPacket.PacketRoundTrip | experiments/b-webrtc/upstream/internal/provider/jazz/datapacket.go:37-66 | Decoding an encoded packet returns the payload, whatever the message id; the empty payload is taken for none |
| JazzPacket.FieldsRoundTrip | experiments/b-webrtc/upstream/internal/provider/jazz/datapacket.go:68-92 | For any fields of any wire type in any order the parser returns what the last one with the number carries |
| JazzPacket.BrokenFieldStops | experiments/b-webrtc/upstream/internal/provider/jazz/datapacket.go:68-92 | A broken field ends the parsing and what stood before it is returned |
| JazzPacket.WhatIsBroken | experiments/b-webrtc/upstream/internal/provider/jazz/datapacket.go:94-122 | Broken are the wire types other than 0, 1, 2 and 5, and a length beyond the end |
| JazzPacket.PacketLayout | experiments/b-webrtc/upstream/internal/provider/jazz/datapacket.go:37-47 | The bytes of a short packet |
| JazzPacket.ParsedIsPart | experiments/b-webrtc/upstream/internal/provider/jazz/datapacket.go:68-92 | On arbitrary bytes, what the parser returns stands in them |
| JazzPacket.VarintRoundTrip | experiments/b-webrtc/upstream/internal/provider/jazz/datapacket.go:12-16 | Every uint64 is read back, whatever follows |
| JazzPacket.UvarintInRange | experiments/b-webrtc/upstream/internal/provider/jazz/datapacket.go:49-55 | Whatever is read fits a uint64 |
| JazzPacket.UvarintReads | experiments/b-webrtc/upstream/internal/provider/jazz/datapacket.go:49-55 | Any encoding of at most ten bytes is read for what its groups of seven bits are worth, shortest or not |
| JazzPacket.UvarintFails | experiments/b-webrtc/upstream/internal/provider/jazz/datapacket.go:49-55 | And everything else is an error |
| JazzPacket.ParseFields | experiments/b-webrtc/upstream/internal/provider/jazz/datapacket.go:68-92 | The loop ends on arbitrary bytes and computes the result of the specification |
| JazzPacket.ByteReader.ReadUvarint | experiments/b-webrtc/upstream/internal/provider/jazz/datapacket.go:49-55 | The loop over single bytes, with its limit of ten |
| JazzPacket.ByteReader.HandleWireType | experiments/b-webrtc/upstream/internal/provider/jazz/datapacket.go:94-122 | Takes a field by its wire type, and moves on |
| JazzPacket.ByteReader.ReadDelimited | experiments/b-webrtc/upstream/internal/provider/jazz/datapacket.go:99-112 | The length test never underflows; an empty field at the very end counts as broken |

## Left out

- SeiArq.ReliableAndOrdered: asks for messages of at most 65535 fragments and 2^32 - 1 bytes (`SeiReassembly.TooManyFragments` shows that larger counts are never handed up), for fewer than 2^32 sends per endpoint, since sequence numbers wrap, for one remote track and for no process restart.
- SeiTransport.StreamTransport.Send: takes how its attempts end as a list; the interleaving of the goroutines is in SeiArq, where queueing, writing, closing and arriving are separate events. Queue capacities (256 and 64) only delay a sender and are not modelled.
- SeiAccessUnit.AccessUnitSplits: the splitter is the byte stream syntax of ITU-T H.264 section B.1.1 as a specification; the NAL reader library is not part of this model.
- TileCodec.DecodeEncoded: the Reed-Solomon library is a parameter, so repair of damaged shards is not claimed; TileCodec.ParityNeverRepairs shows that the decoder does not ask for it. `math.Ceil` of small quotients is exact integer division.
- VideoTransport.VideoChannelReliable: the video encoder, the network and the decoder are one function on pictures, with losses as events; QR codes, and an encoder that repeats frames, are not part of this model. A frame too long for the tile is not sent, so the fragment size has to fit.
- YacSession.ByteStreamSafe: is about the first connection registered for a stream (later ones are in YacLater.LaterConnection) and numbers below 2^32 - 1. Errors of Conn.Write, and a close or a registration in the middle of handing on the frames that one arrival releases, only shorten what is written and are not events of their own. Stream ids that wrap are not modelled, nor is a helper that restarts: its ids and numbers begin at 1 again while the adapter may still hold the buffers of its former life. handleConn and the dispatch are modelled as steps on values, since what matters is their interleaving.
- YacExact.ExactCondition: asks for room for one more number before 2^32 - 1.
- YacExact.BreakingStepBreaks: asks for the same room.
- YacLater.LaterConnection: is about a connection whose buffer is the one it was registered with; if a Remove for the stream's former connection, or CloseAll, drops the buffer while this one is open, nothing is said of what a new buffer gives it.
- YacStreams.Manager.ReadLoop: the connection is a list of read results, and the close by another goroutine is a parameter that names the moment.
- YacStreams.Manager.CloseStream: CloseAll, which closes every stream in turn, appears only as events of YacSession.
- Vp8Peers.ResetsBoundedByRestarts: one remote track, and reflections only of the present life; two endpoints that draw the same epoch ignore each other.
- KcpFraming.SendersDoNotTear: KCP itself is an ordered byte stream that may go down and then stays down; a write that fails has put fewer bytes than it was given, as io.Writer asks.
- JazzPacket.PacketRoundTrip: the message id, a random UUID in the source, is any byte string.
- The direction from adapter to helper of the yac tunnel has no reorder buffer and no such promise.
- WebSocket, WebRTC, HTTP and ffmpeg code, timers, logging, configuration, the cloud bridge, SOCKS5, the Python, Ansible and shell parts.
- The fixed-layout codecs of the yac control frames and the registries, which would add only easy members.
