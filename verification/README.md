# livelib: wire formats and stream state

This project models the wire-format and stream-state code of a live-streaming server that takes RTMP
in and serves RTMP, FLV and HLS, and proves that what one side writes the other side reads.

The model has two layers. Functions state the formats and the state machines; lemmas prove their
round trips, invariants and conservation laws over whole runs. Classes and methods follow the source
statement by statement where it updates state, and are proved to refine the functions, so that the
laws hold of them. The functions themselves are held to the formats by lemmas that give bytes, type
numbers and limits as plain numbers.

| files | what they model |
|---|---|
| `Bytes`, `Av` | fixed-width integers, parsing results; media packets |
| `ChunkSpec`, `ChunkProtocol`, `ChunkRuns`, `Acknowledgement`, `ReadWriter`, `RtmpConn` | the RTMP chunk layer (RTMP 1.0, sections 5.3 and 5.4) |
| `Ts`, `Psi`, `Crc`, `TsMuxer` | MPEG-TS packets (ISO/IEC 13818-1, sections 2.4.3 and 2.4.4, Annex A) |
| `FlvTag`, `AnnexB`, `Adts`, `Segments`, `SegmentCuts`, `Receivers`, `SegmentProofs`, `SegmentCounters`, `Playlist`, `HlsSource` | the HLS segmenter, its codecs and its playlist (RFC 8216, section 4.3.3) |
| `Amf0`, `Amf0Proofs`, `Amf0Forms`, `Amf0Codec`, `Amf3`, `Amf3Proofs`, `Amf3Forms`, `Amf3Values`, `Amf3Codec`, `AmfStreams` | the AMF0 and AMF3 codecs |
| `Metadata`, `FlvFile` | FLV files (Adobe FLV 10.1, sections E.2 to E.4) |
| `Replay`, `Channel` | the caches of a channel and what late joiners get |
| `PacketQueue`, `Relay` | the queues that drop the oldest packets, and the connection behind them |

Where a law fails of the code, the model keeps the code and states exactly when the law holds:

- A Set Chunk Size message below 4 is not received, so a run of messages that holds one is not (`ChunkRuns.RunExact`).
- A key frame whose PES is shorter than a packet loses payload unless it has exactly 176 bytes (`Ts.LosslessExact`).
- Time stamps of 2^33 and more wrap off by one (`Ts.TimeStampExact`).
- ADTS lengths hold up to 8184 bytes (`Adts.LengthExact`), configurations up to object type 4 and channel field 3 (`Adts.FieldsExact`).
- The acknowledgement counter forgets an unacknowledged total at 0xf0000000 (`Acknowledgement.CountExact`).
- AMF0 objects with an empty key or one above 65535 bytes do not come back (`Amf0Proofs.RoundTripExact`).
- AMF3 integers from 2^28 on come back negative (`Amf3Proofs.IntegerExact`), byte slices as arrays, objects without class (`Amf3Values.ReceivedExact`).
- An AMF3 string cut short by the end of the input is completed with zeros (`Amf3Proofs.ShortString`).
- A frame whose first unit is a single byte is passed on unconverted, since its length prefix reads as a start code (`AnnexB.Dispatches`).
- A `bytes.Reader` cannot finish a value that ends in an empty string at the end of its input (`Amf0Proofs.DecodeLocal`).
- A configuration record with more behind its first PPS stores all of it as that PPS (`AnnexB.SetsExact`).
- Metadata that repeats the command, or names nothing after it, loses it (`Metadata.AddedForm`).
- A group of 1024 packets freezes the cache for good, and later joiners miss frames (`Replay.GopExact`, `Replay.LateJoiner`).
- A message without a header behind a format-0 one repeats its time stamp (`ChunkProtocol.RepeatBehindFull`).

## Model

| member | source | states |
|---|---|---|
| ChunkProtocol.ReassemblesFromStart | protocol/rtmp/core/conn.go:47-225 | any legal run of a sender, interleaving messages on chunk streams 2..63 chunk by chunk with compressed headers and chunk-size changes, is read as exactly the messages it completes, in the order of their last chunks |
| ChunkProtocol.Reassembles | protocol/rtmp/core/conn.go:47-225 | the same from any agreeing pair of sender and reader and before any further input; afterwards the two sides agree again, chunk size included |
| ChunkProtocol.ReadsChunk | protocol/rtmp/core/conn.go:65-225 | one chunk of any format is read whole, the reader agrees with the sender afterwards, and it completes a message exactly when the sender does |
| ChunkProtocol.EachMessageOnce | protocol/rtmp/core/conn.go:47-63 | on each chunk stream the messages begun are, in order and each once, those completed and the one in flight |
| ChunkProtocol.PlainCompletes | protocol/rtmp/core/conn.go:96-207 | replacing every header by the full format keeps a run legal and completes the same messages |
| ChunkProtocol.CompressionTransparent | protocol/rtmp/core/conn.go:96-207 | a run with compressed headers is read as the same messages as its encoding with full headers |
| ChunkProtocol.ExtendedContinuation | protocol/rtmp/core/conn.go:193-204 | on a continuation chunk of a message with an extended field, the reader takes the four bytes off exactly when they repeat the timestamp |
| ChunkProtocol.RepeatBehindFull | protocol/rtmp/core/conn.go:169-192 | a new message without a header behind format 0 is read with the field as its time stamp; this agrees with adding the field as a delta exactly when the earlier time stamp is 0 |
| ChunkProtocol.HeaderLayout | protocol/rtmp/core/chunk_stream.go:36-100 | the header bytes of each format with a short stream id: two bits of format, 24-bit big-endian fields, a little-endian message stream, and the full time stamp or delta behind the header from 0xffffff on |
| ChunkProtocol.IdLayout | protocol/rtmp/core/chunk_stream.go:36-60 | longer stream ids: one byte less 64, or two little-endian bytes behind a first byte that the writer doubles; the reader takes one or two such bytes |
| ChunkProtocol.StampsRead | protocol/rtmp/core/conn.go:97-168 | a full header sets the time stamp, a delta is added to it modulo 2^32 |
| ChunkRuns.ReceivesWrite | protocol/rtmp/core/conn.go:227-233 | one `Write` is received as its message, under whatever follows, and chunk sizes agree again |
| ChunkRuns.ReceivesRun | protocol/rtmp/core/conn.go:227-280 | any run of writes is received as exactly the messages written, and chunk sizes agree after it, although writer and reader switch at different points |
| ChunkRuns.PeerReceivesRun | protocol/rtmp/core/conn.go:227-280 | the same between two fresh connections |
| ChunkRuns.RunExact | protocol/rtmp/core/conn.go:227-280 | the messages of any run of writes reach the peer in order, before whatever follows, exactly when no chunk size below 4 is announced |
| ChunkRuns.SetChunkSizeExact | protocol/rtmp/core/conn.go:227-233 | a Set Chunk Size message on any message stream reaches the peer exactly when the size it announces is at least 4 |
| ChunkRuns.SmallSizeGarbles | protocol/rtmp/core/conn.go:227-233 | a size of 1 to 3 splits its own announcement and the peer does not read it |
| ChunkRuns.AnnouncedSize | protocol/rtmp/core/conn.go:227-280 | the peer of a writer that sends the Set Chunk Size message of a value from 4 on reads with that chunk size afterwards |
| ChunkRuns.ControlOnWire | protocol/rtmp/core/conn.go:297-308 | a control message on the wire: full header on chunk stream 2, time stamp 0, length 4, its type, message stream 0, then the value |
| ChunkSpec.ReadFullWellSized | protocol/rtmp/core/conn.go:65-225 | from records whose sizes add up, a complete message has as many bytes as its header announced |
| ChunkSpec.ControlValueIs | protocol/rtmp/core/conn.go:273-280 | the value of a control message is its first four bytes, most significant first |
| Acknowledgement.ControlEffect | protocol/rtmp/core/conn.go:273-280 | message type 1 sets the chunk size and type 5 the window, each to the four big-endian bytes, and no other type changes them |
| Acknowledgement.AcksExact | protocol/rtmp/core/conn.go:282-295 | behind any run from any settled counter, the next message is acknowledged exactly when the bytes that no acknowledgement has covered reach the window in force, and with their number; so none goes out early or late |
| Acknowledgement.ReceivedExact | protocol/rtmp/core/conn.go:282-284 | over any run the received counter is the byte total modulo 2^32 |
| Acknowledgement.CountExact | protocol/rtmp/core/conn.go:282-295 | counting a message adds exactly its size unless the counter wraps or the restart at 0xf0000000 meets a total that was never acknowledged |
| Acknowledgement.StepSettles | protocol/rtmp/core/conn.go:273-295 | with windows up to 0xef000000 each message is fully counted and leaves the count below the window or at zero |
| Acknowledgement.Conservation | protocol/rtmp/core/conn.go:273-295 | over any run, the acknowledged values and the unacknowledged count add up to all bytes received |
| RtmpConn.Conn.constructor | protocol/rtmp/core/conn.go:35-45 | a connection starts with chunk size 128 both ways, a window of 2500000 and no streams |
| RtmpConn.Conn.Read | protocol/rtmp/core/conn.go:47-63 | returns the message the specified reader finds, applies control messages, counts it and sends the acknowledgement that is due; fails exactly when reading fails or a control body or the chunk size is too small |
| RtmpConn.Conn.ReadNextChunk | protocol/rtmp/core/conn.go:65-225 | refines the specified chunk reader: same record, remaining input and completion flag, the other streams unchanged |
| RtmpConn.Conn.StreamFor | protocol/rtmp/core/conn.go:72-76 | the record of a stream id, made fresh on its first chunk |
| RtmpConn.Conn.BeginChunk | protocol/rtmp/core/conn.go:65-80 | splits the basic header and refuses a header other than format 3 inside a message |
| RtmpConn.ChunkStream.ReadFullHeader | protocol/rtmp/core/conn.go:97-124 | format 0: all fields, extended timestamp, fresh payload |
| RtmpConn.ChunkStream.ReadLengthHeader | protocol/rtmp/core/conn.go:125-150 | format 1: delta, length and type |
| RtmpConn.ChunkStream.ReadDeltaHeader | protocol/rtmp/core/conn.go:151-168 | format 2: delta only |
| RtmpConn.ChunkStream.ReadNoHeader | protocol/rtmp/core/conn.go:169-204 | format 3: a repeated message or the continuation of one, with the peeked extended timestamp |
| RtmpConn.ChunkStream.ReadRest | protocol/rtmp/core/conn.go:81-225 | everything after the basic header: id, message header, payload |
| RtmpConn.ChunkStream.Init | protocol/rtmp/core/chunk_stream.go:29-34 | the record is ready for a new payload of its length |
| RtmpConn.ChunkStream.Full | protocol/rtmp/core/chunk_stream.go:25-27 | a message is reported full only when none of its payload is missing |
| RtmpConn.ChunkStream.WriteHeader | protocol/rtmp/core/chunk_stream.go:36-100 | appends exactly the specified basic and message header |
| RtmpConn.ChunkStream.WriteChunk | protocol/rtmp/core/chunk_stream.go:102-137 | appends exactly the chunks of the message at the given size; fails exactly for lengths above 24 bits |
| RtmpConn.Conn.Write | protocol/rtmp/core/conn.go:227-233 | appends the bytes of the message; a Set Chunk Size message (type 1) is itself written with the new size, its four big-endian bytes |
| RtmpConn.Conn.HandleControlMsg | protocol/rtmp/core/conn.go:273-280 | type 1 sets the chunk size and type 5 the window to the four big-endian bytes of the body; nothing else changes |
| RtmpConn.Conn.Ack | protocol/rtmp/core/conn.go:282-295 | updates the counters as specified and writes an Acknowledgement message exactly when one is due |
| RtmpConn.Conn.InitControlMsg | protocol/rtmp/core/conn.go:297-308 | control messages travel on chunk stream 2 with a four-byte big-endian body |
| RtmpConn.Conn.NewAck | protocol/rtmp/core/conn.go:255-257 | the Acknowledgement message of a value: type 3, four big-endian bytes |
| RtmpConn.Conn.NewSetChunkSize | protocol/rtmp/core/conn.go:259-261 | the Set Chunk Size message of a value: type 1, four big-endian bytes |
| ReadWriters.ReadWriter.ReadUintBE | protocol/rtmp/core/read_writer.go:26-36 | reads a big-endian integer |
| ReadWriters.ReadWriter.ReadUintLE | protocol/rtmp/core/read_writer.go:38-48 | reads a little-endian integer |
| ReadWriters.ReadWriter.WriteUintBE | protocol/rtmp/core/read_writer.go:58-66 | writes the low bytes of an integer, most significant first |
| ReadWriters.ReadWriter.WriteUintLE | protocol/rtmp/core/read_writer.go:68-77 | writes the low bytes of an integer, least significant first |
| ReadWriters.ReadWriter.Read | protocol/rtmp/core/read_writer.go:21-24 | a full read or an error |
| PacketQueues.RunConserves | protocol/rtmp/writer.go:56-101 | under any interleaving of sends, drops and receives, the packets written are in order exactly those that left and those queued; delivered, dropped and queued add up |
| PacketQueues.StepConserves | av/pack.go:48-63 | each atomic queue step keeps that |
| PacketQueues.PacketQueue.DropNPacket | av/pack.go:48-63 | drops at most the given number and stops earlier only on an empty queue; if the consumer takes nothing meanwhile, exactly the given number or all there are; every packet is accounted for |
| PacketQueues.PacketQueue.Write | protocol/rtmp/writer.go:56-71 | on an open queue the packet goes in at once if there is room, and else at the second attempt behind 128 drops, or fewer if the queue has run empty; on a closed queue nothing happens |
| PacketQueues.PacketQueue.Drain | protocol/rtmp/writer.go:80-83 | after a close the consumer still gets exactly the queued packets, in order |
| PacketQueues.PacketQueue.TrySend | protocol/rtmp/writer.go:63-66 | a send that does not wait succeeds exactly when there is room |
| PacketQueues.PacketQueue.TryReceive | av/pack.go:51-56 | a receive that does not wait takes the oldest packet |
| Relay.PlayerReceives | protocol/rtmp/writer.go:73-101 | from any state of its connection, the peer of an RTMP player reads the packets its queue delivered, in order, with their time stamp, stream and data, audio as type 8 on chunk stream 4, video as 9 and metadata as 18 on 6; only empty ones are not sent; the connection stays usable |
| Relay.PlayerSession | protocol/rtmp/writer.go:73-101 | over a whole session from fresh connections the peer gets the command messages, then the packets |
| Ts.LosslessExact | container/ts/muxer.go:34-156 | stripping packet headers and adaptation fields gives PES header and data back exactly for frames that are no key frame, or whose PES has at least 184 bytes or exactly 176 |
| Ts.Lossless | container/ts/muxer.go:34-156 | continuation packets lose nothing |
| Ts.PacketHeader | container/ts/muxer.go:73-98 | sync byte, PID, start indicator, counter and flags of every packet: no error, no priority, no scrambling, a payload, and an adaptation field exactly before a short payload or a clock |
| Ts.AdaptationField | container/ts/muxer.go:96-146 | what the adaptation field says: its length, the flags 0x50 and the low bits before a clock, and stuffing of ones otherwise |
| Ts.PacketPayload | container/ts/muxer.go:96-146 | a packet carries its share of the PES exactly when it is no key-frame start or the PES fills the packet |
| Ts.StartsOnlyFirst | container/ts/muxer.go:77-82 | the start indicator is on the first packet of a frame only |
| Ts.RunContinuous | container/ts/muxer.go:58-69 | over any run of `Mux` calls the counter of each PID rises by one mod 16 per packet |
| Ts.PacketsContinue | container/ts/muxer.go:58-69 | the packets of one frame continue the counters and leave them ready for what follows |
| Ts.TimeStampExact | container/ts/muxer.go:343-362 | a written PTS or DTS reads back modulo 2^33 exactly for values below 2^33; above, the wrap is off by one |
| Ts.PcrExact | container/ts/muxer.go:268-282 | a written PCR base reads back modulo 2^33 |
| Ts.PesFields | container/ts/muxer.go:290-341 | start code, stream id, packet length, flags, clock flags, header length and marker bits as a receiver reads them; there is a DTS exactly for video with a composition time |
| Ts.ClocksExact | container/ts/muxer.go:40-52 | a receiver reads 90 times the milliseconds of the packet: the PTS with the composition time of a video frame, the DTS without it, the PCR base modulo 2^33; PTS and DTS exactly below 2^33 |
| TsMuxer.Muxer.constructor | container/ts/muxer.go:30-32 | counters start at zero |
| TsMuxer.Muxer.Mux | container/ts/muxer.go:34-156 | terminates, appends exactly the specified 188-byte packets and leaves the specified counters |
| TsMuxer.Muxer.FillPacket | container/ts/muxer.go:71-152 | every byte of the shared packet buffer is written, so none is stale |
| TsMuxer.Muxer.Pad | container/ts/muxer.go:113-124 | stuffing before the payload of a short packet, in byte arithmetic |
| TsMuxer.Muxer.AdaptationBufInit | container/ts/muxer.go:256-266 | an adaptation field of the given length holding only stuffing |
| TsMuxer.Muxer.WritePcr | container/ts/muxer.go:268-282 | the six bytes of the program clock reference |
| TsMuxer.Muxer.PAT | container/ts/muxer.go:159-193 | the program association packet under a wrapping counter |
| TsMuxer.Muxer.TableCounters | container/ts/muxer.go:159-205 | a table carries its counter, and the next one carries the successor mod 16 |
| TsMuxer.Muxer.PMT | container/ts/muxer.go:196-254 | the program map packet for the sound format and streams |
| TsMuxer.PesBuilder.Packet | container/ts/muxer.go:290-341 | the PES header with length, flags and clocks |
| TsMuxer.PesBuilder.WriteTs | container/ts/muxer.go:343-362 | the five bytes of a time stamp |
| Psi.TablesVerify | container/ts/muxer.go:159-254 | every PAT and PMT section carries a checksum that leaves residue 0, on the right PID |
| Psi.TablesDescribe | container/ts/muxer.go:159-254 | a receiver that follows the tables finds one program and the PIDs and types of its streams |
| Psi.TablesFramed | container/ts/muxer.go:159-254 | each table is in one packet: sync byte, start indicator, payload only, its counter, a zero pointer, and ones behind the section |
| Crc.GenCrc32 | container/ts/crc32.go:71-78 | the table-driven loop computes the bit-by-bit CRC-32 with polynomial 0x04C11DB7 from 0xFFFFFFFF |
| Crc.TableCorrect | container/ts/crc32.go:4-69 | each of the 256 table entries is the CRC of its index |
| Crc.StepByTable | container/ts/crc32.go:73-76 | one table step is eight bit steps |
| Crc.Residue | container/ts/crc32.go:71-78 | appending the checksum big-endian gives residue 0 |
| Crc.CheckValue | container/ts/crc32.go:71-78 | the checksum of the digits 1 to 9 in ASCII is the value 0x0376E6E7 of the CRC catalogues |
| SegmentProofs.EverySegment | protocol/hls/source.go:97-237 | for every run the pushed segments are, one for one, the groups into which key frames cut the media: numbered in order, of whole packets, as long as their group spans, opened by PAT and PMT with their number modulo 16 as counter and by the key frame, and with all and only the audio of their group, and its video if every frame fits; the open segment likewise, less the cached audio |
| SegmentProofs.SegmentsExact | protocol/hls/source.go:97-237 | for every run each segment is, byte for byte, its tables and the packets of frames: the video frames of its group with their own time stamps, and one audio frame for each six packets and for those left at the end, stamped within two milliseconds of the first of them |
| SegmentCuts.GroupedExact | protocol/hls/source.go:149-168 | the groups are the only division of the media in which each begins with a key frame, the closed ones span at least 3000 ms, and none goes on past the first key frame from then on |
| SegmentCounters.SegmentsContinue | container/ts/muxer.go:58-69 | over all segments of any run the counter of each PID rises by one mod 16 per packet, so a segment continues the one before it |
| SegmentProofs.RunKeeps | protocol/hls/source.go:97-129 | from any state that is what the packets so far say, a run leaves a state that is what all packets say: settings, groups, frames, counters and cache |
| SegmentProofs.CutHolds | protocol/hls/source.go:149-168 | a key frame opens the first segment, closes one that spans 3000 ms with all its audio and opens the next, or goes into the open one |
| SegmentProofs.CloseHolds | protocol/hls/source.go:149-168 | closing a segment pushes what its group holds, with nothing left in the cache, and writes just the tables of the next one |
| SegmentProofs.TakeAudioHolds | protocol/hls/source.go:204-237 | audio goes into the cache, and out of it in batches of six |
| SegmentProofs.GroupReceived | protocol/hls/source.go:97-237 | a receiver of a segment gets the audio of its group and the video that fits |
| Receivers.DemuxFrame | container/ts/muxer.go:34-156 | a receiver that follows PES header lengths gets the data of a muxed frame, and nothing on the other PID |
| Receivers.DemuxRun | container/ts/muxer.go:34-156 | over any run of frames it gets the data of one PID in order |
| HlsSource.Source.constructor | protocol/hls/source.go:57-74 | a segmenter starts in the initial state |
| HlsSource.Source.SendPacket | protocol/hls/source.go:97-129 | the loop over queued packets refines the specified run |
| HlsSource.Source.TakePacket | protocol/hls/source.go:106-126 | one packet refines the specified step; an unreadable tag ends the segmenter |
| HlsSource.Source.Cut | protocol/hls/source.go:149-168 | refines the specified cut; the pushed items are the segments |
| HlsSource.Source.PushSegment | protocol/hls/source.go:156-161 | pushes the open segment with its number and duration and starts anew |
| HlsSource.Source.MuxAudio | protocol/hls/source.go:219-228 | muxes the cached audio as one frame once there is enough of it |
| HlsSource.Source.FlushAudio | protocol/hls/source.go:215-217 | muxes any cached audio |
| HlsSource.Source.ParseVideo | protocol/hls/source.go:170-198 | stores parameter sets, converts frames |
| HlsSource.Source.ParseAudio | protocol/hls/source.go:186-198 | stores the configuration, wraps raw frames in ADTS |
| HlsSource.Source.CalcAudioPts | protocol/hls/source.go:204-213 | the aligned time stamp of an audio frame |
| HlsSource.AudioCache.Cache | protocol/hls/audio_cache.go:24-35 | the first frame restarts the cache, the others are appended |
| HlsSource.AudioCache.GetFrame | protocol/hls/audio_cache.go:37-40 | returns all cached bytes with their count and time stamp |
| HlsSource.Status.Update | protocol/hls/status.go:23-32 | first and last time stamp of a segment |
| HlsSource.Aligner.Align | protocol/hls/align.go:12-29 | a time stamp within two milliseconds of the expected one is moved onto it, any other restarts the count |
| Segments.AlignClose | protocol/hls/align.go:12-29 | an aligned time stamp is the expected one within two milliseconds, or the packet's own, and the next one is expected one frame of 1024 samples later, in ticks for each frequency index |
| Playlists.PlaylistExact | protocol/hls/cache.go:41-78 | the playlist lists the last three pushes, or all of fewer, under consecutive numbers from its media sequence, and its target duration is the least above every listed duration |
| Playlists.TsCache.PushItem | protocol/hls/cache.go:80-89 | the window is the last five pushes; a push to a full one takes off the oldest |
| Playlists.TsCache.GenM3U8File | protocol/hls/cache.go:41-78 | the loop computes the specified playlist of that window |
| Playlists.TsCache.GetItem | protocol/hls/cache.go:91-101 | finds the first item of the window with the name, less its extension |
| Playlists.FindsItem | protocol/hls/cache.go:91-101 | with distinct names every item of the window is found |
| Playlists.TsName | protocol/hls/cache.go:87-92 | the stored name is what a lookup by file name makes of it |
| AnnexB.UnitsExact | protocol/hls/parser/h264/parser.go:135-219 | the inputs that are read are exactly the concatenations of non-empty length-prefixed units, and give those units |
| AnnexB.ScanStream | protocol/hls/parser/h264/parser.go:147-219 | scanning the written stream for start codes recovers the delimiter, exactly the units of types 1, 5 and 6 in order and, once before the first unit of type 5, the units of types 7 and 8 before it or else the stored ones |
| AnnexB.AfterUnit | protocol/hls/parser/h264/parser.go:171-213 | what one unit does: types 1, 5 and 6 are written behind 00 00 00 01, 7 and 8 collected behind it, all others dropped, and the first of type 5 follows the collected or else the stored sets |
| AnnexB.ScanCodes | protocol/hls/parser/h264/parser.go:147-219 | start codes separate escaped units without loss |
| AnnexB.Parser.NaluSize | protocol/hls/parser/h264/parser.go:135-145 | the four-byte big-endian size |
| AnnexB.Parser.GetAnnexbH264 | protocol/hls/parser/h264/parser.go:147-219 | succeeds exactly on a non-empty readable input, and writes its stream |
| AnnexB.Parser.Convert | protocol/hls/parser/h264/parser.go:171-213 | one unit: written, collected or dropped, with parameter sets before the first IDR slice |
| AnnexB.Parser.ParseSpecificInfo | protocol/hls/parser/h264/parser.go:79-123 | appends the parameter sets of a sequence header, or fails and keeps what is stored |
| AnnexB.SetsExact | protocol/hls/parser/h264/parser.go:79-123 | the parameter sets stored from a configuration record are its SPS and first PPS exactly if nothing follows that PPS |
| AnnexB.RecordRead | protocol/hls/parser/h264/parser.go:79-123 | a configuration record is read exactly if both its lengths are positive and the second is not beyond its end, and gives its SPS and everything behind that length |
| AnnexB.Dispatches | protocol/hls/parser/h264/parser.go:125-133 | a frame of length-prefixed units is converted into their stream unless its first unit is a single byte, in which case it passes through as it is |
| AnnexB.Parser.Parse | protocol/hls/parser/h264/parser.go:221-234 | dispatches between headers, streams already in start-code form and length-prefixed units |
| Adts.SplitStream | protocol/hls/parser/aac/parser.go:76-110 | any list of frames of at most 8184 bytes is recovered by splitting the output at the announced lengths |
| Adts.LengthExact | protocol/hls/parser/aac/parser.go:76-103 | the announced length is the real one modulo 8192, and right exactly for frames of at most 8184 bytes |
| Adts.FieldsExact | protocol/hls/parser/aac/parser.go:85-98 | the header has its sync word, and carries the configuration exactly for object types 1 to 4 and channel fields up to 3 |
| Adts.InfoExact | protocol/hls/parser/aac/parser.go:65-74 | a configuration is read from object type, frequency index and channels in 5, 4 and 4 bits |
| Adts.Parser.ParseSpecificInfo | protocol/hls/parser/aac/parser.go:65-74 | object type, rate and channel fields, or an error that changes nothing |
| Adts.Parser.WriteAdts | protocol/hls/parser/aac/parser.go:76-110 | header and frame; fails exactly without data or without a configuration |
| FlvTag.VideoExact | container/flv/tag.go:172-195 | the AVC headers that are read are exactly those laid out as frame type, codec, packet type and a 24-bit composition time, for key and inter frames |
| FlvTag.AudioExact | container/flv/tag.go:151-170 | the audio headers that are read are exactly those laid out as the FLV format says, with an AAC packet type behind sound format 10 and only there |
| FlvTag.KindExact | container/flv/tag.go:118-195 | which video headers are read; a key frame has frame type 1, and a sequence header packet type 0 as well; other codecs have a header of one byte, and their key frames pass for sequence headers |
| Amf0Proofs.RoundTripExact | protocol/amf/encoder_amf0.go:12-175 | for every nested value and every order of map iteration, decoding an encoding gives the value back and leaves the rest exactly when keys have 1 to 65535 bytes and lengths fit 32 bits, and a `bytes.Reader` has input left behind a final empty string |
| Amf0Proofs.RoundTrip | protocol/amf/decoder_amf0.go:11-245 | the decoding half of it |
| Amf0Proofs.DecodedPlain | protocol/amf/decoder_amf0.go:11-342 | what a decoder can return at all: key, string and array sizes at every level |
| Amf0Proofs.DecodeLocal | protocol/amf/decoder_amf0.go:11-342 | a success depends only on the bytes it consumes: whatever follows them the value is the same and what follows is left, but a `bytes.Reader` fails exactly if nothing follows a value that ends in an empty string |
| Amf0.Decode | protocol/amf/decoder_amf0.go:11-55 | decoding is total, and each success consumes at least one byte and leaves a suffix of the input |
| Amf0Proofs.BatchBack | protocol/amf/amf.go:8-38 | a batch comes back whole and ends with the end of the input |
| Amf0Proofs.StrictEnd | protocol/amf/util.go:30-43 | on any input, a `bytes.Reader` never finishes a value that ends in an empty string at the end of the input |
| Amf0Forms.Written | protocol/amf/encoder_amf0.go:12-304 | the marker and the bytes of each kind of value |
| Amf0Forms.ScalarsRead | protocol/amf/decoder_amf0.go:11-92 | null, undefined, unsupported, booleans and numbers by their bytes, and which markers are refused |
| Amf0Forms.StringsRead | protocol/amf/decoder_amf0.go:98-318 | strings by their bytes, and documents, which are only read |
| Amf0Forms.DateRead | protocol/amf/decoder_amf0.go:253-271 | a date, which is only read, is its number, and its zone is skipped |
| Amf0Forms.TypedRead | protocol/amf/decoder_amf0.go:321-342 | a typed object, which is only read, is its class name and the properties of an object |
| Amf0Forms.CountIgnored | protocol/amf/decoder_amf0.go:200-217 | the count of an ECMA array says nothing about it |
| Amf0Codec.Decoder.DecodeAmf0 | protocol/amf/decoder_amf0.go:11-55 | refines the specified decoder: same value and remaining input, or the same error |
| Amf0Codec.Decoder.DecodeAmf0Number | protocol/amf/decoder_amf0.go:59-70 | the eight bytes of a number |
| Amf0Codec.Decoder.DecodeAmf0String | protocol/amf/decoder_amf0.go:98-115 | a string behind its two-byte length |
| Amf0Codec.Decoder.DecodeAmf0LongString | protocol/amf/decoder_amf0.go:273-290 | a string behind its four-byte length |
| Amf0Codec.Decoder.DecodeAmf0Object | protocol/amf/decoder_amf0.go:121-152 | the properties up to the end marker, later ones replacing earlier ones |
| Amf0Codec.Decoder.DecodeAmf0EcmaArray | protocol/amf/decoder_amf0.go:200-217 | an object behind a count that is ignored |
| Amf0Codec.Decoder.DecodeAmf0StrictArray | protocol/amf/decoder_amf0.go:223-245 | as many values as the count says |
| Amf0Codec.Decoder.DecodeAmf0TypedObject | protocol/amf/decoder_amf0.go:321-342 | a class name and its properties |
| Amf0Codec.Decoder.DecodeBatch | protocol/amf/amf.go:8-18 | all values before the first error, and that error |
| Amf0Codec.Encoder.EncodeAmf0 | protocol/amf/encoder_amf0.go:12-58 | writes an encoding in some order of iteration and returns the number of bytes; fails exactly on typed objects |
| Amf0Codec.Encoder.EncodeAmf0String | protocol/amf/encoder_amf0.go:110-133 | length and bytes, counted |
| Amf0Codec.Encoder.EncodeAmf0LongString | protocol/amf/encoder_amf0.go:277-304 | length and bytes, counted |
| Amf0Codec.Encoder.EncodeAmf0Object | protocol/amf/encoder_amf0.go:139-175 | every property once, then the end of the object, counted |
| Amf0Codec.Encoder.EncodeAmf0StrictArray | protocol/amf/encoder_amf0.go:242-271 | the count and the elements in order, counted |
| Amf0Codec.Encoder.EncodeAmf0EcmaArray | protocol/amf/encoder_amf0.go:209-236 | the number of properties and an object, counted |
| Amf0Codec.Encoder.EncodeBatch | protocol/amf/amf.go:31-38 | writes every value, and returns zero |
| AmfStreams.Input.ReadBytes | protocol/amf/util.go:30-43 | one read that must be full; at the end a buffer gives zero bytes, a reader does not |
| AmfStreams.Input.ReadByte | protocol/amf/util.go:21-28 | the next byte or an error |
| AmfStreams.Input.AssertMarker | protocol/amf/util.go:53-68 | succeeds exactly on the marker, or unchecked |
| Amf3Proofs.U29Back | protocol/amf/encoder_amf3.go:430-447 | the variable-length integer codec is an inverse pair on 0..2^29-1 |
| Amf3Proofs.U29Shortest | protocol/amf/decoder_amf3.go:483-505 | every decodable form is a 29-bit value, and the encoder uses the shortest |
| Amf3Proofs.IntegerExact | protocol/amf/decoder_amf3.go:81-98 | an integer can be sent in 29 bits; decoding its encoding gives it back, with table and rest untouched, exactly below 2^28, and reduced by 2^29 from there on |
| Amf3Proofs.RoundTrip | protocol/amf/decoder_amf3.go:12-386 | any wire tree, with references, dynamic properties and empty strings, is read as its meaning with the rest untouched, and the string table grows by the non-empty in-place strings in wire order |
| Amf3Proofs.ReferencesTransparent | protocol/amf/decoder_amf3.go:118-147 | whichever strings are sent as references to equal earlier ones, the value read is that of the tree with every string in place |
| Amf3Proofs.ShortString | protocol/amf/decoder_amf3.go:132-145 | a string cut short by the end of the input is refused only if none of it is left; otherwise it is completed with zeros |
| Amf3Forms.U29Read | protocol/amf/decoder_amf3.go:483-505 | one to four bytes of an integer, most significant first, with seven bits each and eight in a fourth |
| Amf3Forms.ScalarsWritten | protocol/amf/encoder_amf3.go:15-82 | the marker and the bytes of each value without parts |
| Amf3Forms.ArrayWritten | protocol/amf/encoder_amf3.go:228-261 | the bytes of an array |
| Amf3Forms.ObjectWritten | protocol/amf/encoder_amf3.go:265-372 | the bytes of an object: traits, class name, names, values, an empty key if dynamic |
| Amf3Forms.FlagsRead | protocol/amf/decoder_amf3.go:12-113 | null, booleans, integers and doubles by their bytes; markers above 12 are refused |
| Amf3Forms.InPlaceRead | protocol/amf/decoder_amf3.go:392-481 | strings, documents in their two forms, which are only read, and byte arrays by their bytes |
| Amf3Forms.ReferenceRead | protocol/amf/decoder_amf3.go:118-147 | an index reads the string of that number in the table, or panics beyond it |
| Amf3Values.ValueRoundTrip | protocol/amf/encoder_amf3.go:15-372 | decoding what the encoder sends for a value gives the received value and leaves the rest, behind any string table |
| Amf3Values.ReceivedExact | protocol/amf/encoder_amf3.go:15-82 | a value is received unchanged exactly if its integers are below 2^28 and not negative and it holds no class name and no byte slice |
| Amf3Values.SmallEncodes | protocol/amf/encoder_amf3.go:15-82 | values with fewer than 2^28 bytes or elements in each part, and 2^25 properties, are encoded without an error |
| Amf3Values.OneForm | protocol/amf/encoder_amf3.go:283-287 | the encoder sorts property names, so a value has one wire form |
| Amf3Codec.Decoder.DecodeU29 | protocol/amf/decoder_amf3.go:483-505 | the loop reads up to four bytes as specified |
| Amf3Codec.Decoder.DecodeAmf3 | protocol/amf/decoder_amf3.go:12-48 | refines the specified decoder: same value, string table and remaining input, or the same error |
| Amf3Codec.Decoder.DecodeAmf3String | protocol/amf/decoder_amf3.go:118-147 | a string in place enters the table if it is not empty; a reference reads it; a short read is padded with zeros |
| Amf3Codec.Decoder.DecodeAmf3Array | protocol/amf/decoder_amf3.go:197-246 | a count, an empty key and the elements |
| Amf3Codec.Decoder.DecodeAmf3Object | protocol/amf/decoder_amf3.go:250-386 | class name, property names, their values, then dynamic properties |
| Amf3Codec.Decoder.DecodeInPlace | protocol/amf/decoder_amf3.go:392-481 | the bytes of an XML document or a byte array given in place |
| Amf3Codec.Encoder.EncodeAmf3Uint29 | protocol/amf/encoder_amf3.go:430-447 | one to four bytes, or an error above 29 bits |
| Amf3Codec.Encoder.EncodeAmf3Utf8 | protocol/amf/encoder_amf3.go:410-428 | length header and bytes, counted |
| Amf3Codec.Encoder.EncodeAmf3 | protocol/amf/encoder_amf3.go:15-82 | writes the wire form of the value and returns its length; succeeds exactly on values whose counts fit their headers, after wrapping in 32 bits |
| Amf3Codec.Encoder.EncodeAmf3Array | protocol/amf/encoder_amf3.go:228-261 | header, empty key and elements in order, counted; fails exactly if the count or an element does not fit |
| Amf3Codec.Encoder.EncodeAmf3Object | protocol/amf/encoder_amf3.go:265-372 | trait header, class name, sorted names and their values, counted; fails exactly if a count or a value does not fit |
| Amf3Codec.Encoder.EncodeAmf3Int | protocol/amf/encoder_amf3.go:35-48 | 29-bit integers as integers, others as doubles |
| FlvFile.FileRoundTrip | container/flv/writer.go:55-97 | reading a written file gives its packets back in order and then the end of the input |
| FlvFile.BackIs | container/flv/reader.go:70-96 | what comes back has the kind and 32-bit time stamp of the packet and, for media, its data and header; metadata comes back with its command in front exactly when the command, if it is there already, is followed by another name |
| FlvFile.TagLayout | container/flv/writer.go:55-97 | the bytes of a tag: type 8, 9 or 18, 24-bit length, time stamp in two parts, stream 0, data, and the length of all that; metadata without its command |
| FlvFile.MediaExact | container/flv/reader.go:61-86 | a media tag is read as written exactly when its data is shorter than 2^24 bytes |
| FlvFile.Writer.Write | container/flv/writer.go:55-97 | the file is always the header and the tags written; nothing is written once closed or for refused metadata |
| FlvFile.Writer.Close | container/flv/writer.go:99-104 | closes once |
| FlvFile.Reader.Init | container/flv/reader.go:49-60 | accepts exactly the 13 header bytes |
| FlvFile.Reader.Read | container/flv/reader.go:48-97 | refines the specified tag reader behind the header |
| Metadata.Inverse | protocol/amf/metadata.go:30-68 | on bodies that begin with a short string other than the command, adding and removing it undo each other |
| Metadata.FrameNamed | protocol/amf/metadata.go:11-28 | the command is the AMF0 string @setDataFrame |
| Metadata.AddedForm | protocol/amf/metadata.go:30-68 | removing and then adding gives the added form exactly when the command, if present, is followed by another string |
| Metadata.MetaDataReform | protocol/amf/metadata.go:30-68 | refines the specified reform, errors included |
| Replay.GopExact | cache/gop.go:31-45 | for distinct packets the cached group is the frames since the latest key frame exactly until a frame comes behind a group of 1024 |
| Replay.Frozen | cache/gop.go:31-45 | a full group is never replaced, not even by a key frame |
| Replay.CacheHolds | cache/cache.go:23-44 | the cache holds the latest metadata and sequence headers and the group of the frames |
| Replay.LateJoiner | server/channel.go:97-128 | the video a late joiner gets is the publisher's from the latest key frame on, without gap or repetition; for distinct frames exactly until a full group overflows |
| Replay.HeadersFirst | cache/cache.go:46-64 | all that a late joiner gets: the latest metadata, video header and audio header, in that order, the group, and every later packet |
| Channels.Channel.Publish | server/channel.go:109-128 | every player has been sent what the cache held when it was first served and every packet since; a player is removed and closed exactly if its writer did not take what was due |
| Channels.Channel.OutcomeIs | server/channel.go:109-128 | a player stays exactly if its open writer takes the packet, or the whole cache the first time, and has then received just that; otherwise it is closed |
| Channels.Channel.AddPlayer | server/channel.go:156-170 | a new player is accepted exactly during a publication and once |
| Channels.Channel.DelPlayer | server/channel.go:172-178 | removes a player and closes it; a player that is not there is left alone |
| Channels.Channel.PushBegin | server/channel.go:77-97 | there is at most one publication, and it starts with an empty cache and no players |
| Channels.Channel.PushEnd | server/channel.go:91-95 | its end closes and removes every player |
| Channels.GopArray.Write | cache/gop.go:31-45 | refines the specified group; refuses packets once full |
| Channels.GopArray.Send | cache/gop.go:47-57 | writes the group in order, or fails exactly if the writer does not take it |
| Channels.Cache.Write | cache/cache.go:23-44 | routes a packet into one of the four caches |
| Channels.Cache.Send | cache/cache.go:46-64 | writes metadata, headers and group in order |
| Channels.SpecialCache.Send | cache/special.go:26-32 | writes the header if there is one |

## Left out

- Sockets, TLS, deadlines, HTTP routing, commands, the RTMP handshake (HMAC and randomness) and the command dialogue of `conn_server.go` and `conn_client.go`: input and output, or string dispatch over AMF values.
- ChunkProtocol.Reassembles: chunk stream ids of 64 and above are not sent: the writer emits the basic header byte twice for ids of 320 and above, and the reader keys its map on the six-bit field and then overwrites the id, so a second chunk is misread. The reader's id bytes themselves are modelled.
- ChunkProtocol.ReassemblesFromStart: extended deltas on format 1 and 2 messages of more than one chunk are not sent: the reader compares the peeked field with the timestamp, not with the delta (`ChunkProtocol.ExtendedContinuation`).
- ChunkProtocol.RepeatBehindFull: RTMP 1.0, section 5.3.1.2.4, adds the time stamp of a format-0 message as the delta of a new format-3 message behind it; the reader takes the field over as the time stamp, and the senders of `ChunkProtocol` start format 3 behind format 0 only with that reading.
- ChunkRuns.RunExact: Set Chunk Size bodies have four bytes, as RTMP 1.0, section 5.4.1, defines them; a size of zero is the panic of `RtmpConn.Conn.Write`.
- RtmpConn.ChunkStream.ReadRest: the payload is a sequence that grows, not a preallocated buffer with an index, and what a record holds after a failed read is not stated.
- RtmpConn.Conn.Read: a control body shorter than four bytes and a chunk size of zero are modelled as an error; the source panics.
- Integers of 64 bits (presentation times, alignment counters, durations) are unbounded here; 32-bit, 16-bit and byte arithmetic wraps as in the source.
- MP3 parsing, bandwidth statistics, wall-clock fields, segment name generation (a parameter here), and the text of the m3u8 file (what it lists is modelled).
- The initial contents of reused byte buffers that are reset before use.
- HlsSource.Source.SendPacket: the queue in front of it is a sequence; its own bounded queue is the one of `PacketQueues`.
- AMF0 marker 0x11, which hands over to AMF3, is an error in `Amf0`; the reference cache, which is only written, is not modelled, nor are the per-type entry points that check the marker themselves.
- Amf0Codec.Decoder.DecodeAmf0: what is left of the input after an error is not stated.
- Amf3Codec.Decoder.DecodeAmf3: dates, externalizable objects and references to objects, traits, XML documents and byte arrays are errors here; there is no matching encoder, and the source shifts object indices twice.
- Amf3Codec.Decoder.DecodeAmf3Array: a reference to an earlier array is an error here.
- Amf3Codec.Decoder.DecodeAmf3Object: references to earlier objects and traits, and externalizable objects, are errors here.
- Amf3Codec.Decoder.DecodeInPlace: a reference to an earlier document or byte array is an error here.
- Amf3Values.ValueRoundTrip: the conversion of integers outside 29 bits to doubles is a parameter; floating-point values are eight bytes throughout.
- Amf3Codec.Encoder.EncodeAmf3: dates are left out, and so is the byte-array encoder, which the router never calls; what is read back for parts of 2^31 bytes and more, whose counts are cut, is not stated.
- Channels.Channel.Publish: one packet is one step; a player that joins while the players are being served counts as joined before or after that packet. The per-player record is a flag in the map.
- A player writer that fails and later works again: in the model it takes an arbitrary number of packets and then fails for good.
- The closed flag of a channel, which is never set, and the HLS player loop of `InitHlsPlayer`.
- Crc.TableCorrect: the 256 entries are given as 16 rows of 16.
