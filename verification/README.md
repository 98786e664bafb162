# LZ4 as the data logger uses it: a verified model

The firmware stores its measurements in LZ4 frames. This project models the vendored LZ4 1.9.3 library and the log file
layer on top of it, and proves what they are for: whatever is written comes back, byte for byte, however it is cut into
calls, and no call reads or writes where it must not. Buffers are arrays, contexts are classes whose methods update their
fields, and input that is only read is a sequence of bytes.

- `BlockFormat.dfy` says what a block means: parsing, the byte-by-byte decoder, the end-of-block restrictions.
  `BlockDecoder.dfy` and `BlockDecompress.dfy` are the fast decoder in the form built for a 32-bit target,
  `GreedyParse.dfy` says which matches the greedy compressor looks for, and `BlockSequences.dfy`, `BlockEncoder.dfy` and
  `BlockStream.dfy` are that compressor, its output modes and its streams.
- `FrameFormat.dfy` says what a frame means, `FrameReading.dfy` what a decoder makes of any bytes. `FrameDecoder.dfy`
  (with `FrameCursor.dfy`, `FrameHistory.dfy` and `Window.dfy`) is the 15-stage state machine, `FrameEncoder.dfy` (with
  `FrameEmit.dfy`) the streaming encoder; `FrameRoundTrip.dfy` puts them together.
- `HcIndex.dfy`, `HcSearch.dfy`, `HcEncoder.dfy`, `HcHashChain.dfy`, `HcOptimal.dfy` and `HcStream.dfy` are the high
  compression levels: chain tables, search, both parsers, and streams.
- `KnownHashes.dfy`, `KnownBlocks.dfy`, `KnownFrames.dfy` and `KnownNumbers.dfy` tie all this to bytes and numbers that are
  written out: hashes, blocks, headers, frames, sizes, levels.
- `XxHash32.dfy` is the checksum, `LogFile.dfy` the log file layer, `Memory.dfy` the C library's block moves.

Where the code turns out to differ from the format, the model follows the code:

- Lengths are summed in 32 bits. A block with 16843009 length bytes of 255 in a row is accepted although the format calls
  it truncated; `BlockDecompress.SoundIffFieldsFit` states exactly when the decoder is sound.
- The shortcut lets a match end right at the end of the output, so acceptance does not imply the end-of-block restrictions.
  Offset 0 is outside the format; the decoder accepts it, and equality claims leave it out.
- A declared content size of 0 is treated as not declared. Compressed blocks inside a frame need not respect the
  end-of-block restrictions; such frames are read, but not strictly.
- `LZ4F_resetDecompressionContext` is documented to return to a clean state (lz4frame.h:461, 471-475), but it keeps the
  size counter; `FrameDecoder.DecodeAfterReset` states exactly which frames that spoils.
- The hint of `LZ4F_decompress` is documented as the rest of the current block plus the header of the next
  (lz4frame.h:450-453). While a compressed block is being collected, its checksum is counted twice;
  `FrameDecoder.DCtx.HintStaysInside` states exactly when input of that length goes beyond the end of the frame.
- The price that the optimal parser gives to literals behind a match also counts the literals before that match, so that it
  can be a byte too high; `HcOptimal.LiteralCostRight` states exactly when it is right.
- `lz4open` does not truncate a temporary file that an interrupted run has left behind; `LogFile.LeftOver` states exactly
  when that spoils the new file.

Integers are unbounded where the C code cannot overflow; 32-bit sums, 16-bit table slots and 64-bit counters wrap as in C.

## Model
| member | source | states |
|---|---|---|
| BlockDecoder.ReadVariableLength | firmware_src/modules/lz4stream/lib/lz4.c:1707-1729 | The 32-bit sum is the format's length unless a run of 255 bytes is long enough to wrap it; a loop error only comes with a length that already runs past the end; with wrapping, exactly what 32 bits hold of the sum. |
| BlockDecoder.ReadLiteralLength | firmware_src/modules/lz4stream/lib/lz4.c:1976-1983 | Ignoring the loop error on literal lengths is harmless: a length the block cannot hold always comes back as one that runs past its end. |
| BlockDecoder.CopyMatchInBlock | firmware_src/modules/lz4stream/lib/lz4.c:2122-2151 | Through the inc32table/dec64table copies for offsets 1 to 7, the over-writing 8-byte copies and the careful copy near the end, the output gets exactly the overlapping byte-by-byte copy; nothing outside it is written. |
| BlockDecoder.CopyMatchFromDict | firmware_src/modules/lz4stream/lib/lz4.c:2074-2100 | A match in the external dictionary that may run on into the block is the byte-by-byte copy over dictionary and output together; it is refused exactly when it ends in the last 5 bytes. |
| BlockDecoder.ShortcutMatch | firmware_src/modules/lz4stream/lib/lz4.c:1958-1969 | The 18-byte copy of the shortcut is the byte-by-byte copy of the match, for every offset of 8 and more. |
| BlockDecoder.DecompressGeneric | firmware_src/modules/lz4stream/lib/lz4.c:1737-2164 | For any bytes: no write outside the output; what is accepted is what the byte-by-byte decoder produces (offset 0 aside), every well-formed block that fits is accepted, partial decoding gives the beginning of the text; all this unless a length field wraps around in 32 bits, in which case a wrapped literal length is taken at its 32-bit value. |
| BlockDecoder.DecodableFits | firmware_src/modules/lz4stream/lib/lz4.c:1707-1729 | A block that decodes, of sizes that an int can express, has no length field that wraps around. |
| BlockDecompress.DecompressSafe | firmware_src/modules/lz4stream/lib/lz4.c:2171-2176 | Accepts every well-formed block that fits, of any size an int can express, with exactly its text; with room for nothing, it accepts only the block [0]. |
| BlockDecompress.DecompressSafePartial | firmware_src/modules/lz4stream/lib/lz4.c:2179-2185 | min(target, capacity, full length) bytes, equal to the beginning of the full text, and no write past the target. |
| BlockDecompress.DecompressSafeUsingDict | firmware_src/modules/lz4stream/lib/lz4.c:2404-2417 | The contract of DecompressGeneric, for a dictionary right before the output or anywhere else. |
| BlockDecompress.DecodesExactly | firmware_src/modules/lz4stream/lib/lz4.c:2171-2176 | A block that represents a text is decoded to exactly that text in a buffer of exactly its size or more. |
| BlockDecompress.SoundIffFieldsFit | firmware_src/modules/lz4stream/lib/lz4.c:1707-1729 | An accepted block without zero offsets means what it has been decoded to if and only if no length field of it wraps around in 32 bits. |
| BlockDecompress.WrappedIsTruncated | firmware_src/modules/lz4stream/lib/lz4.c:1707-1729 | A literal length that has wrapped around is one that the block cannot hold: the format calls the block truncated. |
| BlockDecompress.DecompressWrapped | firmware_src/modules/lz4stream/lib/lz4.c:1707-1729 | A concrete block with 16843009 length bytes of 255 that the decoder accepts as 16 literals although it is truncated. |
| KnownBlocks.OneMatchDecodes | firmware_src/modules/lz4stream/lib/lz4.c:1737-2164 | The meaning of a block of one match by its bytes: token, length bytes of both fields, literals, the offset with its low byte first, last literals; and exactly when it is well-formed. |
| KnownBlocks.DecompressOneMatch | firmware_src/modules/lz4stream/lib/lz4.c:2171-2176 | LZ4_decompress_safe returns that text for every such block. |
| KnownBlocks.AbcdTwice | firmware_src/modules/lz4stream/lib/lz4.c:1737-2164 | 44 abcd 04 00 50 vwxyz is abcdabcdabcdvwxyz. |
| BlockEncoder.Count | firmware_src/modules/lz4stream/lib/lz4.c:602-626 | Exactly the length of the common run, by words, halves and bytes; 0 when it starts behind its limit. |
| BlockEncoder.SlotKeepsIndex | firmware_src/modules/lz4stream/lib/lz4.c:736-746 | No index of the current block is truncated by a 16-bit or 32-bit slot. |
| BlockEncoder.AcceptedEntry | firmware_src/modules/lz4stream/lib/lz4.c:1001-1007 | A table entry that passes the index tests names a position inside the history and within 65535 bytes, also in 16-bit mode, where the distance is not tested. |
| BlockEncoder.TestPosition | firmware_src/modules/lz4stream/lib/lz4.c:984-1012 | Found if and only if the old entry of the slot passes the index tests and names four bytes equal to those at ip, and then that place; either way ip is recorded and the table invariant kept. |
| BlockEncoder.FindMatch | firmware_src/modules/lz4stream/lib/lz4.c:955-1012 | The search of the specification: the first tested position whose entry is a hit, and the same table; nothing only if all fail. |
| GreedyParse.SearchIsFirst | firmware_src/modules/lz4stream/lib/lz4.c:955-1012 | That search ends at the first of the tested positions, at growing strides, whose entry is a hit when all before it have been recorded; it finds nothing only if every one fails. |
| GreedyParse.MatchIsMaximal | firmware_src/modules/lz4stream/lib/lz4.c:1014-1095 | A match that a search has led to can be extended neither backwards, inside its segment and behind the anchor, nor forwards before the last five bytes. |
| GreedyParse.UniformSequences | firmware_src/modules/lz4stream/lib/lz4.c:851-1240 | Equal bytes come to one match up to the last five, behind at most one literal, whatever the table holds. |
| BlockEncoder.CatchUp | firmware_src/modules/lz4stream/lib/lz4.c:1017-1019 | Extends the match backwards as far as it goes, and no further; it stays genuine and inside its segment. |
| BlockEncoder.CountMatch | firmware_src/modules/lz4stream/lib/lz4.c:1075-1095 | Exactly the length of the common run, across the border between external dictionary and block, that leaves the last 5 literals. |
| BlockEncoder.TestBehind | firmware_src/modules/lz4stream/lib/lz4.c:1140-1200 | Behind a match, two positions are recorded, and a match right here is found if and only if the entry of this position is a hit. |
| BlockEncoder.TryNext | firmware_src/modules/lz4stream/lib/lz4.c:1140-1200 | It is taken without literals; otherwise the search goes on, or the block ends because less than 12 bytes are left. |
| BlockEncoder.CutMatch | firmware_src/modules/lz4stream/lib/lz4.c:1097-1122 | A match shortened to fill the output fits exactly, and the table no longer knows positions behind its new end. |
| BlockEncoder.EncodeLastLiterals | firmware_src/modules/lz4stream/lib/lz4.c:1204-1231 | The last literals, as many as there are or, when filling the output, as many as fit. |
| BlockEncoder.CompressBlock | firmware_src/modules/lz4stream/lib/lz4.c:851-1240 | For every input, acceleration and table that meets the invariant: the block decodes to the consumed source and meets the end-of-block restrictions; its size is at most n + n/255 + 16; nothing is written outside the room. It is exactly the planned block when the output is not limited; that block or, if it does not fit, nothing when it is; and a beginning of the source that leaves at most one byte unused when the output is to be filled, with every part of the plan that leaves 9 bytes. Where the whole plan fits, the table is the one that the plan leaves. |
| BlockEncoder.UniformBlock | firmware_src/modules/lz4stream/lib/lz4.c:851-1240 | n equal bytes, n at least 13, are planned as at most 10 + (n + 230)/255 bytes; without history, the exact bytes. |
| KnownBlocks.RunPlanned | firmware_src/modules/lz4stream/lib/lz4.c:851-1240 | The same with every byte written out, for any n of at least 25. |
| KnownBlocks.FirmwareChunk | firmware_src/modules/lz4stream/lib/lz4.c:851-1240 | 4096 times A become 26 bytes: 1F 41 01 00, fifteen FF, F6, 50 and five times 41. |
| KnownBlocks.CompressRun | firmware_src/modules/lz4stream/lib/lz4.c:1354-1370 | LZ4_compress_fast writes exactly these bytes, or nothing if there is no room for them. |
| BlockSequences.WellFormedEmitted | firmware_src/modules/lz4stream/lib/lz4.c:1021-1231 | Sequences written one after the other, with last literals that respect the restrictions, decode to the text that they describe. |
| BlockStream.Stream.PrepareTable | firmware_src/modules/lz4stream/lib/lz4.c:805-843 | After it, no stale entry can be accepted: 32-bit indexes are out of reach, and 16-bit ones cannot wrap with the announced input. The table is cleared if and only if it is of no use; otherwise it stays as it is. |
| BlockStream.Stream.RenormDict | firmware_src/modules/lz4stream/lib/lz4.c:1545-1562 | Every entry that survives keeps its distance to currentOffset; the others were out of reach; the dictionary keeps its last 64 KB; nothing happens below 2^31. |
| BlockStream.Stream.CompressFastContinue | firmware_src/modules/lz4stream/lib/lz4.c:1565-1637 | Linked streams: whatever was compressed before, stored raw, saved or overlapped, the block decodes behind everything compressed so far, and the stream is ready for the next one even if the block did not fit. The bytes, the table and the place of the next block are exactly those of the plan behind what remains of the dictionary. |
| BlockStream.RenormedRemains | firmware_src/modules/lz4stream/lib/lz4.c:1545-1637 | Lowering the indexes first never leaves the block more of the dictionary than it would have had. |
| BlockStream.Stream.SaveDict | firmware_src/modules/lz4stream/lib/lz4.c:1668-1684 | The saved bytes are the end of the dictionary, also when they overlap their old place, and become the dictionary. |
| BlockStream.Stream.CompressFastReset | firmware_src/modules/lz4stream/lib/lz4.c:1316-1351 | A block without history from a table that is not cleared, or only if it is of no use: exactly the bytes and the table of the plan; 0 only if that block does not fit. |
| BlockStream.CompressFast | firmware_src/modules/lz4stream/lib/lz4.c:1354-1370 | One block from a new state: it decodes to the source, and is exactly the planned block, or nothing if that does not fit. |
| BlockStream.CompressDestSize | firmware_src/modules/lz4stream/lib/lz4.c:1382-1415 | The result is within the target and leaves at most one byte of it unused unless the whole source is consumed; it is a whole block that decodes, in a buffer of exactly the consumed size, to the consumed beginning of the source. |
| Window.DecodeWindow | firmware_src/modules/lz4stream/lib/lz4.c:1928-2164 | Matches reach at most 65535 bytes back: decoding does not depend on older history. |
| Window.RepresentsBehindWindow | firmware_src/modules/lz4stream/lib/lz4frame.c:1295-1362 | A block means the same behind any dictionary that remembers the last 64 KB. |
| FrameHistory.KeptMoved | firmware_src/modules/lz4stream/lib/lz4frame.c:1329-1341 | Moving the relevant part of the dictionary in front of a waiting block keeps the window. |
| FrameHistory.KeptAppended | firmware_src/modules/lz4stream/lib/lz4frame.c:1343-1361 | Appending output to a dictionary in the decoder's buffer, shortened if it must be, keeps the window. |
| FrameDecoder.DCtx.UpdateDict | firmware_src/modules/lz4stream/lib/lz4frame.c:1295-1362 | Through every branch, the dictionary keeps the last min(64 KB, total output) bytes, a waiting block stays what it is, and every copy stays inside the buffer. |
| FrameDecoder.DCtx.DecodeHeader | firmware_src/modules/lz4stream/lib/lz4frame.c:1113-1205 | Any bytes, in one piece or from the context: a header is accepted with its parameters exactly if the format accepts it, and the state is fit for the next stage. |
| FrameDecoder.FeedHeader | firmware_src/modules/lz4stream/lib/lz4frame.c:1113-1205 | Every valid header, given to a new context on its own, is accepted, consumed, and leaves the parameters it carries. |
| FrameDecoder.DCtx.DoCopyDirect | firmware_src/modules/lz4stream/lib/lz4frame.c:1534-1573 | As much of a raw block as there is input and room for, delivered, hashed, counted and remembered. |
| FrameDecoder.DCtx.DoCBlock | firmware_src/modules/lz4stream/lib/lz4frame.c:1610-1722 | A compressed block is checked and decoded, straight to the output or to the decoder's own buffer: what is accepted is its text, and it is refused only if the format refuses it. |
| FrameDecoder.DCtx.DoFlush | firmware_src/modules/lz4stream/lib/lz4frame.c:1724-1744 | As much of a waiting block as there is room for; what waits and the window stay right. |
| FrameDecoder.DCtx.DoSuffix | firmware_src/modules/lz4stream/lib/lz4frame.c:1746-1793 | The end of the frame is reported exactly if declared size and content checksum are right; the context is ready for the next frame. |
| FrameDecoder.DCtx.Preserve | firmware_src/modules/lz4stream/lib/lz4frame.c:1844-1874 | At the end of a call, history that lies in the caller's output moves to the decoder's buffer unless the caller keeps it stable. |
| FrameDecoder.DCtx.Decompress | firmware_src/modules/lz4stream/lib/lz4frame.c:1384-1879 | One call, any input, any room: the invariant holds and no write leaves the room; 0 is returned only where the frame really ends, with exactly its text delivered; otherwise the hint is what the stage that waits for input needs, with the next block header; an error is returned only if the format refuses the frame; a call ends early only for lack of input or room. |
| FrameDecoder.DCtx.HintStaysInside | firmware_src/modules/lz4stream/lib/lz4frame.c:1398-1878 | Input as long as the hint reaches beyond the end of the frame if and only if the last block, compressed and with a checksum, is being waited for; then by exactly the 4 bytes that are counted twice. Skippable frames with less content than a header are apart. |
| FrameDecoder.DecodeInPieces | firmware_src/modules/lz4stream/lib/lz4frame.c:1384-1879 | Every input, every schedule of input pieces and output rooms, new output buffers each call: the schedule terminates; the end is reported exactly where one pass over the input finds it, with the same text; more input is asked for in the end only if the frame is cut short; an error comes only if the format refuses the frame. |
| FrameDecoder.DecodeAll | firmware_src/modules/lz4stream/lib/lz4frame.c:1384-1879 | One context decodes any number of frames from one stream, with pieces that cross the borders between frames. |
| FrameDecoder.DCtx.OnTheWay | firmware_src/modules/lz4stream/lib/lz4frame.c:1384-1879 | In every state, what has been delivered is a beginning of the text; the end is never passed unreported; input that stops here is a frame cut short. |
| FrameDecoder.DataDecodes | firmware_src/modules/lz4stream/lib/lz4frame.c:1636-1722 | Behind any dictionary that holds the window, a block that is accepted decodes to its text, and a well-formed block is accepted. |
| FrameDecoder.DecodeAfterReset | firmware_src/modules/lz4stream/lib/lz4frame.c:1097-1102 | After an error or in the middle of a frame, the reset context decodes a valid frame if and only if its size counter is 0 or the frame is skippable or has a size field; otherwise it refuses the frame with an error. |
| FrameDecoder.ResetKeepsCounter | firmware_src/modules/lz4stream/lib/lz4frame.c:1097-1102 | A concrete run, through the interface alone: a frame that declares its size is given up, the context is reset, and the next frame, although valid, is refused. |
| FrameReading.ReadIffClean | firmware_src/modules/lz4stream/lib/lz4frame.c:1746-1748 | What is left in the size counter spoils exactly the frames without a size field. |
| FrameReading.FrameRead | firmware_src/modules/lz4stream/lib/lz4frame.c:1113-1793 | A frame of the format is read as such, whatever follows it. |
| FrameReading.StrictFrame | firmware_src/modules/lz4stream/lib/lz4frame.c:1113-1793 | Conversely, an input that is read up to an end, with all blocks well-formed and the declared size met, starts with a frame of the format that has this text. |
| FrameFormat.FrameDelimited | firmware_src/modules/lz4stream/lib/lz4frame.c:1746-1793 | Bytes behind a whole frame make it something else: a frame ends where it ends. |
| KnownFrames.FirmwareHeader | firmware_src/modules/lz4stream/lib/lz4frame.c:1113-1205 | 04 22 4D 18 40 40 C0 is a header, for linked blocks of 64 KB, and the one that the firmware's preferences make. |
| KnownFrames.FullHeader | firmware_src/modules/lz4stream/lib/lz4frame.c:1113-1205 | A header with both checksum flags and a declared size, by its bytes. |
| KnownFrames.DictionaryHeader | firmware_src/modules/lz4stream/lib/lz4frame.c:1113-1205 | One with independent blocks and a dictionary ID. |
| KnownFrames.FirmwareFrame | firmware_src/modules/lz4stream/lib/lz4frame.c:1113-1793 | A frame with a compressed and a raw block, by its bytes, decodes to its text. |
| KnownFrames.FullFrame | firmware_src/modules/lz4stream/lib/lz4frame.c:1113-1793 | So does one with block and content checksums and a declared size. |
| KnownFrames.SkippableFrame | firmware_src/modules/lz4stream/lib/lz4frame.c:1795-1842 | Skippable frames have one of 16 magic numbers and a size in four bytes. |
| KnownFrames.DecodeKnown | firmware_src/modules/lz4stream/lib/lz4frame.c:1384-1879 | The decoder returns these texts for these bytes, however they are cut. |
| KnownFrames.ReadFirmwareHeader | firmware_src/modules/lz4stream/lib/lz4frame.c:1113-1205 | It accepts the seven bytes of the firmware's header. |
| KnownFrames.WriteFirmwareHeader | firmware_src/modules/lz4stream/lib/lz4frame.c:598-700 | The encoder writes exactly these bytes. |
| FrameEncoder.RoomMonotone | firmware_src/modules/lz4stream/lib/lz4frame.c:324-349 | More input never needs less room. |
| FrameEncoder.BoundSuffices | firmware_src/modules/lz4stream/lib/lz4frame.c:724-730 | The documented LZ4F_compressBound, which does not depend on the state, is enough in every state. |
| FrameEncoder.HeaderWritten | firmware_src/modules/lz4stream/lib/lz4frame.c:669-699 | The header that is written is valid and carries the parameters it was written for. |
| FrameEncoder.MakeBlock | firmware_src/modules/lz4stream/lib/lz4frame.c:740-763 | One block of the frame that stands for its source behind the text so far: the planned block if it is smaller than the source, and otherwise the source itself, with header and checksum. Equal bytes are never stored raw. |
| FrameEncoder.CCtx.CompressBegin | firmware_src/modules/lz4stream/lib/lz4frame.c:598-700 | The header, byte for byte, in at most 19 bytes; a context in the middle of nothing becomes one at the start of a frame. |
| FrameEncoder.CCtx.CompressUpdate | firmware_src/modules/lz4stream/lib/lz4frame.c:825-927 | Fails exactly when no frame is started or the room is below the bound; otherwise emitted blocks plus buffered bytes stand for all input, exactly what makes no full block is buffered, and nothing refers to the source unless it is declared stable. |
| FrameEncoder.CCtx.SaveTmp | firmware_src/modules/lz4stream/lib/lz4frame.c:809-814 | The dictionary moves to the context's own buffer: its last 64 KB, or all of it. |
| FrameEncoder.CCtx.Flush | firmware_src/modules/lz4stream/lib/lz4frame.c:938-974 | What is buffered becomes a block; fails exactly when the room is below the buffered size plus 8. |
| FrameEncoder.CCtx.CompressEnd | firmware_src/modules/lz4stream/lib/lz4frame.c:986-1022 | Everything emitted is a frame that decodes to all that was taken in; LZ4F_compressBound(0) is room enough; a declared content size must have been met. |
| FrameEncoder.OptimalBSID | firmware_src/modules/lz4stream/lib/lz4frame.c:304-316 | The smallest block size that takes the source in one block, if it is not above the requested one. |
| FrameEncoder.FrameBoundKept | firmware_src/modules/lz4stream/lib/lz4frame.c:351-361 | The bound computed from the caller's preferences equals the one for the block size chosen internally. |
| FrameEncoder.CompressFrame | firmware_src/modules/lz4stream/lib/lz4frame.c:373-419 | Fails exactly below LZ4F_compressFrameBound; otherwise the frame decodes to the source. |
| FrameRoundTrip.Encode | firmware_src/modules/lz4stream/lib/lz4frame.c:598-1022 | Any input in any pieces with flushes anywhere, linked or independent blocks, autoFlush on or off, checksums on or off: the emitted frame decodes to the input and the context can be used again. |
| FrameRoundTrip.RoundTrip | firmware_src/modules/lz4stream/lib/lz4frame.c:598-1879 | Any way of compressing and any schedule of decompressing give the input back. |
| LogFile.LogStream.Lz4Open | firmware_src/modules/lz4stream/lib/lz4file.c:60-114 | A frame is begun in the temporary file, which is not truncated if it exists. |
| LogFile.LogStream.Lz4Write | firmware_src/modules/lz4stream/lib/lz4file.c:117-171 | No frame call fails, output fits the 4200-byte buffer, nsrcdata is exactly what is left behind the full chunks, a string that still fits changes no file, and the text written so far is accounted for. |
| LogFile.LogStream.Lz4Close | firmware_src/modules/lz4stream/lib/lz4file.c:173-203 | The file that gets its final name is a frame that decodes to all strings written, followed by what an older temporary file held behind it. |
| LogFile.LeftOver | firmware_src/modules/lz4stream/lib/lz4file.c:79-84 | Such a file decodes to the text if and only if the older temporary file was not longer than the new frame. |
| LogFile.CleanFile | firmware_src/modules/lz4stream/lib/lz4file.c:60-203 | Where no older temporary file was left, the file is a frame that decodes to exactly its strings. |
| LogFile.WriteFiles | firmware_src/modules/lz4stream/lib/lz4file.c:60-203 | Any number of files on one reused context: each holds a frame of exactly its strings; no other file changes. |
| XxHash32.Finalize | firmware_src/modules/lz4stream/lib/xxhash.c:290-348 | The fall-through switch is the simple loop over words, then bytes. |
| XxHash32.OneShot | firmware_src/modules/lz4stream/lib/xxhash.c:352-389 | Computes the specified hash of the input for every seed. |
| XxHash32.State.Update | firmware_src/modules/lz4stream/lib/xxhash.c:452-512 | After any partition into updates the state stands for the concatenation, memsize and the 32-bit length counter included. |
| XxHash32.State.Digest | firmware_src/modules/lz4stream/lib/xxhash.c:527-543 | The digest of the streamed input equals the one-shot hash of the concatenation. |
| KnownHashes.NothingHashed | firmware_src/modules/lz4stream/lib/xxhash.c:352-389 | The hash of nothing is 02CC5D05. |
| KnownHashes.AbcHashed | firmware_src/modules/lz4stream/lib/xxhash.c:290-348 | That of abc is 32D153FF. |
| KnownHashes.AbcdHashed | firmware_src/modules/lz4stream/lib/xxhash.c:290-348 | That of abcd is A3643705. |
| KnownHashes.LongHashed | firmware_src/modules/lz4stream/lib/xxhash.c:352-389 | That of 37 bytes with a seed: lanes, both tail steps and the final mix. |
| HcIndex.Tables.Insert | firmware_src/modules/lz4stream/lib/lz4hc.c:117-136 | Keeps the index invariant for every position up to the target, through 16-bit slots and clamped deltas. |
| HcIndex.Tables.Init | firmware_src/modules/lz4stream/lib/lz4hc.c:100-114 | A stream starts with indexes above everything an earlier one has left in the tables, which need not be cleared. |
| HcIndex.Tables.SetExternalDict | firmware_src/modules/lz4stream/lib/lz4hc.c:1087-1103 | The prefix becomes the external dictionary, and the tables are right for it. |
| HcIndex.SearchIsScan | firmware_src/modules/lz4stream/lib/lz4hc.c:117-136 | Following the chain visits, inside the window, exactly the inserted positions with that hash, nearest first: it equals a scan of all positions. |
| HcSearch.CountPattern | firmware_src/modules/lz4stream/lib/lz4hc.c:171-200 | Exactly how long a four-byte pattern repeats. |
| HcSearch.ReverseCountPattern | firmware_src/modules/lz4stream/lib/lz4hc.c:205-220 | Exactly how far a pattern reaches down. |
| HcSearch.JumpPattern | firmware_src/modules/lz4stream/lib/lz4hc.c:368-403 | The jump inside a segment of a repeated byte lands on an inserted position, and a length it reports is genuine. |
| HcSearch.ComparePrefix | firmware_src/modules/lz4stream/lib/lz4hc.c:279-294 | A prefix candidate is compared in full: its length and start are reported if and only if it is longer than the longest so far. |
| HcSearch.CompareDict | firmware_src/modules/lz4stream/lib/lz4hc.c:295-311 | A dictionary candidate is genuine across the border to the prefix; in the last three bytes of the dictionary, where only a chain swap leads, nothing is reported. |
| HcSearch.InsertAndGetWiderMatch | firmware_src/modules/lz4stream/lib/lz4hc.c:235-411 | A length above the one asked for comes with a genuine match, within 65535 bytes and the given limits, through chain swaps and repeated-pattern jumps and across the dictionary border. No match at the nearest inserted position with the same hash is longer; without pattern analysis and chain swap, none at the first maxNbAttempts of them is. |
| HcEncoder.EncodeSequence | firmware_src/modules/lz4stream/lib/lz4hc.c:473-544 | Appends exactly this sequence to the block, in exactly as many bytes as its price; refused only if it and 6 more bytes do not fit. |
| HcHashChain.CorrectedOk | firmware_src/modules/lz4stream/lib/lz4hc.c:624-639 | The overlap of two matches can always be divided so that both keep at least 4 bytes. |
| HcHashChain.CorrectedStart | firmware_src/modules/lz4stream/lib/lz4hc.c:626-639 | The first of them keeps 18 bytes, or all it has if that is less, but always leaves 4 to the second. |
| HcHashChain.CorrectedOnce | firmware_src/modules/lz4stream/lib/lz4hc.c:702-713 | Dividing once is enough: the second correction, before the first of three matches is written, changes nothing. |
| HcHashChain.AtSearch2 | firmware_src/modules/lz4stream/lib/lz4hc.c:595-621 | At _Search2 every match at hand is genuine, starts at or after the anchor and is at least 4 long; the next state and the sequences written are those of the state machine, for the result of the search around the end of the first match. |
| HcHashChain.AtSearch3 | firmware_src/modules/lz4stream/lib/lz4hc.c:623-727 | So it is at _Search3, through all ways of shortening, dropping and writing up to three matches; each step gets closer to the end. |
| HcHashChain.CompressHashChain | firmware_src/modules/lz4stream/lib/lz4hc.c:549-764 | Whatever the tables lead to, the limited and unlimited output decodes to the source and meets the end-of-block restrictions; it fails only if the bound does not fit. The gotos are a state machine: the block is exactly what it comes to, from the first position to the last, each search answered in turn. Equal bytes become one match. |
| KnownNumbers.FirstMoves | firmware_src/modules/lz4stream/lib/lz4hc.c:595-621 | Moves of that state machine with numbers: which match replaces another, and which is kept beside it. |
| KnownNumbers.SecondMoves | firmware_src/modules/lz4stream/lib/lz4hc.c:623-727 | How two and three overlapping matches are divided, dropped and written. |
| HcOptimal.PriceIsSize | firmware_src/modules/lz4stream/lib/lz4hc.c:1264-1287 | The price of a sequence is exactly the number of bytes it is written with. |
| HcOptimal.LiteralsPriceIsSize | firmware_src/modules/lz4stream/lib/lz4hc.c:1264-1271 | So is the price of literals, next to their token. |
| HcOptimal.LiteralCostRight | firmware_src/modules/lz4stream/lib/lz4hc.c:1452-1465 | The price of literals behind a match is right if and only if those before the match and these together would need no further length byte. |
| HcOptimal.Consider | firmware_src/modules/lz4stream/lib/lz4hc.c:1452-1511 | A match that is considered makes no position up to the last one dearer, and afterwards nothing that it leads to is cheaper than what the table has. |
| HcOptimal.Reverse | firmware_src/modules/lz4stream/lib/lz4hc.c:1518-1536 | The reverse traversal turns the table into a path of literals and genuine matches from 0 to the target, which are exactly the steps that lead there back through the table. |
| HcOptimal.Explore | firmware_src/modules/lz4stream/lib/lz4hc.c:1416-1516 | Every position of the table stays a literal or a genuine match that ends there, and no position becomes dearer. Each one has been searched unless the next is no dearer; what its match leads to is no cheaper than what the table has. It ends with the step that ends the table, or at a match that is good enough. |
| HcOptimal.ParseFrom | firmware_src/modules/lz4stream/lib/lz4hc.c:1379-1556 | What is written are exactly the steps of such an exploration, which starts from the first match. |
| HcOptimal.CompressOptimal | firmware_src/modules/lz4stream/lib/lz4hc.c:1318-1589 | Whatever the tables lead to and whatever the prices are, the limited and unlimited output decodes to the source, and is exactly what the rounds of searching, exploring and tracing back come to. Equal bytes become one match if it is long enough to be taken at once. |
| HcStream.StreamHC.Continue | firmware_src/modules/lz4stream/lib/lz4hc.c:1105-1148 | Blocks that follow each other, in one place or in several: each decodes behind everything compressed before. The history is exactly the prefix and, for a block that follows it, the dictionary; the block is what the parser of its level comes to behind it. |
| HcStream.StreamHC.SaveDict | firmware_src/modules/lz4stream/lib/lz4hc.c:1162-1183 | The saved bytes are the end of the prefix and become the whole history. |
| HcStream.CompressHC | firmware_src/modules/lz4stream/lib/lz4hc.c:935-967 | One block at any level decodes to the source, and is what the parser of that level comes to; runs of equal bytes that are taken at once have exactly 10 + (n + 230)/255 bytes. |
| KnownNumbers.Levels | firmware_src/modules/lz4stream/lib/lz4hc.c:806-838 | Searches and sufficient lengths of the levels, by their numbers. |
| KnownNumbers.Hashes | firmware_src/modules/lz4stream/lib/lz4.c:696-702 | The hash functions of the tables, by a value of each. |
| KnownNumbers.SixtySixInARow | firmware_src/modules/lz4stream/lib/lz4.c:957-968 | At acceleration 1, 66 positions in a row are tested before one is skipped. |
| KnownNumbers.BlockBounds | firmware_src/modules/lz4stream/lib/lz4.c:671-671 | LZ4_compressBound at its ends. |
| KnownNumbers.FrameBounds | firmware_src/modules/lz4stream/lib/lz4frame.c:324-361 | The bounds of the frame layer, by their numbers. |
| KnownNumbers.LogNumbers | firmware_src/modules/lz4stream/lib/lz4file.c:28-58 | Chunk, buffer, temporary name and preferences of the log files. |

## Left out
- BlockDecoder.DecompressGeneric: the endOnOutputSize mode (`LZ4_decompress_fast` and its variants) is not modelled, nor are the fast decoding loop (not built for 32-bit targets) and partial decoding with an external dictionary, which no caller uses. Addresses do not wrap around: the pointer tests at lz4.c:1981-1982 and 2066 cannot fire.
- BlockEncoder.CompressBlock: does not model the usingDictCtx mode. Tables of pointers (byPtr, used on 32-bit targets for inputs of 64 KB and more without history) are modelled by 32-bit indexes. The table has 8192 slots in all modes, and the theorems hold for any hash function on four bytes.
- BlockStream.Stream.CompressFastContinue: asks for inputs of at most LZ4_MAX_INPUT_SIZE; larger ones would only advance the dictionary. `LZ4_loadDict` and `LZ4_attach_dictionary` are not modelled.
- FrameDecoder.DCtx.Decompress: inputs with a block that uses offset 0 have no specified reading; for them, only memory safety and the window are claimed. Buffers are separate objects, so two buffers are never adjacent by accident. `LZ4F_decompress_usingDict` and `LZ4F_getFrameInfo` are not modelled.
- FrameEncoder.CCtx.CompressUpdate: frames are modelled for the fast levels (below 3) and without CDict.
- HcStream.StreamHC.Continue: a new block put over its own history (lz4hc.c:1129-1137) is not modelled.
- HcSearch.InsertAndGetWiderMatch: with pattern analysis or chain swap, it promises no more than to beat the nearest candidate; which of the others are visited is not stated.
- HcOptimal.CompressOptimal: the prices need not be those of the shortest block, and the length of the result is not compared with that of other parses. How long the result is for equal bytes is stated only where the match is taken at once.
- FrameDecoder.DCtx.HintStaysInside: a skippable frame with less than 3 bytes is shorter than the header that is expected in its place; there, only the bound of 4 bytes is stated.
- HcHashChain.CompressHashChain: the fillOutput mode and dictionary contexts of the high compression levels are not modelled; neither are they for HcOptimal.CompressOptimal.
- LogFile.WriteFiles: models reuseContext set to true; with false, the context is freed but still used by the next lz4open. Input and output and allocation succeed, and strings are shorter than CHUNKSIZE, as the code asserts.
- XxHash32.State.Digest: XXH64 is not modelled; the frame format does not use it.
- Allocation failures, NULL arguments of the hash functions, deprecated wrappers, compiler and endianness variants.
- The upload client, modem, sensors, configuration and file system glue of the firmware.
