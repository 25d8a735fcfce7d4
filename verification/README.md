# What this project proves

A Dafny model of the parts of the repository that decide whether data survives: the DEFLATE and
zlib code of `src/miniz.c`, which the plugin installer compiles in, the extraction loop of
`src/ZipInstaller.cpp`, the worker bookkeeping of `daemon/worker_manager.py`, and the JSON printer
of `include/JsonStd.h`. The model follows the code branch by branch, in the configuration that is
compiled by default (`MINIZ_USE_UNALIGNED_LOADS_AND_STORES` is 0). Loops that update arrays are
loops over arrays, and the compressor, the inflater, the bit buffers and the worker manager are
classes with the fields of the original.

`dafny verify dfyconfig.toml` checks everything.

**The main result** is `RoundTrip.CompressAndDecompress`: for every choice of flags, every way of
cutting the input into calls and every flush between them, decompressing what the compressor hands
out gives back the input, with a matching checksum, however the compressed bytes are cut into input
buffers. Whatever follows the stream is left in the input, and no bits are held any more, which the
source asserts (`src/miniz.c:2860`). `RoundTrip.ThereAndBackInARing` says the same, checksum
included, for a ring of at least 32 KiB that is emptied whenever it is full.

**The second** answers a question the source leaves open. `tdefl_flush_block` has a branch for a
block with dynamic codes that does not fit the output buffer, which its comment takes to be very
unlikely and perhaps impossible (`src/miniz.c:1323`), and an assertion that the buffer has not
overflowed at the end (`src/miniz.c:1365`). The branch is dead and the assertion always holds
(`BlockWriter.CompressBlock`, `BlockWriter.FlushBlock`). The proof needs that the in-place
minimum-redundancy pass is optimal, that limiting its lengths to 15 costs less than one bit a symbol,
and that the fixed codes are among the codes it cannot do worse than.

**The third** is about input that no compressor made. `tinfl_decompress` takes more than the format
allows, and `Lenient` says how much more at most: symbols 286 and 287 are empty matches, length 258 has a second spelling, in a ring no distance is too far, and an
incomplete code yields symbol 0 where it has no word. `RoundTrip.Decompress` proves that whatever
ends well is a stream in that sense, consumed bit for bit, whose data is what was written, and that
a mismatch is reported exactly when the checksum is not that of the data. `PlainStreams.PlainIsValid`
proves that where none of this lenience was used, it is a list of valid blocks.

**The fourth** holds both ends against the standards instead of against each other. `Standard` is a
decoder for RFC 1951 and RFC 1950 without tables, loops or anything shared with the rest but bytes,
powers of two and two plain sums. It reads everything that was put in from what the compressor hands out
(`StandardStreams.CompressForStandard`), and from whatever it can read, made by any compressor, the
inflater makes the same data (`StandardStreams.DecompressStandard`). In between stands
`StandardBlocks`: the streams it reads are exactly those of valid blocks.

All four rest on theorems that hold by themselves:

* Huffman codes (`Optimality`, `MinRedundancy`, `CodeDepths`, `LengthLimit`, `LimitedCost`,
  `RadixSort`, `SymbolLists`, `HuffmanEncoder`, `Canonical`): counts become lengths of minimal cost
  that fill a tree exactly, then lengths within the limit that are nearly as cheap, and canonical
  codes no one of which begins another.
* Table-driven decoding (`InflateTables`, `NodeCount`, `HuffTable`, `HuffDecode`): the ten-bit
  look-up and the tree behind it return the one symbol whose code word comes next; the tree never
  outgrows its array.
* Bit streams and headers (`Bits`, `BitIO`, `CodingRoundTrip`, `CodeLengthRle`, `DynamicHeader`,
  `HeaderReader`, `FixedCodes`, `Blocks`, `Zlib`): what is put is what is got, down to the
  run-length code of the code lengths and the zlib header.
* Parsing and copying (`Lz77`, `Tokens`, `CodeBuffer`, `TokenWriter`, `LzDictionary`, `Compressor`,
  `OutBuf`, `InflateBody`): the lazy and greedy parser records codes that expand to the source
  whatever the hash chains contain, with no code the flags forbid; no link of a chain that is
  followed gives a better match; the 64 KiB code buffer and the 16-bit counters do not overflow,
  and the wrapping, overlapping copy of the inflater is the byte-by-byte copy.
* Whole streams (`BlockSize`, `BlockWriter`, `Deflate`, `Lenient`, `InflateBlocks`, `PlainStreams`,
  `RoundTrip`): blocks of all three types, flushes in all four modes, the choice between compressing
  and storing, and what an accepted stream can be.
* The standards (`Standard`, `StandardCodes`, `StandardBodies`, `StandardHeaders`, `StandardBlocks`,
  `StandardStreams`): code words, fields, headers, bodies and blocks, each in both directions.
* Checksums (`Crc32`, `Adler32`): the fast loops compute the defining recurrences, CRCs have their
  residue, and Adler-32 is written out as two sums.
* Zip directories (`CentralDir`): heap sort and binary search agree with the linear scan.
* Extraction (`ZipExtract`): which names are safe, byte accounting under any decompressor and any
  disk, and exactly when an archive is staged.
* Workers (`WorkerManager`): when a plugin is RUNNING or FAILED, over every run, and what a call returns.
* JSON (`Json`): an RFC 8259 parser undoes the printer.

Two conventions: a bit string is a `seq<bool>` in the order in which DEFLATE sends bits, and a ghost
parameter of a reading method (`v`, `more`, `blocks`, `Script`) is universally quantified: the
contract speaks about every input that happens to begin with the bits of that value. A ghost result
(`read`, `ps`, `moved`) is a witness: what the input turned out to be.

## Model

| member | source | states |
|---|---|---|
| Crc32.Crc32 | src/miniz.c:96-159 | the four-at-a-time table loop returns, for every byte string and every starting value, the CRC defined bit by bit with the reflected polynomial 0xEDB88320, inverted before and after |
| Crc32.CrcAppend | src/miniz.c:96-159 | the CRC of b continued from the CRC of a is the CRC of a followed by b |
| Crc32.Residue | src/miniz.c:96-159 | whatever is checksummed, the CRC of it with its own CRC behind it, low byte first, is 0x2144DF1C |
| Crc32.Entries | src/miniz.c:98-137 | each of the 256 table entries is what feeding its index, bit by bit, makes of an empty register |
| Crc32.LookedUp | src/miniz.c:142-156 | feeding eight bits to any register is one shift and one table look-up |
| Crc32.FeedByteLinear | src/miniz.c:98-156 | feeding is linear over exclusive or, which is why a table works at all |
| Adler32.Adler32 | src/miniz.c:41-67 | with the remainder put off to the end of each block the result is the checksum reduced after every byte, from any starting value (`AdlerClosed` writes it out); the loop ends although its first block may be empty |
| Adler32.SmallFits | src/miniz.c:49-63 | neither running sum reaches 2^32 within a block of up to 5552 bytes, even from unreduced starting sums |
| Adler32.AdlerAppend | src/miniz.c:41-67 | checksumming in pieces is checksumming the whole |
| Adler32.AdlerClosed | src/miniz.c:41-67 | the low half is the sum of the bytes, the high half the sum in which every byte counts once for every byte from it to the end, both modulo 65521 |
| Adler32.Block | src/miniz.c:49-62 | a block of up to 5552 bytes, eight at a time and then one at a time, adds exactly its bytes to both sums |
| RadixSort.RadixSortSyms | src/miniz.c:747-778 | whichever buffer is returned, and with the second pass skipped when no key has a high byte, its first n entries are the input in ascending key order, equal keys in input order |
| RadixSort.Pass | src/miniz.c:762-770 | one pass lists the entries bucket by bucket, each bucket in the order it came |
| RadixSort.TwoPasses | src/miniz.c:760-776 | a pass on the low byte and then one on the high byte sort stably by the whole 16-bit key |
| RadixSort.SortedPermutes | src/miniz.c:747-778 | a stably sorted list is a permutation of the original |
| MinRedundancy.FormTree | src/miniz.c:781-811 | the first pass leaves in the keys a tree in which every node weighs what its children weigh together and the root weighs the total; after every round the two queues still weigh what the leaves weigh; leaves are taken before any heavier node; no lengths that satisfy Kraft's inequality cost less than all node weights together; no 16-bit key wraps |
| MinRedundancy.PairFits | src/miniz.c:791-809 | the two items joined in a round never weigh more than the total, so the 16-bit sum is exact |
| Optimality.LowerStep | src/miniz.c:791-810 | joining the two lightest items, as every round does, loses nothing: whatever lengths the items had, the joined items can have lengths that are cheaper by the weight of the new node |
| Optimality.TwoLongest | src/miniz.c:781-834 | any lengths with room to spare can be shortened until two are the longest, without costing more |
| Optimality.LightestDeep | src/miniz.c:781-834 | the two lightest items can have the longest lengths without costing more |
| MinRedundancy.RoundKeeps | src/miniz.c:794-810 | a round of the first pass keeps all that: cheapest nodes, balanced queues, and leaves taken in order |
| CodeDepths.SetDepths | src/miniz.c:812-814 | the second pass turns parent links into depths |
| CodeDepths.DepthBound | src/miniz.c:781-834 | with a total below 65536 no internal node lies deeper than 21, so the index by length stays inside its array |
| CodeDepths.AssignLengths | src/miniz.c:815-833 | the third pass turns depths into leaf lengths that fill the tree exactly, never increase with the index, and cost exactly what the internal nodes weigh together |
| CodeDepths.SpentLevel | src/miniz.c:818-833 | level by level, the leaves have cost as much as the internal nodes above weigh |
| CodeDepths.LeafWeight | src/miniz.c:781-834 | a symbol with code length d, counted as often as the Fibonacci number of d says, weighs no more than the total |
| CodeDepths.CalculateMinimumRedundancy | src/miniz.c:781-834 | on at least two ascending keys with total below 65536: Kraft sum exactly one, lengths at most 22 and never increasing, symbols unmoved, and the weighted length is minimal among all lengths that satisfy Kraft's inequality; one key gets length one |
| LengthLimit.EnforceMaxCodeSize | src/miniz.c:841-863 | from a full tree of at most 2^max symbols the loop ends with a full tree of the same number of symbols, none longer than max; lengths below a certain one are left alone, and that one is only split when everything longer has been split away and the sum is still too large |
| LengthLimit.FoldLong | src/miniz.c:847-848 | all counts beyond the limit are added to the count at the limit |
| LengthLimit.SplitOne | src/miniz.c:853-860 | one symbol of the greatest length below the limit that has any is split; no count goes below zero |
| LengthLimit.StillShort | src/miniz.c:851-860 | while the tree is too full some shorter length is in use, so the inner search always finds one |
| LengthLimit.SplitWeight | src/miniz.c:849-862 | a split lowers the total by exactly one, which is why `total - 2^max` measures the loop |
| LengthLimit.SplitReaches | src/miniz.c:851-862 | each round keeps what is said about how far the splitting has come |
| LimitedCost.ReachedPushed | src/miniz.c:841-863 | symbol by symbol: beyond one symbol the lengths are what they were, and when that one was split the sum was still too large although all rarer ones had length 15 |
| LimitedCost.LimitedNear | src/miniz.c:841-863 | limiting lengths to 15 costs at most 0.92 bits a symbol sent, and at most a tenth of a bit with up to 32 symbols in use |
| HuffmanEncoder.CodeTable.OptimizeHuffmanTable | src/miniz.c:865-916 | with counts: used symbols and only those get a length, at most the limit, never longer than a rarer one, and two used symbols or more fill the tree; as long as no symbol gets the longest length allowed, no code sends the symbols in fewer bits, and with a limit of 15 none saves as much as one bit a symbol. With or without counts: the codes are the canonical ones of the lengths, bit-reversed |
| HuffmanEncoder.CodeTable.CollectSyms | src/miniz.c:877-885 | the list of the used symbols with their counts, in order |
| HuffmanEncoder.LengthHistogram | src/miniz.c:890-891 | how many codes there are of every length |
| HuffmanEncoder.AssignSizes | src/miniz.c:895-899 | lengths are handed out from the most frequent symbol down, so a rarer symbol never gets a shorter code |
| HuffmanEncoder.GoodLengths | src/miniz.c:887-899 | the lengths handed out are best possible when none is the longest allowed, and near the best when the limit is 15 |
| HuffmanEncoder.NextCodes | src/miniz.c:902-904 | the first code of every length is the canonical one |
| HuffmanEncoder.CodeTable.AssignCodes | src/miniz.c:906-915 | every symbol with a length gets its canonical code, low bit first |
| Canonical.ReverseCode | src/miniz.c:912-913 | shifting a code out at one end and in at the other reverses its bits |
| Canonical.PrefixFree | src/miniz.c:902-915 | no canonical code word begins another, for every list of lengths that fits a tree |
| Canonical.CompleteStarts | src/miniz.c:2593-2601 | with lengths that fill the tree every string of 15 bits begins with the code word of exactly one symbol |
| Canonical.AcceptedFits | src/miniz.c:2598-2601 | whatever passes the check on the sum, or uses at most one symbol, fits a tree |
| BitIO.BitWriter.Put | src/miniz.c:918-934 | exactly the given bits are appended to the stream, first the low one; afterwards fewer than eight are held, so the 32-bit buffer loses none |
| BitIO.BitWriter.EmitByte | src/miniz.c:926-932 | a byte goes to the output, or is dropped when that is full; the stream the object stands for does not change |
| BitIO.BitWriter.PadToByte | src/miniz.c:1336-1339 | zero bits up to the next byte; if the buffer was large enough the bytes are the whole stream |
| BitIO.BitWriter.Rewind | src/miniz.c:1308-1309 | restoring the saved position, buffer and bit count forgets exactly what was put since |
| BitIO.BitReader.NeedBits | src/miniz.c:2325-2332 | bytes are taken only until there are enough bits, from as many input buffers as it takes; nothing unread is lost, and it fails exactly when all input together has too few |
| BitIO.BitReader.GetBits | src/miniz.c:2344-2355 | succeeds exactly when n bits are left, and then yields and consumes the next n |
| BitIO.BitReader.SkipBits | src/miniz.c:2333-2343 | drops the next n bits, or nothing when there are fewer |
| BitIO.BitReader.Refill | src/miniz.c:2314-2332 | the next input buffer continues the used-up one: what is unread is the same |
| BitIO.BitReader.Await | src/miniz.c:2314-2323 | the waiting loop goes on with the next buffer that has a byte, changing nothing unread, and fails exactly when no byte is left anywhere |
| BitIO.BitReader.TakeByte | src/miniz.c:2325-2330 | a byte moves from the input to above the bits held, and the unread bits stay the same |
| BitIO.BitReader.PutBack | src/miniz.c:2854-2859 | whole bytes that were only looked at go back; what is unread stays the same, and none is held any more unless it came from an earlier buffer |
| BitIO.PutThenGet | src/miniz.c:918-934 | fields put in order are read back as the same values, whatever follows |
| CodingRoundTrip.FieldsThereAndBack | src/miniz.c:918-934 | for every list of values and widths of at most 16 bits: written through the bit writer, padded to a byte and read back by the bit reader, they are the same values |
| CodingRoundTrip.SymbolsThereAndBack | src/miniz.c:865-934 | for every table of counts with total below 65536 and every list of counted symbols: the inflater accepts the lengths the compressor makes, and decodes from the codes it writes the same list |
| InflateTables.InsertShort | src/miniz.c:2610-2619 | entering a short code at every index that ends in it keeps the look-up right for all codes entered so far |
| InflateTables.AddNode | src/miniz.c:2620-2638 | a new tree node gets a number no other node has |
| InflateTables.InsertLeaf | src/miniz.c:2639-2640 | entering the last bit of a long code keeps both tables right for all codes entered so far |
| NodeCount.NodesComplete | src/miniz.c:2602-2641 | a full tree never needs more internal nodes than there are symbols less one, so the tree array is large enough |
| NodeCount.NodesLone | src/miniz.c:2598-2641 | a single code needs at most five |
| HuffTable.Table.Build | src/miniz.c:2586-2641 | lengths are accepted exactly when they fill the tree or at most one symbol is used; accepted lengths get tables that represent their canonical code words, inside the arrays, no slot serving two nodes |
| HuffTable.NextCodes | src/miniz.c:2591-2597 | counts become first codes, the number of used symbols and the sum that is compared with 65536 |
| HuffDecode.Resolve | src/miniz.c:2410-2419 | look-up and then tree yield the one symbol whose code word the bits begin with, and its exact length; when there is none, symbol 0 |
| HuffDecode.Fill | src/miniz.c:2361-2383 | takes bytes one at a time and none that decoding does not need |
| HuffDecode.Gather | src/miniz.c:2392-2409 | afterwards enough bits are held to settle the next symbol, or all input together begins with no code word; what is held of earlier buffers does not yet hold one |
| HuffDecode.Decode | src/miniz.c:2392-2424 | whenever the unread bits begin with a code word its symbol is returned and exactly its bits are consumed; a symbol other than 0 is returned only then; with a complete code it waits for input only when they do not, and then loses nothing |
| HuffDecode.CompleteFills | src/miniz.c:2598-2601 | with complete lengths every 15 bits begin with some code word |
| CodeLengthRle.Pack | src/miniz.c:1010-1044 | for every list of sizes up to 15 the packed symbols and extra values decode to the list; repeats never come first, extra values fit their bits, and the packed list is no longer than the input |
| CodeLengthRle.FlushRepeat | src/miniz.c:936-954 | a pending repeat is written as items that stand for exactly that many copies |
| CodeLengthRle.FlushZeros | src/miniz.c:956-980 | the same for pending zeros |
| CodeLengthRle.PackLength | src/miniz.c:1021-1035 | a nonzero size: everything seen so far is either packed or pending |
| CodeLengthRle.PackZero | src/miniz.c:1013-1020 | a zero size: everything seen so far is either packed or pending |
| DynamicHeader.Encoder.StartDynamicBlock | src/miniz.c:984-1069 | codes are built from the counts, and what is written is the block type and a header that describes exactly those codes, which `StandardHeaders.HeaderReads` holds against RFC 1951 |
| DynamicHeader.Encoder.BuildCodes | src/miniz.c:990-993 | both codes fit the counts and their limits, and no other codes save as much as one bit a symbol |
| DynamicHeader.Encoder.ListLengths | src/miniz.c:995-1004 | the two lists without trailing unused symbols, at least 257 and 1 long, still usable as codes |
| DynamicHeader.Encoder.BuildLengthCode | src/miniz.c:1046 | every symbol of the packed list has a code of at most seven bits |
| DynamicHeader.SendSizes | src/miniz.c:1058-1059 | the sizes of the code-length code in the order of the standard: 16, 17, 18, 0, 8, 7, 9, 6 and so on, three bits each |
| DynamicHeader.SizesInOrder | src/miniz.c:982 | the k-th three bits are the size of symbol 16 + k for k < 3, then of 0, then of 8, 7, 9, 6 and so on outwards, by a formula |
| DynamicHeader.SendItems | src/miniz.c:1061-1068 | the packed list is sent item by item, extra bits included |
| DynamicHeader.LastSent | src/miniz.c:1053-1057 | no size beyond the number sent is nonzero, and at least four are sent |
| DynamicHeader.TrimCode | src/miniz.c:995-1003 | cutting trailing unused symbols changes no code word and no completeness |
| HeaderReader.ReadHeader | src/miniz.c:2562-2669 | accepted headers leave tables that decode the lengths read; on the bits of a valid header those are the lengths it was made from; and on any input, the bits of an accepted header are those its lengths were read from. Which headers are valid, `StandardHeaders` says by RFC 1951 |
| HeaderReader.ReadCounts | src/miniz.c:2562-2566 | HLIT, HDIST and HCLEN come back |
| HeaderReader.ReadSizes | src/miniz.c:2567-2573 | the sizes of the code-length code come back, those not sent as zero; on any input, what has been read stands in the order of the standard |
| HeaderReader.ReadItem | src/miniz.c:2646-2661 | one turn of the repeat loop appends exactly the run its item stands for, inside the array for any input |
| HeaderReader.ReadSymbol | src/miniz.c:2392-2424 | the symbol whose code word comes next is read; on any input, what has been consumed is the code word of the symbol returned, or the code is incomplete and the symbol is 0 |
| HeaderReader.ReadLengths | src/miniz.c:2644-2666 | on the bits of a list of items the repeat loop returns the lengths they stand for, with no length above 15 for any input |
| Lenient.LengthsReadNext | src/miniz.c:2644-2666 | one more item, with the bits it was read from, adds its run to the lengths read so far |
| HeaderReader.BuildFor | src/miniz.c:2576-2601 | a list of lengths is accepted exactly when it fills its tree or uses at most one symbol |
| Tokens.LengthRecovered | src/miniz.c:686-703 | the inflater's base and extra bits give back every match length from the symbol and the masked bits the compressor sends |
| Tokens.DistanceRecovered | src/miniz.c:704-742 | the same for every distance up to 32768 |
| Tokens.LengthTable | src/miniz.c:2438-2439 | what the inflater's two length tables contain, in closed form |
| Tokens.DistTable | src/miniz.c:2440-2441 | what its two distance tables contain, in closed form |
| CodeBuffer.LzCodes.RecordLiteral | src/miniz.c:1706-1717 | the token list grows by the literal, in a 64 KiB buffer that still holds exactly those tokens; counts stay exact and do not wrap |
| CodeBuffer.LzCodes.RecordMatch | src/miniz.c:1719-1745 | the same for a match and its two symbols |
| CodeBuffer.LzCodes.Flag | src/miniz.c:1709-1716 | the flag enters at the top of its byte, and every eighth one opens a new flag byte |
| CodeBuffer.LzCodes.FewTokens | src/miniz.c:1706-1745 | the buffer never holds more than 58254 codes, so no 16-bit count and no sum of counts can wrap |
| CodeBuffer.LzCodes.Close | src/miniz.c:1265-1266 | after moving the last flag byte down, or giving it back, the buffer is exactly the format that is read back |
| CodeBuffer.LzCodes.Reset | src/miniz.c:1367-1374 | an empty buffer with all counts zero, whatever the flag byte contained |
| CodeBuffer.ImageAppend | src/miniz.c:1706-1745 | the formats of full groups of eight codes simply follow one another |
| CodeBuffer.UsedOnce | src/miniz.c:1740-1744 | every symbol a token needs has been counted |
| TokenWriter.SendTokens | src/miniz.c:1191-1236 | what is sent is the code words and extra bits of exactly the buffered tokens, then the end-of-block symbol |
| TokenWriter.SendMatch | src/miniz.c:1204-1226 | length symbol, length bits, distance symbol, distance bits |
| TokenWriter.MarkerSet | src/miniz.c:1199-1201 | the flags of a byte with a marker above them |
| TokenWriter.MarkerNext | src/miniz.c:1197-1203 | each shift brings the next code's flag to the bottom |
| TokenWriter.MarkerAlone | src/miniz.c:1197-1201 | the variable is one exactly when a group is used up |
| Lz77.CopyBackAt | src/miniz.c:2794-2801 | every byte of a copy equals the byte dist places before it, also where the two overlap |
| Lz77.CopyBackOnly | src/miniz.c:2794-2801 | and nothing else has that property |
| Lz77.ExpandAppend | src/miniz.c:1747-1890 | expanding codes in two parts is expanding them in one |
| Lz77.ExpandBehind | src/miniz.c:2784-2846 | what lies further back than any match reaches does not matter |
| OutBuf.Output.CopyMatch | src/miniz.c:2784-2846 | for every distance up to the buffer size and every length, with or without wrapping: what is appended to everything written so far is the byte-by-byte copy, and the ring holds the last bytes of it; it stops only when the caller takes no more |
| OutBuf.Output.CopySlowly | src/miniz.c:2792-2803 | the byte loop with masked offsets, interrupted whenever the buffer is full |
| OutBuf.Output.CopyFast | src/miniz.c:2831-2846 | the three-at-a-time loop, where neither end can run off the buffer |
| OutBuf.Output.MakeRoom | src/miniz.c:2796-2799 | a full ring is continued from its start with nothing written lost, and its bytes are added to the checksum |
| OutBuf.Output.Total | src/miniz.c:2898-2923 | the checksum at the end of a call is that of everything written in this and all earlier rounds |
| OutBuf.WindowPush | src/miniz.c:2790-2801 | storing at the position modulo the size keeps the ring the image of the last bytes |
| OutBuf.WindowBack | src/miniz.c:2790-2800 | a masked offset finds the byte dist places back |
| InflateBody.InflateSymbols | src/miniz.c:2671-2848 | for any input it ends; on the body of a block it writes exactly what the tokens stand for and consumes exactly its bits; on any input that it accepts, the pieces it has read are what it has consumed and what it has written |
| Lenient.ToldNext | src/miniz.c:2671-2848 | one more literal or match, with the bits it was read from, adds its bytes to what has been written so far |
| InflateBody.ReadFields | src/miniz.c:2762-2782 | length and distance are those of the symbols and extra bits consumed |
| InflateBody.SlowSymbol | src/miniz.c:2676-2686 | the careful path: one symbol, and its byte if it is a literal |
| InflateBody.TwoSymbols | src/miniz.c:2687-2760 | the fast path reads the same one or two symbols from a bit buffer filled four bytes at a time |
| InflateBody.ReadMatch | src/miniz.c:2762-2847 | length and distance from symbols and extra bits, the distance check, and the copy |
| InflateBody.ReadDistance | src/miniz.c:2774-2782 | the distance comes back |
| InflateBody.ReadExtra | src/miniz.c:2765-2772 | base plus extra bits, and nothing is read when there are none |
| FixedCodes.StartStaticBlock | src/miniz.c:1071-1090 | the fixed lengths, their canonical codes, and the block type |
| FixedCodes.FixedComplete | src/miniz.c:1076-1085 | both fixed codes fill their trees |
| FixedCodes.FillFixed | src/miniz.c:2551-2558 | the four ranges of the fixed literal code |
| FixedCodes.FixedCovers | src/miniz.c:1071-1090 | every token can be sent with the fixed codes |
| Blocks.BlocksPush | src/miniz.c:1250-1403 | one more valid block extends the data by its own |
| Blocks.BitsShift | src/miniz.c:1310-1322 | the bits of a block depend on where it starts only within a byte |
| BlockWriter.EncodeBlock | src/miniz.c:1294-1330 | a block is stored when its data is still in the window and raw blocks are asked for or compressing fills as many bytes less one as there is data; otherwise it has fixed codes when they are asked for or there are fewer than 48 bytes, and dynamic ones else. Whichever it is: a valid block with exactly the pending data, which fits the output buffer |
| BlockSize.DynamicFits | src/miniz.c:1239-1246 | any contents of the 64 KiB code buffer take at most 671516 bits with codes that are near the best for them |
| BlockSize.HeaderFits | src/miniz.c:1048-1068 | a header takes at most 4551 bits |
| BlockSize.CountedSize | src/miniz.c:1191-1236 | the bits of a block, out of the symbol counts and the lengths |
| BlockWriter.CompressBlock | src/miniz.c:1239-1246 | what is sent is a block of the tokens, with fixed codes exactly when they are asked for, and it always fits |
| BlockWriter.KeepOrReplace | src/miniz.c:1303-1330 | the block is stored instead exactly when that is asked for or nothing is gained, and the data is in the window; the last branch, for a block that did not fit, is never reached |
| BlockSize.FixedFits | src/miniz.c:1324-1330 | any contents of the 64 KiB code buffer fit the output buffer when sent with the fixed codes, so the last resort always works |
| BlockWriter.FlushBlock | src/miniz.c:1250-1388 | header, block and end of a flush continue the stream by exactly the pending data, in the form the flags and the gain decide; with the data in the window a block takes at most 42 bits more than it; and the output buffer never overflows, as the source asserts at its end |
| BlockWriter.ChosenSmall | src/miniz.c:1294-1322 | the choice of form keeps every block whose data is in the window within 42 bits more than the data |
| BlockWriter.StoreBlock | src/miniz.c:1310-1322 | a stored block of the pending bytes out of the ring |
| BlockWriter.DynamicBlock | src/miniz.c:1239-1246 | a dynamic block of the buffered tokens, of at most 676067 bits behind its type |
| BlockWriter.StaticBlock | src/miniz.c:1239-1246 | a fixed block of the buffered tokens |
| BlockWriter.CodesCover | src/miniz.c:865-916 | codes built from the counts give every buffered token a code |
| BlockWriter.EmptyBlock | src/miniz.c:1350-1362 | a sync flush ends with an empty stored block |
| BlockWriter.WriteEnd | src/miniz.c:1332-1363 | the padding and checksum of a finished stream, or the empty block of a sync flush |
| Zlib.WriteHeader | src/miniz.c:1268-1292 | 0x78, and then 0x01, 0x5E, 0x9C or 0xDA by the number of probes, which the inflater accepts |
| Zlib.ReadHeader | src/miniz.c:2479-2490 | accepts exactly multiples of 31 with method 8, no dictionary, and a window that fits |
| Zlib.WriteChecksum | src/miniz.c:1340-1348 | the checksum, high byte first |
| Zlib.ReadChecksum | src/miniz.c:2862-2873 | the checksum comes back, whatever the register held before; any four bytes are what it is read from, high byte first |
| LzDictionary.Dictionary.FindMatch | src/miniz.c:1476-1518 | whatever the hash chains contain, the search ends, and what it returns is a real match within reach, longer than the one to beat; and no one of the first links of the chain, as many as there are probes less one, leads to a longer match |
| LzDictionary.Dictionary.Compare | src/miniz.c:1504-1508 | the number of bytes that agree, in the mirrored ring |
| LzDictionary.Dictionary.Probe | src/miniz.c:1491-1497 | a link of a chain stands for a known distance, or ends the search; a place that is passed over gives no longer match |
| LzDictionary.Dictionary.Fill | src/miniz.c:1756-1797 | both fill loops append the same bytes and keep the ring and its mirror right |
| LzDictionary.Dictionary.Advance | src/miniz.c:1870-1874 | moving on keeps what is in reach in the ring |
| LzDictionary.Dictionary.FindRun | src/miniz.c:1806-1823 | the run of the previous byte, as far as it goes, is a match at distance one |
| LzDictionary.CellAhead | src/miniz.c:1767-1771 | counting on past the end of the ring finds the mirrored bytes |
| Compressor.Parser.Step | src/miniz.c:1801-1874 | one turn of the lazy or greedy loop: the recorded codes still expand to the source, up to the lookahead or one byte short of it when a match is put off |
| Compressor.Parser.DecideSaved | src/miniz.c:1832-1856 | with a match put off: when a longer one is found it turns into a literal and the longer one is taken or put off in turn, by its length; otherwise it is taken |
| Compressor.Parser.DecideLonger | src/miniz.c:1834-1850 | a longer match: the saved byte becomes a literal, and the match is taken from 128 bytes on, or put off |
| Compressor.Parser.DecideFresh | src/miniz.c:1857-1869 | with none put off: a literal without a match; a match when parsing greedily, with runs only or from 128 bytes on; else the match is put off |
| Compressor.Parser.Search | src/miniz.c:1802-1831 | a run, a chain match no link of the chain beats, or none, as the flags say; then exactly the matches not worth taking are dropped; whatever remains is a real match |
| Compressor.Parser.TakeIn | src/miniz.c:1756-1797 | taking in input changes nothing about what is already parsed |
| Compressor.Parser.NothingPending | src/miniz.c:1747-1890 | once the lookahead is empty no match is put off and everything taken in is recorded |
| Compressor.Parser.PendingInWindow | src/miniz.c:1303-1304 | when the source's test says the data is in the window, its bytes are, at the ring positions a stored block reads |
| Compressor.Parser.FlushCodes | src/miniz.c:1250-1378 | a flush sends exactly what was recorded since the last one, in a block the flags allow |
| Compressor.ParsedLiteral | src/miniz.c:1857-1858 | a literal of the next byte extends the parse by it |
| Compressor.ParsedMatch | src/miniz.c:1859-1863 | a match extends the parse by the bytes it repeats |
| Compressor.NearDistance | src/miniz.c:1255 | the 32-bit difference of positions is the real one |
| Deflate.Deflater.Compress | src/miniz.c:1913-1979 | over any sequence of calls: the bytes handed out are those of valid blocks whose data is the input so far up to what is held back, and no block has a code or a form the flags forbid; after a flush nothing is held back; a finishing call completes the stream; a call is refused exactly after an error, after the end, or when it does not finish after one that did |
| Deflate.Deflater.CompressNormal | src/miniz.c:1747-1890 | all of a chunk is taken in, and with a flush the lookahead runs empty |
| Deflate.Deflater.FlushCall | src/miniz.c:1965-1976 | a final flush completes the stream with its checksum; a full flush also forgets the dictionary |
| Deflate.Deflater.FlushIfFull | src/miniz.c:1875-1884 | a block is sent exactly when the code buffer is nearly full or more than 31 KiB have compressed badly or are not to be compressed; so the next turn always has room |
| Deflate.Deflater.SumUp | src/miniz.c:1962-1963 | the running checksum is that of all input taken in |
| Deflate.FlushAdds | src/miniz.c:1250-1378 | what a flush writes continues the stream, header in front of the first block only |
| InflateBlocks.InflateAll | src/miniz.c:2492-2849 | for any input it ends; on a list of valid blocks with the last marked final it writes exactly their data and consumes exactly their bits; and whenever it ends well, what it has consumed are the bits of blocks in the sense of `Lenient`, and what it has written is their data |
| Lenient.InflatedNext | src/miniz.c:2492-2849 | one more block, with its three bits in front, adds its data to what the blocks before have made |
| PlainStreams.SymbolOfLength | src/miniz.c:2438-2439 | among the symbols and extra bits of the inflater each length from 3 to 258 has one spelling, the one the compressor uses, but for 284 with all extra bits set |
| PlainStreams.SymbolOfDistance | src/miniz.c:2440-2441 | and each distance up to 32768 has one spelling |
| PlainStreams.PlainTokens | src/miniz.c:2671-2848 | pieces read without lenience are valid tokens: the same bits, the same data |
| PlainStreams.PlainHeader | src/miniz.c:2562-2669 | a header read from code words only is a valid one, bit for bit |
| PlainStreams.PlainIsValid | src/miniz.c:2492-2849 | whatever has been inflated without using any lenience is a list of valid blocks, bit for bit and with the same data |
| InflateBlocks.InflateBlock | src/miniz.c:2494-2848 | one block of each type; type three is refused; on any input, what is accepted is a block of that type in the sense of `Lenient` |
| InflateBlocks.InflateStored | src/miniz.c:2496-2537 | a stored block: alignment, LEN, NLEN and the bytes; on any input, what is accepted is one, but for the bits skipped |
| InflateBlocks.CopyStored | src/miniz.c:2510-2536 | the bytes of a stored block, first those in the bit buffer, then straight from the input; on any input, what is written is what was read |
| InflateBlocks.ReadStoredLength | src/miniz.c:2499-2509 | any LEN and NLEN are read back, whether their bytes come from the bit buffer or the input, and are refused exactly when they are not each other's complement; what is accepted has been consumed bit for bit |
| RoundTrip.Decompress | src/miniz.c:2476-2926 | on a stream of valid blocks, with any accepted zlib header or none, whatever the bits up to byte boundaries, in any number of input buffers, into one output buffer or a ring: its data, no mismatch, no looked-at bits still held, and everything behind it left in the input. On any input: a run that ends well has read a header that passes the test, blocks in the sense of `Lenient` whose data is what it wrote, the bits up to the next byte, and a checksum; and the mismatch is reported exactly when that is not the checksum of what it wrote |
| RoundTrip.ToBoundary | src/miniz.c:2853-2860 | behind the last block no bits are held, as the source asserts, however the input was cut, and nothing behind the stream has been consumed |
| RoundTrip.PlainReading | src/miniz.c:2476-2926 | a stream read without lenience has the form of a compressed one: valid blocks, the bits up to the next byte, and the checksum |
| RoundTrip.ReadEnd | src/miniz.c:2850-2874 | the checksum of a zlib stream is read back, and what follows is still in the input |
| RoundTrip.ThereAndBack | src/miniz.c:1913-2926 | everything a finished compressor handed out, cut into buffers in any way and followed by anything, decompresses to everything that was put in; the checksum agrees, and what followed is left over |
| RoundTrip.ThereAndBackInARing | src/miniz.c:2476-2874 | the same, the comparison of the checksum included, through a ring of at least 32 KiB with any previous contents, emptied whenever full |
| RoundTrip.CompressAll | src/miniz.c:1913-2021 | any run of chunks and flushes from a new compressor, then a finishing call, ends well and has taken in every chunk |
| RoundTrip.CompressAndDecompress | src/miniz.c:1913-2926 | for all flags, chunkings and flushes, every way of cutting the compressed bytes into input buffers, and anything behind them: compressing and decompressing is the identity, the checksum agrees, and exactly what was behind is left over |
| StandardCodes.BitsOfBytes | src/miniz.c:918-934 | bit streams are those of section 3.1.1 of RFC 1951: every byte from its lowest bit |
| StandardCodes.DecodeReads | src/miniz.c:902-916 | the bits of a code word are read as its symbol by the numbering of section 3.2.2 |
| StandardCodes.DecodeIs | src/miniz.c:2392-2424 | and whatever is read as a symbol is its code word |
| StandardCodes.CodeMade | src/miniz.c:2593-2601 | the lists of lengths that pass the inflater's check are those that leave no string of 15 bits without a symbol or have at most one symbol |
| StandardCodes.LengthMeans | src/miniz.c:686-703 | length symbols and extra bits mean what section 3.2.5 says, where ranges follow one another and double in size |
| StandardCodes.DistanceMeans | src/miniz.c:704-742 | so do distance symbols and extra bits |
| StandardBodies.CopyAgrees | src/miniz.c:2794-2801 | the byte-by-byte copy repeats the last dist bytes as often as it takes |
| StandardBodies.BodyReads | src/miniz.c:1191-1236 | the decoder of the standard reads from the body of a block the data of its tokens |
| StandardBodies.BodyIs | src/miniz.c:2671-2848 | and whatever it reads as a body are the bits of tokens, with the data they stand for |
| StandardHeaders.HeaderReads | src/miniz.c:984-1069 | it reads from a valid header the lengths that the header gives |
| StandardHeaders.HeaderIs | src/miniz.c:2562-2669 | and whatever it reads as a header is a valid one |
| StandardBlocks.BlockReads | src/miniz.c:1250-1330 | it reads from any valid block its data |
| StandardBlocks.BlockIs | src/miniz.c:2494-2848 | and whatever it reads as a block is a valid one |
| StandardBlocks.InflateReads | src/miniz.c:1250-1403 | it reads from a list of valid blocks their data |
| StandardBlocks.InflateIs | src/miniz.c:2492-2849 | and whatever it reads as blocks are valid ones |
| StandardStreams.ChecksumAgrees | src/miniz.c:41-67 | the checksum of section 8.2 of RFC 1950, written out, is the one computed |
| StandardStreams.CompressForStandard | src/miniz.c:1913-2021 | for all flags, chunks and flushes: a decoder by RFC 1951 and RFC 1950, which shares nothing with this code, reads the output as everything that was put in |
| StandardStreams.CompressedIsStandard | src/miniz.c:1913-1979 | so it does for any compressor that has finished |
| StandardStreams.StreamIs | src/miniz.c:2476-2926 | whatever that decoder reads as a stream is one of valid blocks with the right checksum |
| StandardStreams.DecompressStandard | src/miniz.c:2476-2926 | on any input at all: if that decoder can read a stream from it and there is room, the inflater ends well with the same data and leaves what follows in the input |
| StandardStreams.PlainIsStandard | src/miniz.c:2476-2926 | and what the inflater accepts without using any lenience, that decoder reads as the same data |
| CentralDir.SortByFilename | src/miniz.c:3579-3629 | the heap sort leaves the same indexes in the order of the case-folded names |
| CentralDir.SiftDown | src/miniz.c:3594-3606 | one descent makes the subtree a heap again, permuting only its elements |
| CentralDir.FilenameLess | src/miniz.c:3550-3567 | true exactly when the first folded name comes before the second, prefixes first |
| CentralDir.FoldEqual | src/miniz.c:3239 | two names are the same up to case exactly when they differ in nothing but the case of ASCII letters |
| CentralDir.FilenameCompare | src/miniz.c:4440-4455 | zero exactly when the folded names are equal; the sign is their order exactly unless one is the beginning of the other and more than 2^31 shorter |
| CentralDir.BeforeTrans | src/miniz.c:3550-3567 | the order of names is transitive |
| CentralDir.BeforeTotal | src/miniz.c:3550-3567 | and total, equal names being equal up to case |
| CentralDir.BuildIndex | src/miniz.c:3875-3981 | the index lists every entry and is sorted |
| CentralDir.BinarySearch | src/miniz.c:4457-4495 | for every name, however long: finds an entry exactly when one has the part of the name that is compared, up to case, and returns one that has |
| CentralDir.Narrow | src/miniz.c:4466-4491 | the loop finds any name of less than 4 GiB exactly when it is listed, although the order of names breaks down beyond 2 GiB |
| CentralDir.SearchRightWhen | src/miniz.c:4457-4495 | the search is right for every directory exactly when the name is shorter than 4 GiB or its length modulo 2^32 is more than 65535 |
| CentralDir.LongNameFound | src/miniz.c:4464 | a name of 2^32 + 1 bytes for which it is wrong |
| CentralDir.Scan | src/miniz.c:4525-4568 | the first entry that matches name, path, case and comment as the flags ask |
| CentralDir.Check | src/miniz.c:4536-4565 | an entry matches exactly when the search says so (`MatchMeans` writes out what that is) |
| CentralDir.MatchMeans | src/miniz.c:4536-4565 | letter by letter: the name agrees with the entry's name, or with what follows its last separator, and the comment, if there is one, with the entry's |
| CentralDir.StripPath | src/miniz.c:4548-4559 | what is compared is everything behind the last separator |
| CentralDir.Locate | src/miniz.c:4506-4568 | by either way an entry is found exactly when there is one; names beyond 65535 bytes are found only through the index, and exactly when the part compared is listed |
| CentralDir.SearchesAgree | src/miniz.c:4506-4568 | for every directory and every name the sorted index and the scan agree, but for names of 4 GiB and more whose length in 32 bits fits an entry, which the scan refuses |
| ZipExtract.Extraction.WriteCallback | src/ZipInstaller.cpp:70-87 | bytes are counted first and written only within both limits; the limit flag is set exactly when one is exceeded |
| ZipExtract.ExtractEntry | src/ZipInstaller.cpp:195-266 | one entry passes exactly when every check passes, directory and file can be made, and reading, decompressing and writing go well in the sense of `GoodEntry`; then, unless it is a directory, there is one more file with exactly the bytes handed over, of the declared size and checksum; failing for the limit means one is exceeded |
| ZipExtract.ExtractAll | src/ZipInstaller.cpp:187-266 | for any decompressor and disk: both limits hold after every write; an archive is staged exactly when it has no more entries than allowed and everything goes well with every one of them; then one file has been written for every entry that is not a directory, in order, with the bytes handed over and the size and checksum declared; one that fails leaves nothing |
| ZipExtract.CheckEntry | src/ZipInstaller.cpp:196-231 | an entry passes exactly when every header check does (`AcceptableExactly` writes them out), and the reason for refusing one is true of it |
| ZipExtract.AcceptableExactly | src/ZipInstaller.cpp:196-231 | every check written out: the name by its characters, the file type as a range of the attributes, the ratio as a product |
| ZipExtract.SafeInside | src/ZipInstaller.cpp:25-46 | wherever the staging directory is, `filePath` of an accepted name leads to it or below it, when names that begin with a separator or a drive letter lead from a root instead |
| ZipExtract.SafeStays | src/ZipInstaller.cpp:25-46 | and never leaves it on the way |
| ZipExtract.SafeExactly | src/ZipInstaller.cpp:25-46 | a name is accepted exactly when it is not empty, does not begin with a slash or backslash, has no colon as its second character, and nowhere has two dots alone between separators or ends |
| ZipExtract.Extraction.Extract | src/miniz.c:4789-4987 | for any decompressor: both limits hold after every write, and it succeeds exactly when all reads and writes succeed, the rounds go on until the decompressor is done, or the pieces are all there, and the bytes handed over have the declared size and checksum and stay within the limits; the file is those bytes (nothing is written for an entry without compressed data) |
| ZipExtract.Extraction.Inflate | src/miniz.c:4905-4961 | rounds of a decompressor that may do anything keep both limits, and offset and checksum agree with what is written; it succeeds only when the rounds end with the decompressor done, and fails on such rounds only when a limit or the declared size is exceeded |
| ZipExtract.Extraction.CopyStored | src/miniz.c:4873-4903 | the same for a stored entry in pieces: all of them, of the right sizes, or it fails |
| WorkerManager.FailedExactly | daemon/worker_manager.py:110-158 | over every run a plugin is FAILED exactly when some call or start of it crashed twice and no stop or restart came since |
| WorkerManager.RunConsistent | daemon/worker_manager.py:93-282 | between steps of any run: tracked exactly when RUNNING, never STARTING, and both notes of last use agree |
| WorkerManager.StepConsistent | daemon/worker_manager.py:93-282 | every step keeps that, spawns at most two processes, and none for a FAILED plugin |
| WorkerManager.RetriedConsistent | daemon/worker_manager.py:110-131 | a call or start ends RUNNING or FAILED, and FAILED exactly when both attempts crash |
| WorkerManager.FailedNext | daemon/worker_manager.py:110-158 | FAILED is entered and left only that way |
| WorkerManager.Manager.WithCrashRetry | daemon/worker_manager.py:110-131 | the retry loop does what the step function says, whose answer `CallAnswer` and `StartAnswer` write out |
| WorkerManager.CallAnswer | daemon/worker_manager.py:110-231 | what a call returns and how many processes it spawns, from what happens in its two attempts |
| WorkerManager.StartAnswer | daemon/worker_manager.py:105-131 | the same for a start |
| WorkerManager.CallBooks | daemon/worker_manager.py:110-231 | what a call leaves behind: a worker used just now, whose requests are one more, or no worker and a failure; nothing else changes |
| WorkerManager.Manager.CallOnce | daemon/worker_manager.py:170-196 | one request, numbered, and what its outcome does to the books; an answer is returned exactly when a worker is there, stays there and answers, a refusal is raised exactly when it refuses, and anything else is a crash |
| WorkerManager.Manager.EnsureWorker | daemon/worker_manager.py:198-231 | a live worker is used again; otherwise one spawn, and the ready message alone decides |
| WorkerManager.Manager.DoCall | daemon/worker_manager.py:93-103 | the answer is that of the first attempt unless it crashes, else of the second; a crash of both, or a FAILED plugin, is an error; the books move and processes are spawned as the step function says |
| WorkerManager.Manager.DoStart | daemon/worker_manager.py:105-108 | it succeeds exactly when the plugin is not FAILED and one of two attempts finds or spawns a worker that is ready; the books move as the step function says |
| WorkerManager.Manager.DoStop | daemon/worker_manager.py:153-158 | the worker is forgotten and the state cleared, and nothing else changes |
| WorkerManager.Manager.DoRestartFailed | daemon/worker_manager.py:147-151 | so does a manual restart |
| WorkerManager.Manager.EvictIdle | daemon/worker_manager.py:273-282 | one eviction pass, reading the clock for every worker: a tracked plugin is stopped exactly when it was last used more than the timeout ago, and the others are as they were |
| WorkerManager.Manager.Status | daemon/worker_manager.py:133-145 | state, process and time since last use, which survives the worker |
| Json.Escape | include/JsonStd.h:48-63 | the loop computes the escaped string |
| Json.EscapedPlain | include/JsonStd.h:48-63 | no character below the space is left |
| Json.EscapedHolds | include/JsonStd.h:48-63 | and no quote that would end the string, nor a backslash that would eat the closing quote |
| Json.EscapedAppend | include/JsonStd.h:48-63 | strings one after another are escaped one after another |
| Json.EscapedByCode | include/JsonStd.h:48-63 | every character of an escaped string by its code: two with a backslash, three short escapes, four hexadecimal digits for the other control characters, the rest as it is |
| Json.Print | include/JsonStd.h:66-111 | the printer with its append loops computes the printed form |
| Json.PrintList | include/JsonStd.h:84-94 | commas between items and nowhere else |
| Json.ListPush | include/JsonStd.h:84-94 | one more item comes behind what is there, after a comma unless it is the first, and before the bracket |
| Json.PrintMap | include/JsonStd.h:95-107 | the same for members |
| Json.MapPush | include/JsonStd.h:95-107 | the same for one more entry, its key between quotes and before a colon |
| Json.TextBack | include/JsonStd.h:48-63 | a parser of RFC 8259 reads an escaped string back up to exactly its closing quote |
| Json.NumberBack | include/JsonStd.h:72-76 | and a printed integer, when nothing that continues a number follows |
| Json.DecimalMeans | include/JsonStd.h:72-76 | a printed number consists of decimal digits, has no needless zero in front, and means the number |
| Json.ValueBack | include/JsonStd.h:66-111 | and any printed value, consuming exactly the text of it |
| Json.PrintedIsParsed | include/JsonStd.h:66-111 | parsing the printed text of any tree gives the tree |

## Left out

- zip64, archive writing, PNG writing, DOS time and stdio in `src/miniz.c` are not modelled; they
  would only add easy members.
- `tdefl_compress_fast`, the 64-bit `tdefl_compress_lz_codes` and the eight-byte copy are compiled
  out by default.
- Compression ratio and `mz_deflateBound`: the source calls a true bound hard.
- Deflate.Deflater.Compress: the compressor is modelled with the callback as its output, and the
  callback never refuses; the caller's own output buffer is not modelled, and
  `m_output_flush_remaining` is then always zero.
- Adler32.Adler32: starting values are 32 bits wide, as `mz_ulong` is on Windows; where it has 64
  bits, larger values, which are no checksums, are excluded.
- LzDictionary.Dictionary.FindMatch: the arrays start from zero as in `tdefl_init`, and are updated
  as in the source, but nothing is claimed about which positions the hash chains link: what is found
  is the best along the links that are followed, compared byte by byte.
- Tokens.LengthRecovered: the compressor's long symbol tables are written as the ranges they
  consist of.
- RoundTrip.Decompress: how often the caller comes back with input and with an empty ring is fixed
  beforehand. Waiting is a loop inside the run, so what a suspended call saves and restores is not
  modelled; nor is that a call which returns for want of room puts whole looked-at bytes back, and
  that one which returns for want of input adds up its checksum first. Neither changes what is
  unread or what is summed (`BitIO.BitReader.PutBack`, `Adler32.AdlerAppend`).
- RoundTrip.ReadEnd: which of the statuses a refused input gets is stated only where a contract
  names it; a run that does not end well still ends, and stays inside its arrays.
- HuffDecode.Decode: where an incomplete code has no word for the bits that come next, symbol 0 is
  read; how many bits that takes is left open.
- Masks of the form `& (2^k - 1)` are written as remainders.
- Standard.Dynamic: like the source, the decoder of the standard takes up to 288 literal and length
  codes, of which RFC 1951 names 286, and any single code as complete.
- ZipExtract.SafeInside: backslashes and drive letters count as such on every system, as the check
  in the source treats them.
- ZipExtract.ExtractAll: the 64-bit counters are unbounded, Qt path handling is a walk over path
  segments, and the manifest check and the final rename are not modelled. What is counted is what
  is written: two entries with the same name leave one file on disk.
- WorkerManager.RunConsistent: operations are serialised steps. Interleavings of threads, processes
  that are dropped without being killed, and exceptions from spawning a process or from decoding
  JSON are left out.
- Json.ValueBack: doubles, unsigned values above the signed range and null strings are left out;
  strings are sequences of characters below U+0100 that stand for UTF-8 bytes, and the parser is
  that of RFC 8259 without the pairing of surrogate escapes, which the printer never writes.
