# Verified models of the shared libraries

This project models code that the repository shares between its programs, and proves what that code is for:

* the zlib pair of `stb_image_write.h` and `stb_image.h`: a compressor with hash chains, lazy matching, fixed
  Huffman codes and a stored fallback, and an inflater with canonical Huffman tables, a bit buffer and a growing
  output; with the PNG line filters, TGA packets and Radiance scanlines that the same two files write and read
  (RFC 1950, RFC 1951, and section 9 of the W3C PNG specification);
* the LU solver of `rtkcmn.c` (the build without LAPACK) over exact reals, its bit fields, and its base64
  (section 4 of RFC 4648);
* the k-d tree of `kdtree.c`: insertion, nearest neighbour and range search;
* the hash table of `uthash.h`: chains, insertion order, bucket doubling, integrity check and merge sort;
* the circular queue of `queue.h`.

Each C object that is updated in place is a class or an array with methods; loops stay loops. Every such method is
proved against functions and predicates on sequences (bits of a stream, tokens, rows, rings, chains, entries), and
the theorems are about these. `dafny verify dfyconfig.toml` checks everything.

## Main results

* `RoundTrip.CompressThenInflate`: inflating what the compressor writes gives the data back, exactly for non-empty
  data. The empty string is the one exception (`RoundTrip.EmptyIsNoStream`): the fallback cuts the output to the
  header and writes no block.
* `ZlibDecode.DoZlib` says of every input and capacity how decoding ends. It succeeds exactly if the input is a zlib
  stream that can be read (`ReadableStream.StreamReadable`): its blocks stand there, every code in them is looked up
  with 16 bits buffered or input left, every copy is within reach, and the output has room. Its blocks are then
  determined (`ReadableStream.StreamUnique`), and the output is what they stand for. Every stream with a checksum
  behind it can be read if its output has room (`ReadableStream.ChecksumIsEnough`).
  `HuffmanTables.ZHuffman.Build` accepts exactly the code lengths that meet Kraft's inequality.
* Decoding goes on forever exactly if it gets stuck (`ReadableStream.StreamSticks`): blocks can be read, and behind
  them a dynamic header and some tokens; then only zero bits follow, in the input and behind its end, and these stand
  for a copy of length 0, by one of the two length symbols that RFC 1951 does not use, again and again, without ever
  exhausting the bit buffer. `IdleRounds.EndlessIff` says when it is never exhausted, and
  `EndlessStream.InputIsStuck` is a stream of 34 bytes that gets stuck.
* `Compress.ZlibCompress` writes the tokens of lazy matching (`Compress.LazyUpto` says which these are), or stored
  blocks when they are shorter, and the Adler-32 checksum, said by the sums of the bytes (`Adler.Adler32`).
* `PngRoundTrip.WriteThenRead`, `TgaLoad.WriteThenLoad`, `HdrScan.WriteThenRead`: the three image round trips.
  The loader of TGA images refuses sizes beyond the integer range, which is the exact condition. Reading a Radiance
  scanline goes on forever exactly if its packets reach the end of the input too early (`HdrScan.ScanIff`).
* `MatInv.Matinv`: succeeds exactly for invertible matrices, with a two-sided inverse.
* `KdSearch.KdNearest`: a closest node, with the shared box handed back unchanged. `KdRange.KdNearestRange`: the exact
  set of nodes found. The range test is closed and the pruning test is open, so a node of the closed range is missed
  exactly if it is on the right of a node whose coordinate is the upper end of the range (`KdRange.FoundExactly`);
  `KdRange.BoundaryMiss` is such a search. A search without such a coordinate in the tree misses nothing.
* `UtRuns.Run`: any run of puts, removals, lookups and sorts on the hash table answers as a list of entries does,
  whatever the hash function, the comparisons and the expansions. `UtSort.Sort`: the sort is stable, in place, and
  leaves the buckets alone.
* `Queue.SplitThenAdd`, `BitField.SignedSurvives`, `Base64.EncodeThenDecode`: the smaller round trips.

## Files

| files | contents |
|---|---|
| Words, BitStream, BitTricks, Sequences | powers of two and masks, bits of a byte sequence, bit reversal, sequences without repetition and sequences joined |
| Huffman, ZHuffman, Lookup, FixedCodes | canonical codes, the decoder's tables, what a lookup finds, the fixed codes |
| DeflateFormat, ZlibFormat | tokens, blocks and streams, and what they stand for |
| IdleRounds, Readable, ReadableStream | which tokens, blocks and streams can be read, and where decoding gets stuck |
| Inflate, DynamicHeader, ZlibDecode, EndlessStream | the inflater, exactly when it succeeds, and exactly when it does not end |
| ZWriter, Compress, Adler, RoundTrip | the compressor and the round trip |
| PngFilter, PngLines, PngImage, PngRoundTrip | PNG lines |
| ImageSource, TgaRle, TgaWrite, TgaLoad, HdrRle, HdrScan | TGA and HDR run-length coding |
| Linear, LuSpec, LuDecomp, MatInv | matrices, LU factors, the solver |
| KdGeometry, KdTree, KdSearch, KdRange | the k-d tree |
| UtItems, UtExpand, UtTable, UtFsck, UtRuns, UtMerge, UtSort | the hash table |
| Queue | the circular queue |
| BitField, Base64 | bit fields and base64 |

## Model

| member | source | states |
|---|---|---|
| BitTricks.BitReverseIsRev | lib/draw/stb_image.h:4059-4065 | the mask-and-shift reversal of up to 16 bits equals bit-by-bit reversal of that many bits |
| BitTricks.BitReverse16IsRev | lib/draw/stb_image.h:4050-4057 | swapping neighbours of 1, 2, 4 and 8 bits under the four mask pairs reverses all 16 bits |
| BitStream.RevRev | lib/draw/stb_image.h:4059-4065 | reversing a code twice gives the code back, so decoder and encoder reversal cancel out |
| BitStream.CodeInWindow | lib/draw/stb_image.h:4194-4200 | a Huffman code is next in the stream exactly when the low bits of the buffer are its reversed code |
| CanonicalCode.PrefixFree | lib/draw/stb_image.h:4081-4092 | for any accepted list of code lengths, no code is a prefix of another |
| CanonicalCode.CodesFillInterval | lib/draw/stb_image.h:4081-4093 | a 16-bit word starts with some code exactly when it is below the preshifted end of length 15: the codes fill an interval from 0 without gaps |
| CanonicalCode.AcceptableIffKraft | lib/draw/stb_image.h:4078-4088 | the per-length checks of the builder hold exactly when the Kraft sum of the lengths is at most one |
| CanonicalCode.SymbolUnique | lib/draw/stb_image.h:4185-4202 | at most one symbol has a code that starts the remaining bits |
| CanonicalCode.SlotsDistinct | lib/draw/stb_image.h:4094-4100 | different symbols are entered in different slots of the size and value tables |
| HuffmanTables.ZHuffman.Build | lib/draw/stb_image.h:4067-4112 | succeeds exactly when the Kraft sum is at most one, and then the fast table, first codes, first symbols, end codes and slots are those of the canonical code of the lengths |
| HuffmanTables.ZHuffman.SetCodes | lib/draw/stb_image.h:4081-4093 | fills the first codes, first symbols and preshifted ends per length, and fails exactly when some length overflows |
| HuffmanTables.ZHuffman.SetRow | lib/draw/stb_image.h:4083-4091 | one code length: stores its row and goes on with twice the code reached, failing exactly on overflow of that length |
| HuffmanTables.ZHuffman.CheckSizes | lib/draw/stb_image.h:4078-4080 | the early size check rejects no list that the code check would accept |
| HuffmanTables.ZHuffman.FillFast | lib/draw/stb_image.h:4101-4107 | writes the value to exactly the 9-bit indices that continue the reversed code |
| HuffmanTables.ZHuffman.FillEntries | lib/draw/stb_image.h:4094-4110 | after all symbols, each index of the fast table holds the symbol with a short code it starts with, or 0 if there is none, and each slot its symbol and size |
| HuffmanTables.FastEntered | lib/draw/stb_image.h:4098-4107 | a symbol that is entered becomes the unique match of its indices |
| Lookup.FastHit | lib/draw/stb_image.h:4194-4200 | a non-zero fast entry names the symbol whose code is next and its length |
| Lookup.FastMiss | lib/draw/stb_image.h:4194-4201 | a zero fast entry means that no code of up to 9 bits is next |
| Lookup.SlowHit | lib/draw/stb_image.h:4172-4182 | the first length whose end is above the reversed bits gives a slot that holds a symbol of that length whose code is next; hence the size check of the slow path never fails |
| Lookup.SlowMiss | lib/draw/stb_image.h:4172-4175 | if all ends are below the reversed bits, no code is next |
| Inflate.ZBuf.Zget8 | lib/draw/stb_image.h:4139-4142 | the next byte of the input as the next eight bits of the stream, zero past the end |
| Inflate.ZBuf.FillBits | lib/draw/stb_image.h:4144-4154 | keeps the bit position, keeps the buffer below 2^num_bits, and leaves at least 25 bits in it |
| Inflate.ZBuf.Zreceive | lib/draw/stb_image.h:4156-4164 | returns and consumes exactly the next n bits of the stream, first bit least significant |
| Inflate.ZBuf.DecodeSlowly | lib/draw/stb_image.h:4166-4183 | the symbol whose code is next, consuming its code; -1 exactly when no code is next |
| Inflate.ZBuf.HuffmanDecode | lib/draw/stb_image.h:4185-4202 | the symbol whose code is next and the bits left in the buffer; -1 exactly if there is none, or if fewer than 16 bits are buffered and the input is used up |
| Inflate.ZBuf.Zexpand | lib/draw/stb_image.h:4204-4224 | keeps the output so far and makes room for n bytes by doubling as often as needed; succeeds exactly for a growing buffer that can be doubled to that size within the integer range |
| Inflate.ReachDoubles | lib/draw/stb_image.h:4216-4220 | the size a growing buffer can reach is its size doubled as often as it stays within 32 bits |
| Inflate.ZBuf.PutLiteral | lib/draw/stb_image.h:4247-4251 | appends exactly the byte, and fails exactly for want of room |
| Inflate.ZBuf.CopyBack | lib/draw/stb_image.h:4271-4277 | appends len bytes each equal to the byte dist before it, on the run path as on the general one |
| Inflate.ZBuf.ReadDistance | lib/draw/stb_image.h:4262-4265 | a distance symbol and its extra bits as they stand in the stream, and the bits left in the buffer; fails exactly if no symbol is next or it cannot be looked up |
| Inflate.ZBuf.ReadCopy | lib/draw/stb_image.h:4259-4265 | length and distance of a match with their extra bits, and the bits left in the buffer; a match that can be read is not rejected |
| Inflate.ZBuf.ParseCopy | lib/draw/stb_image.h:4259-4277 | a decoded match stands at the old position and extends the output as its token says; a match that can be read is performed exactly if it is within reach and there is room |
| Inflate.ZBuf.ReadHead | lib/draw/stb_image.h:4244 | a literal or length symbol of the code and the bits left in the buffer; fails exactly if no symbol is next or it cannot be looked up |
| Inflate.ZBuf.ParseToken | lib/draw/stb_image.h:4243-4279 | one round: a token that stands at the old position, its effect on the output and the bits left in the buffer, the end of the block, or failure; it is a token or the end exactly if that can be read and there is room |
| IdleRounds.CycleIsEndless | lib/draw/stb_image.h:4144-4202 | rounds that lead back to the same number of buffered bits never run out of them |
| IdleRounds.EndlessIff | lib/draw/stb_image.h:4144-4202 | they never run out exactly if 33 rounds in a row do not |
| IdleRounds.RunsOut | lib/draw/stb_image.h:4144-4202 | with fewer than two extra bits they do |
| Readable.EndlessNeeds | lib/draw/stb_image.h:4226-4238 | decoding can be endless only if zero bits stand for length symbol 286 or 287 and for a distance with two extra bits or more |
| Readable.IdleIsRead | lib/draw/stb_image.h:4243-4279 | in a row of zero bits such a copy of length 0 stands, and reading it leaves the buffered bits that the model of idle rounds says |
| Readable.ReadIsIdle | lib/draw/stb_image.h:4243-4279 | with the input used up, every copy of length 0 that is read from zero bits is such a copy |
| Readable.BlockUnique | lib/draw/stb_image.h:4240-4280 | at most one list of tokens leads from a position to an end of block |
| Readable.EndsNowhereStuck | lib/draw/stb_image.h:4240-4280 | a block whose end can be read does not get stuck behind any of its tokens |
| Readable.TwoBytesForTokens | lib/draw/stb_image.h:4188-4192 | tokens with two more bytes of input behind them can always be looked up |
| Inflate.ZBuf.TrackToken | lib/draw/stb_image.h:4243-4279 | one round as its bits say, which comes closer to the end of the loop or adds to the idle rounds; stuck rounds go on |
| Inflate.ZBuf.ParseHuffmanBlock | lib/draw/stb_image.h:4240-4280 | succeeds exactly if there are tokens that can be read with the bits buffered, within reach and room, up to an end of block, and then extends the output by what they say; goes on forever exactly if there are tokens that can be read so, behind which only zero bits follow that stand for a copy of length 0 and never exhaust the buffer |
| DeflateFormat.ExpandsKeeps | lib/draw/stb_image.h:4240-4280 | what tokens produce only appends to the output |
| DeflateFormat.ExpandsLength | lib/draw/stb_image.h:4240-4280 | and its length is the sum of the token lengths, each match reaching no further back than the output |
| DeflateFormat.ExpandsDetermined | lib/draw/stb_image.h:4271-4277 | with distances from 1 the output of the tokens is determined, overlapping copies included |
| DeflateFormat.TokenUnique | lib/draw/stb_image.h:4244-4265 | at most one token stands at a position |
| DeflateFormat.LengthClasses | lib/draw/stb_image.h:4226-4232 | the length tables by a formula: one class for each length from 3 to 10, then four of each size, one for 258, and two that stand for length 0 |
| DeflateFormat.DistanceClasses | lib/draw/stb_image.h:4234-4238 | the distance tables by a formula: one class for each distance from 1 to 4, then two of each size, and two that stand for distance 0 |
| DynamicHeader.OrderIsPermutation | lib/draw/stb_image.h:4284 | the order of code length codes is a permutation of 0 to 18 |
| ZlibFormat.LengthOrderIs | lib/draw/stb_image.h:4284 | it is 16, 17, 18, 0, and then 8 + m and 7 - m in turn |
| DynamicHeader.ReadSizes | lib/draw/stb_image.h:4295-4299 | the 3-bit lengths of the code length code, zero for those not sent |
| DynamicHeader.NextOp | lib/draw/stb_image.h:4304-4322 | one symbol of the code length code with its extra bits, none for a length, 2 for symbol 16, 3 for 17 and 7 for 18, and the bits left in the buffer; an operation that stands there and can be looked up is the one read |
| DynamicHeader.ReadOp | lib/draw/stb_image.h:4304-4324 | one length or repeat operation as the bits say it, within the total: the lengths before are kept, and symbols below 16 add one length equal to the symbol, 16 adds 3 + extra lengths each equal to the one before it, 17 adds 3 + extra zeros, 18 adds 11 + extra zeros; one that can be read and fits is not rejected |
| ZlibFormat.LengthsAreSpelled | lib/draw/stb_image.h:4302-4326 | the lengths of a list of operations are those the operations spell out in this way, each from where the one before ended |
| ZlibFormat.SpelledAlike | lib/draw/stb_image.h:4302-4326 | and no other lengths are |
| DynamicHeader.ReadLengths | lib/draw/stb_image.h:4302-4326 | succeeds exactly if there are operations that can be read and spell out as many lengths as announced, and the lengths are theirs |
| DynamicHeader.BuildBoth | lib/draw/stb_image.h:4327-4328 | both tables decode their codes; fails exactly if one of the length lists is over-subscribed |
| DynamicHeader.ComputeHuffmanCodes | lib/draw/stb_image.h:4282-4330 | succeeds exactly if a header can be read there none of whose three codes is over-subscribed; both tables decode its codes, whose lengths are those the operations spell out, literals first; and the bits left are known |
| DynamicHeader.HeaderUnique | lib/draw/stb_image.h:4282-4330 | at most one such header stands at a position |
| ZlibDecode.AlignToByte | lib/draw/stb_image.h:4336-4337 | drops the rest of the current byte |
| ZlibFormat.ByteAfterIs | lib/draw/stb_image.h:4336-4337 | the next byte boundary is less than eight bits ahead |
| ZlibDecode.DrainBits | lib/draw/stb_image.h:4338-4344 | empties the bit buffer into bytes, which are the next ones of the input |
| ZlibDecode.ReadStoredHeader | lib/draw/stb_image.h:4336-4348 | the four bytes behind the alignment, from the bit buffer and then from the input |
| ZlibDecode.ParseUncompressedBlock | lib/draw/stb_image.h:4332-4359 | succeeds exactly if a stored block with a matching complement stands there and its data has room, and appends the data |
| ZlibDecode.ParseFixed | lib/draw/stb_image.h:4419-4426 | succeeds exactly if tokens and an end of block under the fixed codes can be read there, and extends the output by what they say; decoding always ends |
| ZlibDecode.FixedNeverEndless | lib/draw/stb_image.h:4226-4238 | with the fixed codes decoding is never endless, whatever the output and the buffer |
| ZlibFormat.FixedLengthsAre | lib/draw/stb_image.h:4375-4386 | the default lengths: 9 bits for 144 to 255, 7 for 256 to 279, 8 for all others |
| ZlibDecode.ParseDynamic | lib/draw/stb_image.h:4423-4426 | succeeds exactly if a header and tokens up to an end of block can be read there, and extends the output; goes on forever exactly if a header and tokens can be read behind which decoding is stuck |
| ZlibDecode.ParseBlock | lib/draw/stb_image.h:4412-4427 | one block as it stands in the input, with its final bit and the bits left in the buffer; accepted exactly if one can be read, and endless exactly if it gets stuck |
| ZlibDecode.ParseBlocks | lib/draw/stb_image.h:4411-4429 | blocks up to the first final one, each standing behind the one before with the bits that one left, and the output they produce; accepted exactly if such blocks can be read, and endless exactly if blocks can be read behind which one gets stuck |
| ZlibDecode.ParseZlibHeader | lib/draw/stb_image.h:4361-4373 | accepts exactly the headers of RFC 1950 with method 8 and without preset dictionary |
| ZlibFormat.ZlibHeaderIs | lib/draw/stb_image.h:4361-4373 | that is: the first four bits are 8, bit 13 is clear, and the first two bytes as a number, most significant byte first, are a multiple of 31 |
| ZlibDecode.DoZlib | lib/draw/stb_image.h:4432-4440 | for every input, capacity and kind of buffer: success exactly if the input is a zlib stream that can be read into it, and the output is then what the stream stands for; endless exactly if there are blocks, a header and tokens that can be read, behind which decoding is stuck |
| ReadableStream.StreamUnique | lib/draw/stb_image.h:4411-4429 | a stream consists of its blocks, headers and tokens in one way only |
| ReadableStream.NowhereStuck | lib/draw/stb_image.h:4411-4429 | a stream that can be read does not get stuck anywhere |
| ReadableStream.ChecksumIsEnough | lib/draw/stb_image.h:4188-4192 | every zlib stream with two more bytes behind its blocks, hence every one with its checksum, can be read into any buffer that has room for its output |
| EndlessStream.InputIsStuck | lib/draw/stb_image.h:4240-4280 | in a stream of 34 bytes decoding gets stuck: a stored block of nine bytes and a dynamic header whose only codes are those of length symbol 286 and distance symbol 6 |
| EndlessStream.NeverEnds | lib/draw/stb_image.h:4240-4280 | decoding it never ends, in any buffer of nine bytes or more |
| FixedCodes.FixedCodeIsCanonical | lib/draw/stb_image.h:4375-4386 | the code table the writer uses is the canonical code of the default lengths |
| FixedCodes.DistanceCodeIsCanonical | lib/draw/stb_image.h:4387-4390 | and a distance code of the default lengths is its symbol |
| BitWriter.ZWriter.Flush | lib/draw/stb_image_write.h:839-847 | moves whole bytes to the output without changing the bits written |
| BitWriter.ZWriter.Add | lib/draw/stb_image_write.h:880-881 | appends exactly the n bits of the code, leaving all earlier bits |
| BitWriter.ZWriter.BitRev | lib/draw/stb_image_write.h:849-857 | the code reversed bit by bit |
| BitWriter.ZWriter.Huff | lib/draw/stb_image_write.h:882-889 | appends the fixed Huffman code of the symbol |
| BitWriter.ZWriter.HuffDistance | lib/draw/stb_image_write.h:964 | appends the fixed distance code |
| Compress.CountMatch | lib/draw/stb_image_write.h:859-865 | the longest common run, at most 258 and within the data |
| Compress.MatchLengthIs | lib/draw/stb_image_write.h:859-865 | the bytes repeat, and the run ends only at 258 bytes, at the end of the data, or where they differ |
| Compress.BestMatch | lib/draw/stb_image_write.h:924-933 | the last of the longest matches of at least 3 bytes among the candidates within the window, or none |
| Compress.WindowReaches | lib/draw/stb_image_write.h:925-928 | all candidates less than 2^15 bytes back are considered |
| Compress.NextIsBetter | lib/draw/stb_image_write.h:941-955 | whether a candidate for the next position matches longer |
| Compress.HashOfThree | lib/draw/stb_image_write.h:923 | a position is filed under 14 bits of the hash of its three bytes |
| Compress.Remember | lib/draw/stb_image_write.h:934-939 | the position is appended to its chain, of which the older half is dropped when it is full |
| Compress.ChooseMatch | lib/draw/stb_image_write.h:922-955 | the best match, unless the next position has a longer one |
| Compress.LengthTables | lib/draw/stb_image_write.h:901-902 | the length tables of encoder and decoder agree, and their extra bits leave no gap |
| Compress.DistTables | lib/draw/stb_image_write.h:903-904 | the same for distances |
| Compress.LengthSlot | lib/draw/stb_image_write.h:960 | the length class of a match |
| Compress.DistSlot | lib/draw/stb_image_write.h:963 | the distance class of a match |
| Compress.EmitCopy | lib/draw/stb_image_write.h:958-966 | appends a copy token of that length and distance, with the symbol of its own for length 258 |
| Compress.EmitLiteral | lib/draw/stb_image_write.h:968 | appends a literal token |
| Compress.PutCopy | lib/draw/stb_image_write.h:957-966 | a match that was found extends the data described so far by its length |
| Compress.NextToken | lib/draw/stb_image_write.h:921-969 | one round: the token of lazy matching for the position, with the hash table as the positions so far have left it |
| Compress.EmitTokens | lib/draw/stb_image_write.h:921-974 | the tokens written are those of lazy matching, each from the hash table that the positions before it have left, and they stand for exactly the data |
| Compress.PadToByte | lib/draw/stb_image_write.h:976-978 | pads with zero bits to the next byte boundary |
| Compress.CompressFixed | lib/draw/stb_image_write.h:913-978 | header and one final fixed block that stands for the data and ends within the last byte |
| Compress.StoreBlock | lib/draw/stb_image_write.h:988-997 | one stored block |
| Compress.StoreBlocks | lib/draw/stb_image_write.h:985-998 | stored blocks of at most 32767 bytes that stand for the data and end with the output, no more than needed |
| Compress.ZlibCompress | lib/draw/stb_image_write.h:895-1021 | a zlib stream that stands for the data, with its checksum from the first whole byte behind it: one fixed block with the tokens of lazy matching, unless that is longer than stored blocks, which are written then, so that at most 5 bytes for every 32767 and 6 more are added; for the empty string only the header and the checksum |
| Adler.AddBlock | lib/draw/stb_image_write.h:1007 | sums deferred over a block of at most 5552 bytes stay below 2^32 and agree with the byte-wise sums modulo 65521 |
| Adler.DeferredBound | lib/draw/stb_image_write.h:1003-1010 | the bound on the deferred sums |
| Adler.SumsReducedOnce | lib/draw/stb_image_write.h:1006-1010 | the byte-wise sums, reduced at every step, are the full sums reduced once |
| Adler.Adler32 | lib/draw/stb_image_write.h:1001-1016 | the checksum, most significant bytes first: the length plus the sum of the bytes, byte i counted n - i times, and one plus the sum of the bytes, each modulo 65521 |
| RoundTrip.CompressThenInflate | lib/draw/stb_image_write.h:895-1022 | compressing and inflating succeeds exactly for non-empty data and then gives it back, for every hash function, quality and sufficient buffer |
| RoundTrip.EmptyIsNoStream | lib/draw/stb_image_write.h:984-987 | the six bytes written for the empty string are no zlib stream |
| PngFilter.UnfilterFiltered | lib/draw/stb_image.h:4637-4688 | unfiltering a filtered row gives back its bytes, for every filter type and prior row, Paeth ties included |
| PngFilter.PaethIsNearest | lib/draw/stb_image.h:4580-4589 | the Paeth predictor is the one of left, above and above left that is nearest to left + above - above left, of equally near ones the first |
| PngFilter.FilteredIs | lib/draw/stb_image_write.h:1108-1125 | a filtered byte differs from the byte by what its type takes away: nothing, the byte n places to the left, the byte above, half their sum rounded down, or the nearest of the three; bytes outside the image are zero |
| PngFilter.UnfilteredIs | lib/draw/stb_image.h:4634-4689 | filtering inverts unfiltering |
| PngFilter.DecodeEncoded | lib/draw/stb_image.h:4612-4689 | unfiltering all lines of an image gives back its rows, whatever filter each was written with |
| PngFilter.DecodedLines | lib/draw/stb_image.h:4612-4689 | in a decoded image every row is the one that its line is the filtered form of, by the filter of its type |
| PngFilter.DecodableLines | lib/draw/stb_image.h:4618-4621 | decoding fails exactly at a filter type above 4 |
| PngLines.FirstByteIs | lib/draw/stb_image_write.h:1094-1117 | on the first pixel, the special cases are the filter with zeros outside the image |
| PngLines.RestByteIs | lib/draw/stb_image_write.h:1094-1125 | the other pixels likewise, with the synthetic filters of the first line |
| PngLines.EncodeLine | lib/draw/stb_image_write.h:1092-1126 | line y filtered by the definition of the PNG specification, in normal or flipped row order, byte for byte |
| PngLines.LineIs | lib/draw/stb_image_write.h:1092-1099 | line y is row y of the pixels, or when flipping, row y from the last one; the row before it is the line written before |
| PngLines.EncodeBest | lib/draw/stb_image_write.h:1152-1169 | of the five filters, the first one of least sum of absolute signed bytes, and the line filtered with it |
| PngLines.EstimateLine | lib/draw/stb_image_write.h:1157-1160 | the sum of the absolute values of the filtered bytes as signed chars |
| PngLines.SignedSize | lib/draw/stb_image_write.h:1157-1160 | a byte counts as much as it is away from 0 or 256 |
| PngLines.WriteLines | lib/draw/stb_image_write.h:1140-1174 | all lines in writing order, each behind its filter type, the forced one or else the first of least estimate; unfiltering gives back the rows |
| PngImage.FirstCaseIs | lib/draw/stb_image.h:4636-4650 | the decoder cases for the first pixel invert the filter with zeros outside the image |
| PngImage.RestCaseIs | lib/draw/stb_image.h:4673-4688 | the decoder cases for the other pixels likewise |
| PngImage.UnfilterLine | lib/draw/stb_image.h:4634-4689 | one row rebuilt in place, from the row before it in the same buffer |
| PngImage.CreateImage | lib/draw/stb_image.h:4594-4689 | fails exactly when the data is too short or a filter type is above 4, else each row is the one that its line is the filtered form of |
| PngRoundTrip.WriteThenRead | lib/draw/stb_image_write.h:1128-1178 | image data through filters, compressor, inflater and unfiltering gives back every row, for every image, forced filter, orientation and hash function |
| TgaRle.LoadWritten | lib/draw/stb_image.h:5892-5947 | packets load as the pixels they expand to, across packet and row boundaries |
| TgaRle.LoadPacket | lib/draw/stb_image.h:5897-5939 | one packet loads as its pixels, repeated or raw |
| TgaWrite.NextPacket | lib/draw/stb_image_write.h:563-591 | the packet at a position: up to 128 equal pixels if the next one is equal, all that follow; else pixels up to the first that is equal to the one two places before it |
| TgaWrite.WritePacket | lib/draw/stb_image_write.h:593-603 | header byte and pixels of one packet |
| TgaWrite.WriteRow | lib/draw/stb_image_write.h:560-604 | exactly these packets, one after the other, which expand to the pixels of the row in file order |
| TgaWrite.WriteTga | lib/draw/stb_image_write.h:532-609 | header and exactly these packets for each row in file order, which load as the pixels of these rows |
| TgaLoad.HeaderBytes | lib/draw/stb_image_write.h:541-548 | the header is type 10 or 11 with its size, 8 bits for each component and the alpha bits, and zeros |
| TgaLoad.FileBytesAre | lib/draw/stb_image_write.h:426-448 | pixels of three or four bytes are written blue first |
| TgaLoad.NextPixel | lib/draw/stb_image.h:5892-5946 | one step of the packet reader |
| TgaLoad.LoadPixels | lib/draw/stb_image.h:5891-5947 | the pixels of all packets |
| TgaLoad.InvertRows | lib/draw/stb_image.h:5948-5964 | the rows in the opposite order, exchanged in place from both ends |
| TgaLoad.SwapColors | lib/draw/stb_image.h:5972-5983 | red and blue exchanged in every pixel of three or four bytes |
| TgaLoad.SwappedBack | lib/draw/stb_image_write.h:426-448 | the exchange undoes the byte order in which pixels are written |
| TgaLoad.HeaderParsed | lib/draw/stb_image_write.h:548 | the header written is read back with its size, type, depth and orientation |
| TgaLoad.LoadTga | lib/draw/stb_image.h:5793-5995 | the outcome for every header; an image with packets has the size of bytes 12 to 15, and its row r is row r of the file if bit 5 of byte 17 is set, else row r from the last one, with red and blue exchanged |
| TgaLoad.ComponentsAre | lib/draw/stb_image.h:5661-5675 | 8, 15, 16, 24 and 32 bits are known; a pixel of whole bytes has 8 bits for each component, and 15 bits, or 16 that are not grey, are packed |
| TgaLoad.ComponentsByBytes | lib/draw/stb_image.h:5825-5836 | with a palette the bits of byte 7 count, else those of byte 16; types 3 and 11 are grey |
| TgaLoad.WriteThenLoad | lib/draw/stb_image_write.h:532-609 | for widths and heights of 1 to 65535 and 1 to 4 components, loading what was written succeeds exactly when the size in bytes is in the integer range, and then restores every row, or the rows turned over when flipping |
| HdrRle.FindRun | lib/draw/stb_image_write.h:727-735 | the first run of three from x on, or the end of the line |
| HdrRle.WriteDumps | lib/draw/stb_image_write.h:736-742 | dumps of the bytes up to the run, 128 at a time |
| HdrRle.WriteRuns | lib/draw/stb_image_write.h:743-755 | runs for the equal bytes, 127 at a time |
| HdrRle.WriteComponent | lib/draw/stb_image_write.h:725-756 | packets that expand to the line and read back as it, and which ones: a run wherever three bytes are equal, with all equal bytes up to 127, or on from a full run; dumps of the bytes before the next run, up to 128 |
| HdrRle.ReadWritten | lib/draw/stb_image.h:7182-7199 | packets read back as the bytes they expand to, wherever they stand in the input |
| HdrRle.LineIff | lib/draw/stb_image.h:7182-7199 | for any input: a line is read exactly if packets stand back to back that fill it, is refused exactly if one of them has more bytes than are missing, and is read forever exactly if they reach the end of the input before the line is full |
| HdrScan.WriteScanline | lib/draw/stb_image_write.h:719-757 | header with the width, and these packets of the four components, which read back as the scanline |
| HdrScan.ScanRoundTrip | lib/draw/stb_image.h:7153-7200 | a scanline that was written reads back as its four component lines |
| HdrScan.ReadPackets | lib/draw/stb_image.h:7182-7199 | one round of the reading loop as the line model says; at the end of the input it changes neither the count, the position nor the pixels |
| HdrScan.ReadComponent | lib/draw/stb_image.h:7182-7199 | the bytes of one component at every fourth place, the others untouched, or the reason for stopping; the loop never ends exactly if packets that expand to less than the line reach the end of the input |
| HdrScan.ReadScanline | lib/draw/stb_image.h:7153-7200 | header and four components, or why the line is not read |
| HdrScan.ScanIff | lib/draw/stb_image.h:7153-7200 | for any input: reading a scanline never ends exactly if its width is announced and its packets reach the end of the input before one of the four components is full |
| HdrScan.WriteThenRead | lib/draw/stb_image_write.h:698-757 | for widths of 8 to 32767, every scanline written reads back as it was |
| LuSpec.LuEntryIsProduct | src/common/rtkcmn.c:1079-1099 | the packed entries stand for the product of a unit lower and an upper factor |
| LuSpec.RowOrderPermutes | src/common/rtkcmn.c:1088-1094 | the recorded exchanges permute the rows |
| LuSpec.ColumnDone | src/common/rtkcmn.c:1079-1099 | the passes over one column extend the factorisation of the permuted matrix by that column |
| LuDecomp.RowScales | src/common/rtkcmn.c:1075-1078 | scales by which the largest entry of each row becomes 1, or a row of zeros |
| LuDecomp.UpperPass | src/common/rtkcmn.c:1080-1082 | the entries above the diagonal are those of the upper factor |
| LuDecomp.LowerPass | src/common/rtkcmn.c:1083-1087 | the entries below are those of the lower factor before scaling, and the row chosen is the last one with the largest scaled entry |
| LuDecomp.SwapRows | src/common/rtkcmn.c:1088-1091 | two rows exchanged, all others as they were |
| LuDecomp.ScaleColumn | src/common/rtkcmn.c:1096-1098 | the entries below the diagonal divided by the pivot |
| LuDecomp.Column | src/common/rtkcmn.c:1079-1099 | one column; fails exactly when all candidates for the pivot are zero |
| MatInv.ZeroPivotSingular | src/common/rtkcmn.c:1095 | a zero pivot means the input matrix is singular |
| MatInv.Ludcmp | src/common/rtkcmn.c:1069-1102 | success: the factors multiply to the input with its rows in the recorded order, with pivots that are not zero, and d is the parity of the exchanges; failure: the input has no inverse |
| MatInv.ParityCounts | src/common/rtkcmn.c:1073-1092 | d is 1 exactly if an even number of rows has been exchanged, else -1 |
| MatInv.SubtractLeft | src/common/rtkcmn.c:1111 | skipping the leading zeros does not change the sum |
| MatInv.Forward | src/common/rtkcmn.c:1109-1113 | solves the lower triangular system for the right-hand side in row order |
| MatInv.Backward | src/common/rtkcmn.c:1114-1116 | solves the upper triangular system |
| MatInv.Lubksb | src/common/rtkcmn.c:1104-1117 | the result solves the original system |
| MatInv.UnitColumn | src/common/rtkcmn.c:1127-1128 | a column of the unit matrix, within its segment |
| MatInv.SolveColumns | src/common/rtkcmn.c:1126-1130 | each column solves the system for its unit vector |
| MatInv.FactoredNotSingular | src/common/rtkcmn.c:1125 | a matrix that was factored is not singular |
| Linear.RightInverseIsLeft | src/common/rtkcmn.c:1119-1133 | for a matrix that is not singular, an inverse from the right is one from the left |
| Linear.InverseUndoes | src/common/rtkcmn.c:1119-1133 | an inverse undoes the matrix on every vector |
| MatInv.Matinv | src/common/rtkcmn.c:1119-1133 | succeeds exactly for invertible matrices, and the result is then the inverse on both sides; on failure the matrix is unchanged |
| KdTrees.InsertRec | lib/kdtree/kdtree.c:167-194 | the subtree has the old nodes and one new node, and still separates its nodes by the splitting planes |
| KdTrees.HyperRect.Extend | lib/kdtree/kdtree.c:731-743 | the smallest box that holds the old one and the point |
| KdTrees.WidenedHolds | lib/kdtree/kdtree.c:731-743 | points in the box stay in it |
| KdTrees.HyperRect.DistanceSq | lib/kdtree/kdtree.c:745-759 | the squared distance from the point to the box |
| KdGeometry.BoxBelowUpto | lib/kdtree/kdtree.c:745-759 | which is at most the squared distance to any point in the box |
| KdGeometry.DistanceMoves | lib/kdtree/kdtree.c:381 | moving one coordinate from x to y changes the squared distance to q by the square of y - q less that of x - q |
| KdGeometry.DistanceToItself | lib/kdtree/kdtree.c:381 | and from a point to itself it is zero |
| KdGeometry.BoxDistanceIsReached | lib/kdtree/kdtree.c:745-759 | the distance to a box is the distance to one of its points |
| KdGeometry.BoxOfPoint | lib/kdtree/kdtree.c:745-759 | the distance to the box of a single point is the distance to that point |
| KdTrees.KdTree.Insert | lib/kdtree/kdtree.c:196-209 | the tree has the old nodes and the new one, all in its bounding box |
| KdSearch.SliceHolds | lib/kdtree/kdtree.c:367-370 | the sliced box holds all nodes of the child it is made for |
| KdSearch.BoxPrunes | lib/kdtree/kdtree.c:388-398 | a subtree whose box is not closer than the best distance has no closer node |
| KdSearch.SearchChild | lib/kdtree/kdtree.c:367-401 | restores the box, and improves the result over the nodes of the child |
| KdSearch.NearestI | lib/kdtree/kdtree.c:345-402 | restores the working box, and the result is the closest of the old one and the nodes of the subtree |
| KdSearch.KdNearest | lib/kdtree/kdtree.c:404-457 | nothing for an empty tree, else a stored node whose squared distance is minimal |
| KdRange.ResList.FindPlace | lib/kdtree/kdtree.c:822-826 | behind all entries of smaller distance, or first for a negative distance |
| KdRange.ResList.Insert | lib/kdtree/kdtree.c:812-830 | the entry is spliced in at its place, all others keep theirs |
| KdRange.SortedInsert | lib/kdtree/kdtree.c:822-828 | which keeps the list sorted by distance |
| KdRange.VisitedIffNotCutOff | lib/kdtree/kdtree.c:273-286 | of the nodes in the closed range, those are visited that no node of the tree cuts off: one that has them on its right and whose coordinate is exactly the upper end of the range |
| KdRange.FoundExactly | lib/kdtree/kdtree.c:262-293 | the nodes found are those of the closed range that are not cut off; all of the closed range if no stored coordinate is exactly the upper end of the range |
| KdRange.PlaneIsCloser | lib/kdtree/kdtree.c:280-286 | a node strictly inside the range is never shut out |
| KdRange.StrictlyInsideIsVisited | lib/kdtree/kdtree.c:282-286 | so all nodes strictly inside the range are visited |
| KdRange.FindNearest | lib/kdtree/kdtree.c:262-293 | exactly these nodes are added, each once and with its squared distance if the list is ordered, the list stays sorted, and their number is returned |
| KdRange.SearchTree | lib/kdtree/kdtree.c:262-293 | the search of a tree into a new list: the nodes found, each once; an ordered list is sorted by the distances of its nodes |
| KdRange.KdNearestRange | lib/kdtree/kdtree.c:537-559 | the size and contents of the result: the nodes of the closed range that are not cut off, hence all nodes strictly inside, and all of the closed range if no stored coordinate is exactly its upper end |
| KdRange.LowerTwinCutOff | lib/kdtree/kdtree.c:273-286 | of two nodes at one place the lower one is cut off if that place is at the upper end of the range |
| KdRange.BoundaryMiss | lib/kdtree/kdtree.c:273-286 | a tree and a range search that returns one node, though another one is in the closed range too |
| UtItems.AndMask | lib/uthash/uthash.h:431-434 | the mask with num_buckets - 1 is the remainder by a power of two |
| UtItems.LinkFront | lib/uthash/uthash.h:766-775 | the item becomes the front of the chain of its bucket, which is counted, and all other chains are as they were |
| UtItems.DelInBkt | lib/uthash/uthash.h:788-800 | the item leaves its chain, and all other chains are as they were |
| UtExpand.MoveItem | lib/uthash/uthash.h:853-866 | one item pushed to its new bucket, with the count of nonideal items and the multiplier of the bucket |
| UtExpand.MoveChain | lib/uthash/uthash.h:850-868 | all items of a chain, in order |
| UtExpand.Redistribute | lib/uthash/uthash.h:849-869 | all items of all buckets |
| UtExpand.DoubledFrom | lib/uthash/uthash.h:849-873 | a bucket of the doubled table gets exactly the items of one old bucket that now select it, in reversed order |
| UtExpand.MultBounds | lib/uthash/uthash.h:855-860 | the multiplier is zero on ideal chains and otherwise about the number of ideal lengths in the chain |
| UtExpand.ShiftRoundsUp | lib/uthash/uthash.h:845-847 | shift and mask compute the quotient rounded up |
| UtExpand.CeilDivIs | lib/uthash/uthash.h:845-847 | the rounded quotient times the divisor is at least the dividend, by less than the divisor |
| UtExpand.BeyondIs | lib/uthash/uthash.h:855-860 | the nonideal items of a chain are all but the ideal number |
| UtTables.UtHash.ExpandBuckets | lib/uthash/uthash.h:832-882 | twice the buckets with the same items, each in exactly the bucket its hash selects; the ideal length times the buckets is the number of items rounded up, the nonideal items are those beyond it, and the effect is recorded |
| UtTables.UtHash.NoteEffect | lib/uthash/uthash.h:874-879 | two ineffective expansions in a row inhibit further ones |
| UtTables.UtHash.MakeTable | lib/uthash/uthash.h:213-243 | an empty table of 32 buckets |
| UtTables.UtHash.AppendList | lib/uthash/uthash.h:279-285 | the item goes to the end of the application order |
| UtTables.UtHash.AddToBkt | lib/uthash/uthash.h:766-785 | the item becomes the front of its bucket, all other chains as they were; an expansion follows exactly when the chain has 10 items for each step of its multiplier and expansion is not inhibited |
| UtTables.UtHash.AddByHashValue | lib/uthash/uthash.h:397-416 | keeps the table valid and appends the item to the application order, under any hash value |
| UtTables.UtHash.Add | lib/uthash/uthash.h:418-423 | likewise under the hash of the key; for a new key the finite map gains the item |
| UtTables.UtHash.FindInBkt | lib/uthash/uthash.h:744-763 | the first item of the chain with that hash value and key, or null if there is none |
| UtTables.UtHash.FindByHashValue | lib/uthash/uthash.h:154-164 | the first item with that hash value and key in the chain the value selects, or null if the table has none |
| UtTables.UtHash.Find | lib/uthash/uthash.h:166-174 | under unique keys, the lookup of the finite map |
| UtTables.UtHash.UnlinkList | lib/uthash/uthash.h:462-472 | the item leaves the application order, with head and tail corrected |
| UtTables.UtHash.Delete | lib/uthash/uthash.h:451-478 | keeps the table valid, takes exactly this item out of the order and out of the finite map, and frees the table with its last item |
| UtTables.UtHash.Replace | lib/uthash/uthash.h:255-263 | the item that had the key, which may be the new one itself, is deleted and returned, and the new one appended |
| UtTables.MapHas | lib/uthash/uthash.h:744-763 | under unique keys the finite map has exactly the items of the list |
| UtFsck.ChainsCountItems | lib/uthash/uthash.h:524-546 | the lengths of all chains add up to the length of the list |
| UtFsck.WalkChain | lib/uthash/uthash.h:526-543 | a chain is counted, and the walk complains exactly if some back link does not lead back |
| UtFsck.Fsck | lib/uthash/uthash.h:517-564 | whatever the back links and counts are: the check passes exactly if all back links of chains and list lead back, every bucket has the count of its chain, and both totals are the number of items |
| UtFsck.ValidIsConsistent | lib/uthash/uthash.h:517-564 | so it finds no fault with a valid table |
| UtRuns.Apply | lib/uthash/uthash.h:255-263 | one put, removal, lookup or sort does to the table what it does to a list of entries in insertion order |
| UtRuns.Run | lib/uthash/uthash.h:154-164 | after any run of puts, removals, lookups and sorts by any comparisons, items put again included, the table is valid and holds the entries of the list model in their order, and every answer was that of the model |
| UtRuns.OneEntryPerKey | lib/uthash/uthash.h:255-263 | no run leaves two entries with the same key |
| UtRuns.SortedAfter | lib/uthash/uthash.h:889-971 | in the list model a sort is stable, for a comparison that is total and transitive on the entries |
| UtMerge.MergeOrdered | lib/uthash/uthash.h:916-956 | merging two ordered runs, of which the first comes from earlier positions, gives an ordered run; equal items keep their order |
| UtMerge.PassRuns | lib/uthash/uthash.h:899-958 | a pass doubles the length of the ordered runs |
| UtMerge.MergeSortPermutes | lib/uthash/uthash.h:889-971 | the sort permutes the items, for any comparison |
| UtMerge.SortIsStable | lib/uthash/uthash.h:889-971 | for a total and transitive comparison the result is sorted and stable |
| UtMerge.SortImage | lib/uthash/uthash.h:889-971 | sorting commutes with any map that respects the comparisons, so items are sorted along with their entries |
| UtSort.Advance | lib/uthash/uthash.h:905-914 | steps over the first run, or to the end |
| UtSort.TakeNext | lib/uthash/uthash.h:916-944 | the next item of the merge of the two runs |
| UtSort.Emit | lib/uthash/uthash.h:945-955 | links the item behind the emitted ones in both directions |
| UtSort.MergeRuns | lib/uthash/uthash.h:915-957 | the emitted list grows by the merge of the two runs, and the items behind them are still linked |
| UtSort.MergePass | lib/uthash/uthash.h:899-961 | the items linked in both directions in the order of one pass, and whether it was a single merge |
| UtSort.SortList | lib/uthash/uthash.h:895-968 | passes over runs of doubling length; terminates |
| UtSort.Sort | lib/uthash/uthash.h:889-971 | keeps the table valid with its buckets as they were; the application order is the stable sort of the old one, for comparisons of items and their keys |
| Queue.MutuallyInverse | lib/queue/queue.h:24-27 | next and prev are inverse to each other |
| Queue.Init | lib/queue/queue.h:45-50 | an empty queue |
| Queue.Empty | lib/queue/queue.h:39-40 | true exactly for a queue without elements |
| Queue.ForEach | lib/queue/queue.h:36-37 | visits exactly the elements, from first to last |
| Queue.InsertHead | lib/queue/queue.h:83-90 | the node becomes the first element |
| Queue.InsertTail | lib/queue/queue.h:92-99 | the node becomes the last element |
| Queue.Remove | lib/queue/queue.h:101-106 | exactly this node leaves the ring |
| Queue.Add | lib/queue/queue.h:52-59 | the elements of n follow those of h, either side may be empty |
| Queue.Split | lib/queue/queue.h:61-70 | the elements from q on move to n, the others stay |
| Queue.Move | lib/queue/queue.h:72-81 | all elements move to n, and h is empty |
| Queue.SplitThenAdd | lib/queue/queue.h:52-70 | adding what was split off restores the queue |
| Queue.AddThenSplit | lib/queue/queue.h:52-70 | splitting at the first added element restores both queues |
| BitField.GetBitU | src/common/rtkcmn.c:726-732 | the bits of the field as a number, modulo 2^32 |
| BitField.FieldSplit | src/common/rtkcmn.c:726-732 | a field is its first bits followed by its last bits |
| BitField.SetBitU | src/common/rtkcmn.c:747-755 | the field holds the low bits of the data and every other bit is as it was; other lengths do nothing |
| BitField.SetThenGetU | src/common/rtkcmn.c:726-755 | reading back gives the data modulo 2^len |
| BitField.GetBits | src/common/rtkcmn.c:733-738 | the field in two's complement |
| BitField.SetBits | src/common/rtkcmn.c:756-760 | the low bits of the data with its sign on top |
| BitField.SignedSurvives | src/common/rtkcmn.c:733-760 | a signed value survives the field exactly when it is in the range of len-bit numbers |
| BitField.SetThenGetS | src/common/rtkcmn.c:733-760 | reading back gives the value exactly when it is in that range |
| Base64.EncodedLength | src/common/rtkcmn.c:3708-3716 | four characters for every three bytes, with the rest filled up by padding |
| Base64.EncBase64 | src/common/rtkcmn.c:3702-3717 | one character for every six bits, most significant first, and padding to a multiple of four |
| Base64.Alphabet | src/common/rtkcmn.c:3704-3705 | the alphabet: capitals, small letters, digits, plus and slash |
| Base64.ByteField | src/common/rtkcmn.c:3710-3711 | eight bits from a byte boundary on are that byte, most significant bit first |
| Base64.DecodesByGroups | src/common/rtkcmn.c:3683-3700 | any text decodes to the bytes of its groups of four digits before the first character that is not allowed, with white space skipped and fewer bytes by the paddings so far |
| Base64.CharactersAre | src/common/rtkcmn.c:3656-3679 | digits are the characters of the alphabet; besides them only padding, line ends and blanks are allowed |
| Base64.DecBase64 | src/common/rtkcmn.c:3654-3701 | the bytes of the groups, and -1 exactly if some character is not allowed; the length counts by its sign and remainder only |
| Base64.DecodeEncoded | src/common/rtkcmn.c:3687-3699 | decoding an encoded text gives the bytes back, padded groups included |
| Base64.EncodeThenDecode | src/common/rtkcmn.c:3654-3717 | every non-empty byte string comes back; the empty one is rejected |

## Left out

- Inflate.ZBuf.ParseHuffmanBlock: the original does not return from a block that is stuck; the model returns that outcome when the rounds come back to a number of buffered bits, and keeps these numbers for it.
- Inflate.ZBuf.Zexpand: needs a positive capacity, because the original doubles the size until it is enough and would never end from zero.
- Inflate.ZBuf.CopyBack: for the two reserved distance codes the original copies bytes of the fresh buffer onto themselves; the model says only that each byte equals the one that many places before.
- HdrScan.ReadComponent: at the end of the input the original reads zero counts forever; the model returns that outcome instead.
- PngImage.CreateImage: eight bits a sample and as many components out as in; other depths, palettes and the inserted alpha channel are not modelled.
- TgaLoad.LoadTga: palettes, packed 15 and 16 bit colours and images without packets end as not modelled; pixels are sequences of their bytes, so that addresses within a pixel do not appear.
- Base64.DecBase64: the text is the one up to its terminating zero, of characters below 128; the unused output length is not modelled.
- BitField.SetBits: the original shifts by a negative amount for lengths below 1, which is undefined.
- UtRuns.Run: adding a second item under a key in use is not an operation of a run; the original leaves it to the caller to keep keys unique, and which of the two is found then depends on the expansions.
- UtFsck.Fsck: the forward links are taken to lead to an end; along a circle the original would go on forever.
- UtItems.LinkFront: the statements are those of adding to a bucket and of moving an item in an expansion, which differ only in order.
- Integer overflow of lengths near 2^31, of bucket numbers and of item counts.
- Allocation failure, memory identity of reallocated buffers, files, callbacks and buffered output.
- The hash functions: every proof holds for any function.
- The check of the Adler-32 checksum on decoding: the original does not make it.
- Rounding: the solver and the k-d tree work on exact reals; the conversion between floats and RGBE pixels is not modelled.
- The LAPACK branch of the solver, matrix products, filters and everything else of rtkcmn.c.
- k-d tree removal, result iteration, wrappers for floats and the node allocator.
- uthash Bloom filter, non-fatal out-of-memory mode, insertion in order, selection; the table pointer in each handle, as there is one table.
- JPEG, GIF, PSD, PIC, PNM and BMP, PNG chunks and CRC, HDR headers and flat scanlines: no counterpart here, or only branching.
- A PNG row stride of 0, which stands for rows without gaps.
- The drawing code, the programs, threads and network code.
