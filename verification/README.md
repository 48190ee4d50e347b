# A verified model of apfsprogs

This project models the parts of apfsprogs (mkapfs, apfsck and their shared
library) that are hardest to get right, and proves what they promise. It is
written in Dafny 4.11; `dafny verify dfyconfig.toml` checks all of it.

Two conventions hold throughout. In the checker, `report()` never returns, so a
check that fails is a result `false` (or `Reported`, `None`, `Invalid`) and the
state no longer matters; whenever possible a contract says *exactly* when that
happens. What the programs read from disk is a parameter. `Prelude` has what
several modules share, and `FormatNumbers` the numbers of the formats.

The modules, by component:

* **LZBITMAP codec** (`ZbmFormat`, `ZbmDecode`, `ZbmDecoder`, `ZbmEncode`,
  `ZbmEncoder`, `ZbmRoundTrip`, `ZbmChoice`, `ZbmAmbiguity`, `ZbmBound`). The imperative
  decoder and encoder refine functions on byte sequences, and these are inverse to each
  other for every chunk and every already coded prefix. The round trip of whole
  streams is false as stated: a compressed chunk that is exactly six bytes longer
  than its contents is read back as a stored one (lib/libzbitmap.c:110, admitted
  by :909). The 36 zero bytes of `ZerosDoNotRoundTrip` are an instance, and
  `RoundTrip` says exactly for which inputs the round trip holds. The encoder's
  cursor goes past the room that it has for a chunk exactly in a first chunk of 15
  or 16 bytes (`CompressSingleChunk`), which is then stored (`ShortFirstChunk`).
  `ZbmChoice` says what the encoder chooses: the best pattern, the most common
  bitmaps, and the shorter form of each chunk.
* **DEFLATE** (`BitStrings`, `Canonical`, `InfTables`, `InfSize`, `InfTrees`,
  `InfCodes`, `InflateWindow`). The two-level Huffman tables decode exactly the canonical
  code of section 3.2.2 of RFC 1951, with the lengths and distances of section
  3.2.5; and all the ways of copying a match give
  what section 3.2.3 asks for. The source says that the largest size of the tables
  is not known (include/apfs/zlib_inflate/inftrees.h:41-45); `AlwaysEnough` bounds
  those for literals and lengths by 926 entries, of the 1456 that there is room for.
* **B-trees** (`BtreeKeys`, `Btree`, `BtreeNodes`, `BtreeQuery`, `ExtentLookup`,
  `ExtentTouch`, `NodeArea`). The walk that threads the last key through a tree accepts exactly the
  trees that are in order; queries on those agree with a linear scan; and a key area
  is accepted exactly when it is fully accounted for. In the extent reference tree
  two extents of the same leaf never overlap, but the last extent of one leaf may
  share its last block with the first of the next, because only a strictly smaller
  key is refused across leaves (apfsck/btree.c:1011-1018). The extents of an accepted
  tree are disjoint if and only if no two leaves touch like that (`ExtentsDisjoint`).
  Records of new extents cannot, since their blocks would be marked twice
  (`ParseRun`); updates of an older extent can (`LeavesMayTouch`,
  `RecordsAreAccepted`).
* **Extents, bitmaps, object maps and snapshots** (`Allocation`, `Extents`,
  `Omap`, `Snapshots`, `Htable`). The table of extents behaves like one reference
  count per block, and the blocks of a volume and its snapshots are counted once.
* **Space manager** (`SpacemanLayout`, `SpacemanWriter`, `SpacemanChecker`,
  `SpacemanMade`, `IpRing`). What mkapfs writes is accepted by apfsck exactly when `CountsFit`
  holds. It does not always: on a device of 761724928 blocks the internal pool
  ends together with a chunk, and mkapfs/spaceman.c:146 records no used blocks
  for it (`WrongCount`).
* **Streaming** (`Unicode`, `UnicodeCursor`, `UnicodeOrder`, `Compressed`, `Sha256`,
  `CheckpointRing`, `Fletcher`). Cursors, caches, buffers and sums against their
  plain definitions. Two of them do not always meet theirs. The cursor follows
  the Canonical Ordering Algorithm of section 3.11 of the Unicode Standard for
  exactly the strings in which no single character's decomposition puts a starter
  after a non-starter (`WorksExactly`); decompositions alone never do, but with
  case folding some do, such as that of U+1F80 (`IotaSubscript`). Checkpoint
  mappings always add up to the recorded length exactly when this is not the whole
  ring (`TilesUnlessWhole`): then no mappings at all are accepted too, and so are two
  that both take the whole ring (`WholeRingOverlaps`).

## Model

| member | source | states |
|---|---|---|
| ZbmRoundTrip.CompressedChunkDecodes | lib/libzbitmap.c:1008-1041 | for every chunk after every prefix, the compressed-body decoder run on what the encoder built gives back the prefix and exactly the bytes of the chunk; the header holds both lengths and the body is never longer than a stored chunk |
| ZbmRoundTrip.RoundTrip | lib/libzbitmap.c:1093-1130 | decompressing a compressed stream gives the original if and only if no chunk's compressed form has the length of a stored one (unless it happens to hold the same bytes) |
| ZbmRoundTrip.StreamRoundTrip | lib/libzbitmap.c:409-436 | the same from any chunk on, with everything before it already decoded |
| ZbmRoundTrip.TooLong | lib/libzbitmap.c:382-402 | when the destination is smaller than the original, those streams are refused as out of range |
| ZbmRoundTrip.StreamStarts | apfsck/compress.c:250-255 | a stream starts with the magic, whose first byte is not mistaken for that of a stored block |
| ZbmRoundTrip.ChunkReads | lib/libzbitmap.c:382-407 | a chunk reads back as its contents, except that one of the ambiguous length reads back as the bytes of its own compressed form |
| ZbmRoundTrip.StoredChunkReads | lib/libzbitmap.c:496-511 | a stored chunk has both lengths in its header and its data after it |
| ZbmRoundTrip.EncodeDataValid | lib/libzbitmap.c:661-685 | the operations that the encoder picks describe the chunk: each byte is a literal or equals the one a period before it, and the literals are the data area |
| ZbmRoundTrip.NewOpValid | lib/libzbitmap.c:640-665 | the same for one group of eight bytes, whatever pattern was found |
| ZbmRoundTrip.ApplyOpDecodes | lib/libzbitmap.c:153-189 | applying the bitmap of an operation that is valid for the next bytes produces those bytes and leaves all streams at the next operation |
| ZbmRoundTrip.AllDecodes | lib/libzbitmap.c:254-276 | decoding the nibble stream, with its repetition counts, replays all the operations to the end of the chunk |
| ZbmRoundTrip.FoundTopsGood | lib/libzbitmap.c:939-982 | the bitmaps chosen for the trailer are at most twelve, with period byte counts that the decoder accepts |
| ZbmRoundTrip.TrailerDecodes | lib/libzbitmap.c:285-343 | the packed trailer of twelve 10-bit entries reads back as those twelve bitmaps |
| ZbmRoundTrip.MetadataLayout | lib/libzbitmap.c:984-1006 | header, data, three metadata areas and trailer are laid out one after the other, with their offsets in the header, in no more than six bytes beyond the chunk's length |
| ZbmRoundTrip.LayoutDecodes | lib/libzbitmap.c:345-380 | any chunk laid out like that, from operations that describe the source, decodes to it |
| ZbmAmbiguity.ZerosDoNotRoundTrip | lib/libzbitmap.c:107-111 | 36 zero bytes do not survive a round trip |
| ZbmAmbiguity.WitnessLength | lib/libzbitmap.c:1008-1041 | their compressed form takes exactly 42 bytes |
| ZbmChoice.CompressedIff | lib/libzbitmap.c:1008-1074 | a chunk has a compressed form, wherever it is in the source, if and only if it has 15 bytes at least, and header, literals, periods, listed bitmaps, nibbles and trailer of its operations (found without any limit) need no more than six bytes beyond its length; and that is what the form takes |
| ZbmChoice.ChunkTakes | lib/libzbitmap.c:1043-1074 | each chunk of a stream takes the shorter of both forms, and is stored when that is shorter |
| ZbmChoice.Unlimited | lib/libzbitmap.c:640-685 | the limit changes nothing but whether the encoder gives up, and it does not while the literals stay below |
| ZbmChoice.BestPattern | lib/libzbitmap.c:571-638 | no place in reach costs less than the one chosen, and of those that cost the same it is the current period, or else the farthest near one, or else the farthest one |
| ZbmChoice.DictionaryIsBest | lib/libzbitmap.c:939-982 | the dictionary has the bitmaps that are used most often, in falling order, those used as often in the order of their first use; what is left out comes after all of it, and when there are up to twelve bitmaps nothing is |
| ZbmChoice.UseCountIs | lib/libzbitmap.c:537-553 | use counts are the numbers of operations with a bitmap |
| ZbmChoice.NumberOf | lib/libzbitmap.c:752-771 | bitmaps in the dictionary are numbered by their place there and not listed; the others by their byte count |
| ZbmChoice.RunsAreShort | lib/libzbitmap.c:773-834 | runs are as long as they can be, and take one nibble for each number up to three, and a count from four on |
| ZbmBound.MaxCompressedLength | lib/libzbitmap.c:1076-1091 | the bound, or overflow exactly when it does not fit in 64 bits |
| ZbmBound.BoundIsEnough | lib/libzbitmap.c:1076-1091 | no stream is longer than the bound, and with that much room compression succeeds |
| ZbmBound.ShortFirstChunk | lib/libzbitmap.c:661-685 | a first chunk of 15 or 16 bytes has no compressed form |
| ZbmFormat.U24RoundTrip | lib/libzbitmap.c:97-105 | a 24-bit number written in three bytes is read back |
| ZbmFormat.U24LittleEndian | lib/libzbitmap.c:97-105 | both have the least significant byte first |
| ZbmFormat.PackNibblesHolds | lib/libzbitmap.c:790-804 | nibbles packed two to a byte are found in their places |
| ZbmDecode.WrapCheck | lib/libzbitmap.c:213-252 | the 16-bit wrap-around test of the repetition count is exact |
| ZbmDecode.TrailerIs | lib/libzbitmap.c:285-343 | the layout of the trailer, bit by bit; it is refused if and only if an entry has both bits of its byte count set |
| ZbmDecode.DecodeCompressed | lib/libzbitmap.c:345-380 | success means that exactly the chunk's length was appended to the output; all failures are invalid input |
| ZbmDecode.Decompress | lib/libzbitmap.c:409-436 | on every input, success never produces more than the size of the destination |
| ZbmDecode.ApplyBitmap | lib/libzbitmap.c:153-189 | a bitmap appends eight bytes, or what is left of the chunk |
| ZbmDecoder.DecompressInto | lib/libzbitmap.c:409-436 | the decoder on a real buffer terminates, stays inside the buffer and the current chunk, and gives the bytes, the length and the errors of the specification |
| ZbmDecoder.Decoder.ReadNibble | lib/libzbitmap.c:127-141 | reads the next nibble, failing exactly at the end of the chunk |
| ZbmDecoder.Decoder.RewindNibble | lib/libzbitmap.c:143-151 | undoes one ReadNibble |
| ZbmDecoder.Decoder.ApplyOne | lib/libzbitmap.c:153-189 | the in-place copy refines ApplyBitmap |
| ZbmDecoder.Decoder.ApplyByNumber | lib/libzbitmap.c:191-210 | dictionary and literal bitmaps refine the specification |
| ZbmDecoder.Decoder.ReadRepetitionCount | lib/libzbitmap.c:213-252 | run lengths, with the rewind for single bitmaps, refine the specification |
| ZbmDecoder.Decoder.DecompressSingleBitmap | lib/libzbitmap.c:254-276 | one bitmap number with its repetitions refines the specification |
| ZbmDecoder.Decoder.ReadTrailer | lib/libzbitmap.c:324-343 | succeeds exactly when the chunk has a valid trailer, and then holds its twelve bitmaps |
| ZbmDecoder.Decoder.HandleCompressedChunk | lib/libzbitmap.c:345-380 | a whole compressed chunk refines DecodeCompressed |
| ZbmDecoder.Decoder.HandleUncompressedChunk | lib/libzbitmap.c:113-125 | a stored chunk is copied |
| ZbmEncoder.CompressAll | lib/libzbitmap.c:1093-1130 | succeeds exactly when the destination has room, with the specified stream; the cursor never goes past the destination, unless the whole input has 15 or 16 bytes |
| ZbmEncoder.CompressChunk | lib/libzbitmap.c:1132-1180 | produces one chunk by itself, failing exactly without room or beyond the range of indices; the cursor never goes past the destination, unless it is the first chunk and has 15 or 16 bytes |
| ZbmEncoder.ChunksAreIndependent | lib/libzbitmap.c:1132-1180 | the chunks made one by one, put together, are the stream that is made at once |
| ZbmEncoder.FindGoodPattern | lib/libzbitmap.c:571-638 | the two scans, with their early exits, find the pattern of the specification |
| ZbmEncoder.Encoder.CodeData | lib/libzbitmap.c:661-685 | all groups of a chunk, with use counts kept for every bitmap; the cursor stays in the room for the chunk if and only if this is not a first chunk of at most 16 bytes |
| ZbmEncoder.Encoder.FindMostCommonBitmaps | lib/libzbitmap.c:958-982 | the dictionary, with the use counts of its bitmaps cleared |
| ZbmEncoder.Encoder.WriteMetadata1 | lib/libzbitmap.c:687-717 | the period bytes, failing exactly without room |
| ZbmEncoder.Encoder.WriteMetadata2 | lib/libzbitmap.c:719-739 | the bitmaps that are not in the dictionary, failing exactly without room |
| ZbmEncoder.Encoder.WriteMetadata3 | lib/libzbitmap.c:836-875 | the nibble stream with its runs, failing exactly without room |
| ZbmEncoder.Encoder.NumAndRepcount | lib/libzbitmap.c:773-788 | the number of a bitmap and the length of its run |
| ZbmEncoder.Encoder.WriteTrailingBitmaps | lib/libzbitmap.c:904-922 | the packed trailer, failing exactly without room |
| ZbmEncoder.Encoder.WriteAreas | lib/libzbitmap.c:984-1006 | all metadata areas and the header |
| ZbmEncoder.Encoder.CompressSingleChunk | lib/libzbitmap.c:1043-1074 | a chunk is compressed, or stored when that is no shorter; fails exactly when the stored form would not fit; at no time is the cursor past the room for the chunk, if and only if it is not a first chunk of 15 or 16 bytes |
| BitStrings.BackIncRev | lib/zlib_inflate/inftrees.c:227-236 | incrementing a reversed code backwards gives the reverse of the next code, with wrap-around to zero |
| BitStrings.PrefixFree | lib/zlib_inflate/inftrees.c:218-236 | a code that follows all the extensions of a shorter one does not start with it |
| Canonical.CodesPrefixFree | lib/zlib_inflate/inftrees.c:116-133 | without over-subscription no canonical code starts with another |
| Canonical.Complete | lib/zlib_inflate/inftrees.c:116-124 | when the Kraft sum is full, every bit string starts with some code |
| Canonical.CodesInARow | lib/zlib_inflate/inftrees.c:61-73 | in the order of lengths and then of symbols, each code is the one before it plus one, with zeroes appended when the length grows |
| Canonical.FirstCodeIsZero | lib/zlib_inflate/inftrees.c:61-73 | and the first one is all zeroes |
| InfTables.PlacedLookup | lib/zlib_inflate/inftrees.c:203-225 | a code in the root table or a sub-table is found by every string that starts with it, and its entry uses up exactly its bits |
| InfTrees.InflateTable | lib/zlib_inflate/inftrees.c:23-315 | fails exactly for over-subscribed sets, and incomplete ones other than an empty set or a lone 1-bit code outside CODES; otherwise runs out of room exactly when the tables for LENS would have ENOUGH - MAXD entries or more, which never happens for nine bits and up to 286 symbols; otherwise the tables have the specified size, and every string decodes to the symbol whose code it starts with, strings without one to the invalid entry |
| InfTrees.EveryStringDecodes | lib/zlib_inflate/inftrees.c:23-315 | in the tables for a complete set every bit string has a symbol |
| InfCodes.LengthKinds | lib/zlib_inflate/inflate.c:573-616 | symbols below 256 are literals, 256 ends the block, 257 to 284 are lengths with as many extra bits as the RFC gives them, 285 is 258, and 286 and 287 are errors |
| InfCodes.EachLengthOnce | lib/zlib_inflate/inftrees.c:47-52 | every length from 3 to 258 belongs to exactly one of the symbols 257 to 284, which follow each other without gaps |
| InfCodes.DistanceKinds | lib/zlib_inflate/inflate.c:617-640 | the same for distance symbols, 30 and 31 being errors |
| InfCodes.EachDistanceOnce | lib/zlib_inflate/inftrees.c:53-59 | every distance from 1 to 32768 belongs to exactly one of the symbols 0 to 29 |
| InfCodes.TablesMean | lib/zlib_inflate/inflate.c:573-640 | tables that were built give each string that starts with a code the meaning of its symbol, and all others an error |
| InfTrees.CheckKraft | lib/zlib_inflate/inftrees.c:116-122 | the running count is negative exactly for over-subscribed sets, and otherwise the unused part of the code space |
| InfTrees.CountLengths | lib/zlib_inflate/inftrees.c:92-96 | the number of symbols of each length |
| InfTrees.BoundLengths | lib/zlib_inflate/inftrees.c:98-114 | the longest and shortest lengths in use |
| InfTrees.SortSymbols | lib/zlib_inflate/inftrees.c:126-133 | symbols by length and then by value, each once |
| InfTrees.Replicate | lib/zlib_inflate/inftrees.c:218-225 | exactly the entries whose low bits are the code get filled |
| InfTrees.BackwardsIncrement | lib/zlib_inflate/inftrees.c:227-236 | the bit loop computes the backwards increment |
| InfTrees.SubTableBits | lib/zlib_inflate/inftrees.c:254-262 | a new sub-table is the smallest one with room for all the codes that share its root bits |
| InfTrees.OpenSubTable | lib/zlib_inflate/inftrees.c:245-274 | a new sub-table and its link keep all the codes placed so far; there is no room exactly when the entries used reach ENOUGH - MAXD |
| InfTrees.FillTables | lib/zlib_inflate/inftrees.c:186-275 | every code of the set ends up in its place, or the whole tables for LENS have ENOUGH - MAXD entries or more |
| InfTrees.AlwaysEnough | lib/zlib_inflate/inflate.c:546-549 | the tables for up to 286 symbols with nine root bits have at most 926 entries, less than ENOUGH - MAXD |
| InfSize.TableBound | include/apfs/zlib_inflate/inftrees.h:41-47 | the tables of any complete set have no more entries than the root table, the symbols and two of the largest sub-tables together |
| InfSize.SizeByLength | lib/zlib_inflate/inftrees.c:245-266 | the sub-tables add up length by length: one for each string of root bits that the codes of a length complete, with the index bits of that length |
| InfTrees.LastCode | lib/zlib_inflate/inftrees.c:284-309 | after the last code nothing is left of a complete set, and one entry of a lone code |
| InflateWindow.CopyUnique | lib/zlib_inflate/inflate.c:652-683 | the byte-at-a-time copy from history is the only extension in which each new byte equals the one dist places before it |
| InflateWindow.CopyBackSplit | lib/zlib_inflate/inflate.c:652-683 | copying in two steps is copying once |
| InflateWindow.Window.Update | lib/zlib_inflate/inflate.c:102-132 | after an update the circular window holds the last min(total, wsize) bytes of the whole output |
| InflateWindow.UpdateAll | lib/zlib_inflate/inflate.c:102-132 | the same over any number of calls |
| InflateWindow.MatchStep | lib/zlib_inflate/inflate.c:652-683 | one visit of the MATCH state writes the first bytes of the plain copy and touches nothing beyond them |
| InflateWindow.Match | lib/zlib_inflate/inflate.c:652-683 | staying in MATCH copies as much of the match as the buffer takes |
| InflateWindow.HeadRuns | lib/zlib_inflate/inffast.c:208-247 | the three layouts of the window all copy the right part of the history |
| InflateWindow.FastFromWindow | lib/zlib_inflate/inffast.c:201-259 | copies that start in the window equal the plain copy |
| InflateWindow.FastFromOutput | lib/zlib_inflate/inffast.c:260-305 | the 16-bit copy for distances 1, 2 and above equals the plain copy, for either alignment |
| InflateWindow.FastMatch | lib/zlib_inflate/inffast.c:200-305 | fails exactly when the distance is beyond what is held, and otherwise equals the plain copy |
| BtreeKeys.KeycmpEqual | apfsck/key.c:72-85 | keys compare equal only when they are the same |
| BtreeKeys.KeycmpFlips | apfsck/key.c:72-85 | the comparison is antisymmetric |
| BtreeKeys.LeTransitive | apfsck/key.c:72-85 | the comparison is transitive |
| BtreeKeys.LeLtTotal | apfsck/key.c:72-85 | the comparison is total |
| BtreeKeys.KeycmpIs | apfsck/key.c:72-85 | a key comes first if and only if it is smaller in the first of id, type and number that differs, or in none of them but in its name |
| BtreeKeys.StrcmpIs | apfsck/key.c:84 | a name comes first if and only if, after a common beginning, it ends or has the smaller unsigned byte |
| Btree.WalkMeaning | apfsck/btree.c:938-1098 | the walk accepts a subtree if and only if its shape is good, its first key is the parent's, keys grow strictly inside each leaf and never go back over all leaves; it leaves the end of the last record as the last key |
| Btree.RunsPair | apfsck/btree.c:1011-1019 | over a whole accepted tree every record starts at or after the end of all earlier ones |
| Btree.LeafPair | apfsck/btree.c:1011-1019 | inside a leaf every record starts strictly after the end of all earlier ones |
| Btree.FirstRecord | apfsck/btree.c:1013-1014 | the leftmost record below a node has the node's first key |
| BtreeNodes.CountIs | apfsck/btree.c:938-951 | the count of nodes is the length of a list of the nodes |
| BtreeNodes.ShapedIff | apfsck/btree.c:1044-1076 | the shape of a tree is good if and only if each node in that list is good by itself: leaves at level zero, and index records of eight bytes that lead to a node one level down, not a root, not empty, that starts with the same key |
| Btree.Checker.ParseSubtree | apfsck/btree.c:938-1098 | the recursive walk refines the specification, and counts the true numbers of leaf records and nodes |
| Btree.Checker.ParseTree | apfsck/btree.c:1141-1190 | a tree is accepted if and only if it is in order, the counts of its footer are true, and the other fields of the footer are those of the kind of tree |
| BtreeQuery.ScanIsBest | apfsck/btree.c:1954-1974 | a linear scan of sorted records finds the greatest key not above the target, or none when all are above it |
| BtreeQuery.ScanDecides | apfsck/btree.c:2029-2041 | it decides the query: none exactly when all keys are above, and any best record has the key that it finds |
| BtreeQuery.IndexSorted | apfsck/btree.c:1975-2007 | index keys of an accepted tree are sorted, so they can be bisected |
| BtreeQuery.FoundBelow | apfsck/btree.c:2071-2092 | what a query chooses below the chosen child is what it would choose among all records of the tree |
| BtreeQuery.FoundIsBest | apfsck/btree.c:2029-2041 | and that has the greatest key not above the target |
| BtreeQuery.Query.Bisect | apfsck/btree.c:1985-2007 | bisection terminates, at the last key not above the target or at an equal one, or knows that all are above |
| BtreeQuery.Query.NodeQuery | apfsck/btree.c:1975-2027 | the same with the checks for exact queries and empty values |
| BtreeQuery.Query.Run | apfsck/btree.c:2042-2093 | on an accepted tree a query finds a record with the greatest key not above the target, agreeing with the scan; it fails exactly when there is none (no equal key, for an exact query); it reports only for trees of twelve levels or records without a value |
| ExtentLookup.FoundHolds | apfsck/btree.c:1772-1799 | in an accepted extent reference tree, the record that a query for a block finds holds the block if any record does |
| ExtentLookup.TreeLookup | apfsck/btree.c:1772-1799 | finds an extent that holds the block if and only if there is one |
| ExtentLookup.UpdateLookup | apfsck/btree.c:1806-1819 | the extent comes from the most recent snapshot that has one for the block, and it reports exactly when none has |
| ExtentLookup.ExtentsDisjoint | apfsck/btree.c:1011-1035 | the extents of an accepted tree are pairwise disjoint if and only if no leaf starts with the last block of the leaf before it |
| ExtentTouch.LeavesMayTouch | apfsck/btree.c:1011-1018 | a tree whose two leaves share a block, and whose order is accepted |
| ExtentTouch.RecordsAreAccepted | apfsck/extents.c:583-640 | the two records of that tree, as updates of an older extent, are accepted too, and count its last block twice |
| NodeArea.MarkUsed | apfsck/btree.c:528-542 | bytes are marked as used, failing exactly when one already was |
| NodeArea.ParseFreeList | apfsck/btree.c:126-176 | the walk terminates; it accepts exactly when there is a list from the head to the end, with disjoint entries and a total that lasts up to the last one; that list is the only one, and the bitmap says which bytes are not in it |
| NodeArea.EntryBytes | apfsck/btree.c:152-153 | an entry of the list as its four bytes |
| NodeArea.CompareBmaps | apfsck/btree.c:554-585 | accepts exactly when no used byte is listed as free, and counts the unused bytes, with the partial last byte |
| NodeArea.CheckKeyArea | apfsck/btree.c:595-626 | a key area is accepted if and only if its free list is, the keys are inside and disjoint from each other and from the list, and the free total is the length less that of the keys |
| Allocation.Bitmap.MarkUsed | apfsck/spaceman.c:58-115 | a range is marked if and only if it is on the device and free |
| Extents.CutSame | apfsck/extents.c:131-175 | cutting an extent in two keeps the table disjoint and changes no block's count |
| Extents.Volume.FindWhole | apfsck/extents.c:112-128 | the search terminates, and finds the extent that covers a block if and only if it starts at or after the lower bound |
| Extents.Volume.GetSubextent | apfsck/extents.c:98-176 | succeeds exactly when that extent is found, with an extent that starts where asked and is no longer than asked; no count changes |
| Extents.Volume.SplitInside | apfsck/extents.c:155-175 | the reports about overlapping extents cannot happen |
| Extents.Volume.ChangeRefcnts | apfsck/extents.c:184-197 | terminates; succeeds exactly for covered ranges with older records at the right places; adds the difference modulo 2^32 to exactly the blocks of the range |
| Extents.NewStep | apfsck/extents.c:623-634 | a new extent on free blocks overlaps nothing and changes only its own blocks |
| Extents.DiskFields | apfsck/extents.c:583-618 | which records, as they are on disk, pass the checks of their fields |
| Extents.Volume.ParsePhysExt | apfsck/extents.c:583-640 | when a record is accepted, and what it does to counts, bitmap and block count |
| Extents.Volume.ParseRun | apfsck/extents.c:583-640 | after any run of records the table is disjoint and every block has the count that the run gives it; the extents of the new records are disjoint; the block count grew by the number of newly marked blocks |
| Extents.Volume.SplitForReferences | apfsck/extents.c:339-374 | splitting for logical extents terminates and changes no count; it succeeds exactly when all the blocks are covered and the extent of the first one starts close enough to be found |
| Omap.OmapTable.GetRecord | apfsck/btree.c:825-852 | the record for a transaction is found, or inserted where the order stays |
| Omap.OmapTable.AddRecord | apfsck/btree.c:899-911 | one record per id and transaction |
| Omap.OmapTable.GetLatest | apfsck/btree.c:862-876 | of all records up to a transaction, the most recent |
| Snapshots.VolumeCheck.ReadVirtual | apfsck/object.c:120-221 | exactly when a read through the object map succeeds, with the checks of the record, of the bitmap and of the header; a record already seen for another transaction marks and counts nothing, a new one marks and counts its own block |
| Snapshots.VolumeCheck.ReadPhysical | apfsck/object.c:146-221 | the same for physical objects, superblocks of snapshots being marked but not counted |
| Snapshots.ReadTwice | apfsck/object.c:125-140 | after a read, the same record cannot be read again in the same transaction; in a snapshot and in the latest transaction it can be read once each, in any order; queries change nothing |
| Snapshots.ReadNextSnapshot | apfsck/snapshot.c:87-125 | and it can be read again in the next snapshot |
| Snapshots.HeadersThatFit | apfsck/object.c:172-204 | a header fits from its own transaction on; an earlier one accepts it only in a snapshot |
| Snapshots.ReadsTheRecord | apfsck/object.c:172-204 | what a read gets is the object of the record, with its id and transaction |
| Snapshots.FirstSeen | apfsck/object.c:157-165 | no two records in use share a block |
| Snapshots.VolumeCheck.Enter | apfsck/snapshot.c:87-125 | a snapshot starts with its own count and transaction, with no record seen for it |
| Snapshots.VolumeCheck.Leave | apfsck/snapshot.c:129-133 | its count is added to that of the latest transaction |
| Snapshots.ClearSeenForSnap | apfsck/btree.c:799-815 | in the hash table of the object map, every record of every list has its flag cleared and nothing else changes |
| Snapshots.VolumeCheck.FreeOmapTable | apfsck/btree.c:746-793 | there is no report if and only if deleted records are not in use and all others are, except for leaked ones with a free block each; afterwards every record that is not deleted has a block of its own |
| Snapshots.VolumeCheck.Run | apfsck/super.c:1083-1178 | for any run without a report, the blocks newly marked number the recorded count plus the superblocks of the snapshots |
| Htable.Table.Exists | apfsck/htable.c:111-125 | membership in the map that the sorted lists stand for |
| Htable.Table.Get | apfsck/htable.c:77-104 | the map gains the key if it was missing |
| Htable.Table.Apply | apfsck/htable.c:53-67 | a function that may report is applied to every entry exactly once: there is no report if and only if it has none for any entry, and then the map has all the new values |
| SpacemanLayout.LayoutFits | mkapfs/spaceman.c:516-584 | for every device size that mkapfs accepts, the blocks it uses fit on the device, and the internal pool holds the chunk bitmaps, cibs and cabs |
| SpacemanLayout.LayoutIs | mkapfs/spaceman.c:516-560 | there is a layout if and only if the device needs no more than 1000 address blocks; each number in it is the least one that will do |
| SpacemanLayout.DescSteps | mkapfs/mkapfs.h:50-70 | the size of the checkpoint descriptor area for every device, step by step |
| SpacemanLayout.DataSteps | mkapfs/mkapfs.h:77-115 | the same for the data area |
| SpacemanLayout.DataStepsWithin | mkapfs/mkapfs.h:93-100 | between 1 and 4 GiB, where there are small steps within large ones |
| SpacemanLayout.MakeMainBitmap | mkapfs/spaceman.c:185-214 | the bitmap marks exactly the blocks in use |
| SpacemanLayout.MakeIpBitmap | mkapfs/spaceman.c:428-447 | the bitmap of the internal pool marks its first blocks, as many as there are chunk bitmaps, cibs and cabs |
| SpacemanLayout.RecordedCounts | mkapfs/spaceman.c:110-147 | the recorded counts are those of the bitmap for all chunks if and only if the pool starts in the first chunk (or right after it) and does not end together with a later one |
| SpacemanLayout.WrongCount | mkapfs/spaceman.c:145-146 | a device for which they are not |
| SpacemanWriter.Writer.MakeChunkInfo | mkapfs/spaceman.c:247-270 | chunk k, from its first block |
| SpacemanWriter.Writer.MakeCib | mkapfs/spaceman.c:281-300 | the chunks of cib j, up to the end of the device |
| SpacemanWriter.Writer.MakeCab | mkapfs/spaceman.c:311-337 | the cibs of cab j at their addresses |
| SpacemanWriter.Writer.MakeDevice | mkapfs/spaceman.c:344-374 | all cibs and cabs are written where the device structure says, with its totals |
| SpacemanChecker.TiledOnce | apfsck/spaceman.c:218-247 | in an accepted device each block is in exactly one chunk |
| SpacemanChecker.FreeIs | apfsck/spaceman.c:197-240 | a free count is right when with the ones of the bitmap it makes the number of blocks, in 32 bits |
| SpacemanChecker.DeviceChecker.ParseChunk | apfsck/spaceman.c:154-247 | exactly when a chunk is accepted, and that the tiling goes on |
| SpacemanChecker.DeviceChecker.ParseCib | apfsck/spaceman.c:259-309 | exactly when a chunk-info block is accepted: its header, its chunks one after the other with bitmaps of their own, and a transaction that is the most recent of theirs; and what it adds to the tiling and to the pool |
| SpacemanChecker.DeviceChecker.ParseCab | apfsck/spaceman.c:320-365 | the same for address blocks and the chunk-info blocks that they list |
| SpacemanChecker.DeviceChecker.ParseDevice | apfsck/spaceman.c:448-519 | exactly when a device is accepted, whatever is on the disk; and then it is tiled by its chunks, each with the free count of its bitmap, its totals are right, and each bitmap, cib and cab has a block of the pool to itself, inside of it |
| SpacemanMade.MadeCibOk | mkapfs/spaceman.c:281-300 | a chunk-info block of mkapfs, wherever the walk is, is accepted if and only if its recorded free counts are right |
| SpacemanMade.MadeDeviceOk | mkapfs/spaceman.c:344-374 | a device of mkapfs is accepted if and only if all recorded free counts are right, and then the walk has marked the first blocks of the pool and no others |
| SpacemanMade.RightIffFit | mkapfs/spaceman.c:265-266 | all recorded free counts are right if and only if the layout's counts fit |
| SpacemanMade.FormatAndCheck | mkapfs/spaceman.c:516-584 | for every device size: what mkapfs makes passes the walk of apfsck, and its bitmap of the internal pool is the one that the walk built (apfsck/spaceman.c:948), if and only if the layout's counts fit |
| IpRing.CheckFreeNext | apfsck/spaceman.c:758-788 | terminates on every array; accepts exactly the arrays with a proper list from head to tail; the number of used entries |
| IpRing.Distinct | apfsck/spaceman.c:769-778 | the free list visits no index twice |
| IpRing.RingPartition | apfsck/spaceman.c:834-872 | the free list and the blocks in use partition the ring |
| IpRing.ParseIpBitmapList | apfsck/spaceman.c:817-875 | accepts exactly the good rings, and then that partition holds |
| IpRing.MakeFreeNext | mkapfs/spaceman.c:453-469 | what is left in each entry |
| IpRing.MadeRing | mkapfs/spaceman.c:475-509 | what mkapfs makes is a good ring with exactly ip_bm_size blocks in use, if and only if the indices fit in the ring's limit |
| Unicode.WorksExactly | lib/unicode.c:283-392 | for every valid string the cursor gets to the end if and only if no single character's decomposition puts a starter after a non-starter; then it has returned the canonical ordering of the full decomposition, and otherwise it runs past the end of the string |
| Unicode.FinishedIsCanonical | lib/unicode.c:329-392 | the same from any character on: at the end, what was returned is the canonical ordering, and all characters were clean |
| Unicode.CleanFinishes | lib/unicode.c:329-392 | valid characters of that kind all the way get the cursor to the end |
| Unicode.IotaSubscript | lib/unicode.c:293-311 | a name with U+1F80 overruns when case is folded, because its iota subscript becomes a letter |
| Unicode.AsciiNames | lib/unicode.c:338-342 | with case folding two ASCII names come out the same if and only if they differ in the case of letters alone, and no capital letter comes out; without it a name comes back unchanged |
| Unicode.PieceShape | lib/unicode.c:283-313 | in a piece all starters come first, and the next piece starts with one |
| Unicode.PieceCanonical | lib/unicode.c:329-392 | a stable sort of a whole piece by class is what canonical ordering does to it |
| UnicodeOrder.CanonicalIff | lib/unicode.c:329-392 | the canonical ordering is the one rearrangement, character for character, in which starters stay in place, nothing moves past one, classes do not fall between two of them, and characters of one class keep their order |
| UnicodeOrder.EmittedOrdered | lib/unicode.c:329-392 | for clean strings that is what the cursor returns, each character as often as it was decomposed |
| UnicodeCursor.NextIs | lib/unicode.c:364-373 | the least character after the last one returned, by class and position, is the next of the stable sort |
| UnicodeCursor.Cursor.NormalizationLength | lib/unicode.c:283-313 | the length of the piece, which may end inside of a character, or zero for invalid UTF-8 |
| UnicodeCursor.Cursor.Scan | lib/unicode.c:349-391 | the scan finds that least character, and the end of the piece; it misses the end exactly when that is inside of a character |
| UnicodeCursor.Cursor.Measure | lib/unicode.c:344-348 | measuring a piece changes nothing of what is to come |
| UnicodeCursor.Cursor.InPiece | lib/unicode.c:350-391 | the next character of a piece, or on to the next piece |
| UnicodeCursor.Cursor.Next | lib/unicode.c:329-392 | returns the first of what is pending, which then lacks exactly that one; when nothing is left it returns zero, or runs past the end if it is in a piece that ends inside of a character |
| UnicodeCursor.NormalizeAll | apfsck/key.c:91-111 | a caller's loop collects all that, which is the canonical ordering when every character is clean |
| Compressed.CompressedFile.ReadBlock | apfsck/compress.c:191-285 | bytes of the file from one block, with or without the cache; reports exactly for a block that cannot be decoded or is too short |
| Compressed.CompressedFile.Read | apfsck/compress.c:287-303 | as many bytes as asked for, or up to the end of the file; reports if and only if a position in the range asked for is in a bad block |
| Compressed.CompressedFile.Length | apfsck/compress.c:287-303 | the call without a buffer terminates with the length of the rest of the file; reports if and only if there is a bad block from the offset on |
| Compressed.ContentsAt | apfsck/compress.c:191-285 | the bytes of the file are the decoded blocks one after the other, cut at the size in the header |
| Compressed.NeverReportsIff | apfsck/compress.c:262-277 | nothing is ever reported if and only if all the blocks that the size reaches are good |
| Compressed.Reads | apfsck/compress.c:287-303 | in any history of reads each one gives its slice of the contents, so the cache never changes an answer |
| Sha256.Context.Update | lib/sha256.c:354-376 | the context holds the message with the data appended |
| Sha256.Context.UpdateFast | lib/sha256.c:314-353 | the variant without copies does the same |
| Sha256.Context.Final | lib/sha256.c:384-397 | the blocks given to the compression function are those of the padded message |
| Sha256.Hash | lib/sha256.c:308-397 | however a message is split into updates |
| Sha256.PaddingIs | lib/sha256.c:389-394 | the bytes appended are the padding of section 5.1.1 of FIPS 180-4 |
| Sha256.PaddedEnds | lib/sha256.c:384-397 | a padded message is whole blocks, no more than needed; after the message comes a one bit, then zeroes, and the last eight bytes are the length in bits, most significant byte first |
| Sha256.BigEndianValue | lib/sha256.c:393-396 | the bytes of a number give back its value modulo a power of 256 |
| CheckpointRing.Checker.ParseMap | apfsck/super.c:1360-1397 | exactly when a mapping is accepted, and the next index |
| CheckpointRing.Checker.ParseBlocks | apfsck/super.c:1407-1471 | terminates; accepts exactly when the blocks from the index on are those of a checkpoint: sound, of one transaction, only the last one marked, with mappings that are accepted and end at data_next; and says how many they are and where the superblock is |
| CheckpointRing.MappingsTile | apfsck/super.c:1360-1397 | when data_len is less than data_blocks, accepted mappings do not overlap, cover exactly the blocks from data_index to data_next around the ring, and their counts add up to that distance |
| CheckpointRing.AcceptedIff | apfsck/super.c:1360-1397 | then mappings are accepted if and only if they are plain, for different objects, one after the other around the ring, and just as many blocks as data_len |
| CheckpointRing.WholeRingOverlaps | apfsck/super.c:1391-1396 | otherwise a block with two mappings that both take the whole ring is accepted, when the ring is within the 32 bits of a mapping's size |
| CheckpointRing.EmptyRing | apfsck/super.c:1451-1469 | and so is a block with no mappings, for any ring |
| CheckpointRing.TilesUnlessWhole | apfsck/super.c:1309-1315 | the mappings of all accepted checkpoints add up to data_len if and only if data_len is less than data_blocks |
| CheckpointRing.RemIsMod | apfsck/super.c:1396 | the remainder used for indices |
| Fletcher.Fletcher64 | lib/checksum.c:98-117 | the checksum of the two sums modulo 2^64, which for up to 92680 words are exact |
| Fletcher.NoWrap | lib/checksum.c:106-111 | no sum of up to 92680 words needs more than 64 bits |
| Fletcher.BoundIsTight | lib/checksum.c:106-111 | 92681 words can |
| Fletcher.ChecksumCancels | lib/checksum.c:111-116 | with the two halves of the checksum appended, the low one first, both sums are zero modulo 2^32 - 1 |
| Fletcher.ChangeShows | lib/checksum.c:98-117 | a change of one word leaves the checksum alone if and only if it swaps 0 and 0xFFFFFFFF |
| FormatNumbers.CodecNumbers | lib/libzbitmap.c:10-47 | the constants of the codec, and how they fit together |
| FormatNumbers.TreeNumbers | include/apfs/raw.h:244-259 | the types, kinds and sizes of records |
| FormatNumbers.ContainerNumbers | include/apfs/raw.h:788-789 | those of the space manager and of the checkpoint mappings |
| FormatNumbers.InflateNumbers | include/apfs/zlib_inflate/inftrees.h:33-47 | those of the decoding tables |
| FormatNumbers.Wraps | lib/checksum.c:98-117 | 64-bit numbers wrap around |

## Left out

- The call `zbm_decompress(NULL, ...)`, which only computes a length: it skips the checks that make the decoder terminate.
- In the codec, eight-byte loads and masks are eight bytes, use counts are kept by bitmap instead of by packed index, and the encoder's output is a growing sequence with the highest place of the cursor beside it; what lies in the destination after the end of the stream is not modelled.
- InfTrees.InflateTable: the table is a growing sequence rather than the caller's array; entries that the C code leaves uninitialised have an arbitrary value, a parameter. Code lengths above 15 and more symbols than the type allows are excluded, as inflate() does.
- InflateWindow.FastFromOutput: two-byte stores are two bytes; the byte before the buffer that is read but not used for distance 1 is a parameter.
- The bit reader and the header states of inflate(): only the raw mode is used, and the copy and table code is where the difficulty is.
- Btree.Checker.ParseTree: the flags, sizes and longest keys and values of the footer are one boolean.
- Snapshots.VolumeCheck.ReadVirtual: flags, reserved and unassigned ids, and the first transaction of the volume are one boolean of the header; chunk-info blocks, which are not part of a volume, are not read this way.
- CheckpointRing.WholeRingOverlaps: rings of 4 GiB and more need more mappings to go around twice.
- Sealed volumes (hashed nodes and their child ids), fusion drives and tier 2 devices: they add cases without harder properties.
- Queries for multiple records (node_next()): no caller asks for them.
- The value area of nodes: the end of a value is not checked by node_locate_data().
- The numbers of owners of extents (e_references): a split does not carry them over, so nothing is conserved.
- Extents.Volume.SplitForReferences: does not model the owner checks of the loop, only its splitting.
- Extents.Volume.ParseRun: acceptance of a whole run is one way; ParsePhysExt says exactly when each of its records is accepted.
- Bitmaps of blocks have one boolean per block; the 64-bit words of the C code are not modelled. Those of node areas are bytes, as in the source.
- The contents of records, inodes, directories, xattrs and crypto state: single checks without a deep property. Where they matter they are a boolean of the record.
- Snapshots.VolumeCheck.Run: acceptance is one way, each step having its own exact condition; the order in which trees are parsed is any sequence of events; that a leaked record becomes seen when it is freed stands for its block being marked.
- Unicode data tables and the decoding of UTF-8 are parameters; of the tables it is assumed that decompositions are not empty, that classes are below 0xFF and that ASCII stands for itself or its lower case. What is read after the end of a string, once the cursor runs past it, is not modelled.
- Sha256.Hash: the compression function and the output of its words are parameters or left out; messages are shorter than 2^61 bytes.
- Compressed.CompressedFile.ReadBlock: the decoders and the checks on a block's position are one parameter; an unknown algorithm is not modelled. Files that are compressed inline are a plain copy, and left out.
- CRC-32C, AES and XTS, volume labels, options, and everything that only moves bytes between files and memory.
