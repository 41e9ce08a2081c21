# libmaus2 core routines, modelled and proved in Dafny

This project models the central routines of libmaus2, a C++ library for
bioinformatics. It covers these parts:

- **Merge engine** (`ReadEndsBlockDecoderBaseCollection`). This engine treats the sorted
  blocks of many files as one ordered collection. It numbers the blocks file-major, counts the
  records below a key, and picks split keys with a binary search over the key space. It then
  cuts every block into one half-open range per worker: the instance variant scans exactly, and
  the static variant jumps to a sampled ordinal and scans forward. Finally, it merges the
  ranges with a priority queue and writes an index entry every `2^shift` records.
- **Number serialisation** (`NumberSerialisation`). Big-endian numbers of fixed and variable
  width, vectors and sets prefixed by a count, and the signed encoding: a flag byte followed by
  the magnitude.
- **FASTA index** (`FastAIndex`, `FastAIndexEntry`). It parses the `.fai` text, looks up
  sequences by short name, and reads a whole sequence or a range of one from a line-wrapped
  FASTA file. It also serialises and deserialises the index.
- **DNA index metadata** (`DNAIndexMetaDataBigBand`). It builds the prefix sums of the sequence
  lengths, finds the longest length, and maps a global coordinate to a sequence and an offset.
- **Buffered output** (`SynchronousGenericOutput`). A fixed-size buffer that is written to its
  stream whenever it fills.
- **Environment settings** (`StaticInitialization.cpp`). Parsers for two variables: the memory
  limit (a number with a unit), and the block-size override list (entries split at `:`, with
  `::` as an escaped colon).
- **Decoder factory** (`BamAlignmentDecoderFactory`). The CRAM range parser
  (`ref[:start[-end]]`), the list of valid input formats, and the decision table that picks a
  decoder or an error.
- **Gamma difference decoder** (`GammaDifferenceDecoder`). It reads the header and trailer,
  then runs the peek/decode state machine that turns gamma-coded gaps into increasing numbers.

Records, blocks and streams are values: a record is a `ReadEnds` with two hash keys and a tie
breaker, a block a strictly increasing `seq<ReadEnds>`, and a stream the `seq<byte>` it still
holds. Objects whose fields the source updates (the block collection, the FASTA index, the
output buffer, the gamma decoder) are classes whose methods are proved against specification
functions, and the properties the source promises are lemmas about those functions.

Files: `base.dfy` (bytes, `Option`, `Result`, 64-bit limits), `number_serialisation.dfy`,
`stream_number.dfy` (`istream >> uint64_t`), `name_map.dfy` (`std::map<std::string, uint64_t>`
as a sorted association list), `folds.dfy` (counted serialise/deserialise loops),
`fasta_index_entry.dfy`, `fasta_read.dfy` (line-wrapped reads), `fasta_index.dfy`,
`dna_index_meta.dfy`, `synchronous_output.dfy`, `static_init.dfy`, `bam_decoder_factory.dfy`,
`gamma_difference_decoder.dfy`, and for the merge engine `read_ends.dfy` (records, blocks, the
sparse index), `merge_intervals.dfy` (lower bound and the range table), `merge_spec.dfy` (merge
invariants), `block_collection.dfy` (the collection class) and `static_intervals.dfy` (the
static partitioning).

## Model

| member | source | states |
|---|---|---|
| ReadEndsBlocks.DecodeHash | src/libmaus2/bambam/ReadEndsBlockDecoderBaseCollection.hpp:197-209 | the record decoded from a hash has that hash as its key |
| ReadEndsBlocks.CountLessBoundary | src/libmaus2/bambam/ReadEndsBlockDecoderBaseCollection.hpp:181-195 | in a sorted block, the records below key h are exactly the first CountLess of them |
| ReadEndsBlocks.CountLessExact | src/libmaus2/bambam/ReadEndsBlockDecoderBaseCollection.hpp:552-576 | an index o with every record before it below h and the record at o not below h is the count |
| ReadEndsBlocks.CountLessMonotone | src/libmaus2/bambam/ReadEndsBlockDecoderBaseCollection.hpp:181-195 | the per-block count is monotone in the key |
| ReadEndsBlocks.CountAllMonotone | src/libmaus2/bambam/ReadEndsBlockDecoderBaseCollection.hpp:181-195 | the collection count is monotone in the key, so the lower-bound search is sound |
| ReadEndsBlocks.CountAllTop | src/libmaus2/bambam/ReadEndsBlockDecoderBaseCollection.hpp:216-224 | a key above every record counts every record |
| ReadEndsBlocks.SampleAt | src/libmaus2/bambam/ReadEndsBlockDecoderBaseCollection.hpp:541 | sample b of the sparse index is the record at ordinal `b << shift` |
| ReadEndsBlocks.SamplesSorted | src/libmaus2/bambam/ReadEndsBlockDecoderBaseCollection.hpp:535-541 | the samples of a sorted block are sorted |
| ReadEndsBlocks.FindLargestSmaller | src/libmaus2/bambam/ReadEndsBlockDecoderBaseCollection.hpp:535-541 | the block id is a sample of the block and D is that sample |
| ReadEndsBlocks.FindLargestSmallerIsLargest | src/libmaus2/bambam/ReadEndsBlockDecoderBaseCollection.hpp:535-541 | the chosen sample is below the key (unless it is sample 0) and every later sample is not |
| ReadEndsBlocks.ScanStart | src/libmaus2/bambam/ReadEndsBlockDecoderBaseCollection.hpp:535-560 | the scan starts at or before the exact boundary, at the record equal to the sample D |
| ReadEndsBlocks.FindLargestSmallerMonotone | src/libmaus2/bambam/ReadEndsBlockDecoderBaseCollection.hpp:382-390 | a larger key never gives an earlier sample |
| ReadEndsBlocks.IndexCountMonotone | src/libmaus2/bambam/ReadEndsBlockDecoderBaseCollection.hpp:382-390 | the index accessor's count, with the full sample lookup standing in for the cache-only one, is monotone in the key |
| ReadEndsBlocks.FlattenLength | src/libmaus2/bambam/ReadEndsBlockDecoderBaseCollection.hpp:145-151 | there are as many blocks as index offsets over all files |
| ReadEndsBlocks.FlattenAt | src/libmaus2/bambam/ReadEndsBlockDecoderBaseCollection.hpp:123-143 | block k of file f is block number (blocks of earlier files) + k |
| ReadEndsBlocks.FlattenSorted | src/libmaus2/bambam/ReadEndsBlockDecoderBaseCollection.hpp:123-143 | every block of the collection is sorted |
| ReadEndsBlocks.TotalSizeAppend | src/libmaus2/bambam/ReadEndsBlockDecoderBaseCollection.hpp:163-169 | the total size of two block lists is the sum of their sizes |
| MergeIntervals.FirstReaching | src/libmaus2/bambam/ReadEndsBlockDecoderBaseCollection.hpp:260 | the first key in [lo, hi) whose count reaches the target |
| MergeIntervals.FirstReachingUnique | src/libmaus2/bambam/ReadEndsBlockDecoderBaseCollection.hpp:260 | any key with that property is the one FirstReaching finds |
| MergeIntervals.FirstReachingMonotone | src/libmaus2/bambam/ReadEndsBlockDecoderBaseCollection.hpp:258-260 | a larger target never gives a smaller key |
| MergeIntervals.LowerBound | src/libmaus2/bambam/ReadEndsBlockDecoderBaseCollection.hpp:260 | `std::lower_bound` over the key space returns FirstReaching |
| MergeIntervals.SplitPointsOrdered | src/libmaus2/bambam/ReadEndsBlockDecoderBaseCollection.hpp:514-515 | non-decreasing targets give non-decreasing split keys, the first 0 when the first target is 0 |
| MergeIntervals.InstanceTargetsOrdered | src/libmaus2/bambam/ReadEndsBlockDecoderBaseCollection.hpp:254-260 | the targets `i * (total / numthreads)` are non-decreasing |
| MergeIntervals.IndexTargetsOrdered | src/libmaus2/bambam/ReadEndsBlockDecoderBaseCollection.hpp:489-500 | the static variant's targets are non-decreasing |
| MergeIntervals.IntervalsTile | src/libmaus2/bambam/ReadEndsBlockDecoderBaseCollection.hpp:268-274 | each worker's range ends where the next begins, the last ends at the block size, and each range lies inside its block |
| MergeIntervals.IntervalsMembership | src/libmaus2/bambam/ReadEndsBlockDecoderBaseCollection.hpp:276-308 | every record of worker i's range has a key in [split i, split i+1), and the last worker's keys are at least its split |
| MergeIntervals.IntervalsCover | src/libmaus2/bambam/ReadEndsBlockDecoderBaseCollection.hpp:268-274 | with a first split of 0, the ranges of each block add up to the whole block |
| MergeIntervals.Intervals | src/libmaus2/bambam/ReadEndsBlockDecoderBaseCollection.hpp:268-274 | one row per split key and one range per block in each row |
| MergeIntervals.ChainedIsIntervals | src/libmaus2/bambam/ReadEndsBlockDecoderBaseCollection.hpp:616-630 | starts that are exact counts, chained and closed at the block end, form the range table |
| MergeSpec.MinIndex | src/libmaus2/bambam/ReadEndsBlockDecoderBaseCollection.hpp:1190-1191 | the heap top holds a record no other entry is below |
| MergeSpec.StateEnd | src/libmaus2/bambam/ReadEndsBlockDecoderBaseCollection.hpp:1188-1204 | once the heap is empty the output holds exactly the records of all ranges |
| MergeSpec.IndexEntriesAt | src/libmaus2/bambam/ReadEndsBlockDecoderBaseCollection.hpp:1194-1195 | index entry k is written for output record k * 2^shift, and that record is the one it holds |
| MergeSpec.IndexEntriesAreSamples | src/libmaus2/bambam/ReadEndsBlockDecoderBaseCollection.hpp:1194-1195 | the index entries are the samples of the merged output |
| BlockCollection.ComputeNumBlocks | src/libmaus2/bambam/ReadEndsBlockDecoderBaseCollection.hpp:328-334 | the static block count is the number of index offsets over all files |
| BlockCollection.GetTotalEntries | src/libmaus2/bambam/ReadEndsBlockDecoderBaseCollection.hpp:314-326 | the sum of all block element counts |
| BlockCollection.ElementCountIsSize | src/libmaus2/bambam/ReadEndsBlockDecoderBaseCollection.hpp:314-326 | when the infos agree with their files, the declared counts add up to the collection's records |
| BlockCollection.CountSumIsSize | src/libmaus2/bambam/ReadEndsBlockDecoderBaseCollection.hpp:314-326 | counts that agree with the blocks add up to their records |
| BlockCollection.MaxLastIsMax | src/libmaus2/bambam/ReadEndsBlockDecoderBaseCollection.hpp:172-179 | the `max()` fold is no smaller than any block's last record and is either the default record or one of them |
| BlockCollection.UpperBoundAbove | src/libmaus2/bambam/ReadEndsBlockDecoderBaseCollection.hpp:216-224 | every record's key is below the key of `max()` plus one |
| BlockCollection.InstanceSplitsOrdered | src/libmaus2/bambam/ReadEndsBlockDecoderBaseCollection.hpp:257-266 | the instance split keys are non-decreasing and start at 0 |
| BlockCollection.ChainUpperBounds | src/libmaus2/bambam/ReadEndsBlockDecoderBaseCollection.hpp:268-270 | every range but the last row's ends at the next worker's start |
| BlockCollection.Collection.constructor | src/libmaus2/bambam/ReadEndsBlockDecoderBaseCollection.hpp:113-143 | the decoder slots are the blocks of all files, file-major |
| BlockCollection.Collection.CopyBlocks | src/libmaus2/bambam/ReadEndsBlockDecoderBaseCollection.hpp:128-141 | one file's blocks fill the next slots, advancing j by the file's block count |
| BlockCollection.Collection.TotalEntries | src/libmaus2/bambam/ReadEndsBlockDecoderBaseCollection.hpp:163-169 | the sum of the block sizes |
| BlockCollection.Collection.Max | src/libmaus2/bambam/ReadEndsBlockDecoderBaseCollection.hpp:172-179 | the fold of `std::max` over the last records of non-empty blocks |
| BlockCollection.Collection.CountSmallerThan | src/libmaus2/bambam/ReadEndsBlockDecoderBaseCollection.hpp:181-195 | the sum over blocks of the records below A's key |
| BlockCollection.Collection.CountSmallerThanHash | src/libmaus2/bambam/ReadEndsBlockDecoderBaseCollection.hpp:197-209 | the same count for a hash value |
| BlockCollection.Collection.HashUpperBound | src/libmaus2/bambam/ReadEndsBlockDecoderBaseCollection.hpp:216-224 | the key of `max()` plus one, above every record's key |
| BlockCollection.Collection.GetShortMergeIntervals | src/libmaus2/bambam/ReadEndsBlockDecoderBaseCollection.hpp:251-312 | the range table of the split keys found by lower bound, after the check |
| BlockCollection.Collection.CheckIntervals | src/libmaus2/bambam/ReadEndsBlockDecoderBaseCollection.hpp:276-308 | the check-mode asserts hold: every record of worker i's range has a key at least split i, and below split i+1 unless i is the last worker |
| BlockCollection.Collection.ComputeIntervals | src/libmaus2/bambam/ReadEndsBlockDecoderBaseCollection.hpp:251-274 | the split keys and the range table, without the check |
| BlockCollection.Collection.StartPoints | src/libmaus2/bambam/ReadEndsBlockDecoderBaseCollection.hpp:258-266 | split i is the lower bound of `i * targetfrac`, and each range start is the block's count below it |
| BlockCollection.Collection.EndLastRow | src/libmaus2/bambam/ReadEndsBlockDecoderBaseCollection.hpp:272-274 | the last worker's ranges end at the block sizes and nothing else changes |
| BlockCollection.Collection.Merge | src/libmaus2/bambam/ReadEndsBlockDecoderBaseCollection.hpp:1159-1211 | the output is a permutation of the ranges' records, as many as their widths, in ascending order, with index entries at every 2^shift-th record |
| BlockCollection.Collection.OpenRanges | src/libmaus2/bambam/ReadEndsBlockDecoderBaseCollection.hpp:1177-1184 | one heap entry per non-empty range, each range advanced past it |
| BlockCollection.Collection.PopAndRefill | src/libmaus2/bambam/ReadEndsBlockDecoderBaseCollection.hpp:1190-1203 | popping the top and refilling from its range keeps the merge invariant and shrinks what is left |
| StaticMergeIntervals.OffsetArray | src/libmaus2/bambam/ReadEndsBlockDecoderBaseCollection.hpp:431-433 | O[i] is the number of blocks of the files before file i |
| StaticMergeIntervals.TotalIndexEntries | src/libmaus2/bambam/ReadEndsBlockDecoderBaseCollection.hpp:344-350 | the number of index samples over all blocks |
| StaticMergeIntervals.IndexMaxKeyIsMax | src/libmaus2/bambam/ReadEndsBlockDecoderBaseCollection.hpp:367-380 | the index maximum is no smaller than any block's last sample and is 0 or one of them |
| StaticMergeIntervals.AccessorMax | src/libmaus2/bambam/ReadEndsBlockDecoderBaseCollection.hpp:367-380 | the accessor's `max()` has the largest key of the blocks' last samples |
| StaticMergeIntervals.IndexSplitsOrdered | src/libmaus2/bambam/ReadEndsBlockDecoderBaseCollection.hpp:514-515 | the static split keys are non-decreasing and start at 0 |
| StaticMergeIntervals.IndexSplitPoints | src/libmaus2/bambam/ReadEndsBlockDecoderBaseCollection.hpp:489-500 | the split keys are the lower bounds of the targets over the index count, with the full sample lookup standing in for the cache-only one |
| StaticMergeIntervals.ScanBoundary | src/libmaus2/bambam/ReadEndsBlockDecoderBaseCollection.hpp:535-576 | the jump to the sampled ordinal followed by the forward scan ends at the exact count below the split key |
| StaticMergeIntervals.CellFacts | src/libmaus2/bambam/ReadEndsBlockDecoderBaseCollection.hpp:579-580 | cell `i * numblocks + j` is in the array and no two (worker, block) pairs share one |
| StaticMergeIntervals.FillBlock | src/libmaus2/bambam/ReadEndsBlockDecoderBaseCollection.hpp:528-582 | one block's column of RR is filled with the exact boundaries and earlier columns are kept |
| StaticMergeIntervals.FillBoundaries | src/libmaus2/bambam/ReadEndsBlockDecoderBaseCollection.hpp:517-582 | starting from the sentinel, every cell of RR ends up holding its exact boundary |
| StaticMergeIntervals.OpenIndexes | src/libmaus2/bambam/ReadEndsBlockDecoderBaseCollection.hpp:464-473 | the opened index decoders are the blocks of all files, file-major |
| StaticMergeIntervals.OpenFileIndex | src/libmaus2/bambam/ReadEndsBlockDecoderBaseCollection.hpp:466-472 | opening file i's decoders extends the correct prefix by that file's blocks |
| StaticMergeIntervals.StartsFromCells | src/libmaus2/bambam/ReadEndsBlockDecoderBaseCollection.hpp:584-586 | each range start taken from RR is the block's count below the split key |
| StaticMergeIntervals.EndByFileCounts | src/libmaus2/bambam/ReadEndsBlockDecoderBaseCollection.hpp:620-630 | the last worker's ranges end at the block element counts and nothing else changes |
| StaticMergeIntervals.ExactRanges | src/libmaus2/bambam/ReadEndsBlockDecoderBaseCollection.hpp:517-630 | the sampled scan, chaining and closing give the exact range table of the split keys |
| StaticMergeIntervals.GetMergeIntervals | src/libmaus2/bambam/ReadEndsBlockDecoderBaseCollection.hpp:416-1157 | the static short and long variants return the range table of the index split keys, for the short or the long key |
| NumberSerialisation.EncodeByte | src/libmaus2/util/NumberSerialisation.hpp:48-62 | byte i of the k-byte encoding is `(n >> 8(k-1-i)) & 0xFF` |
| NumberSerialisation.ValueOfEncode | src/libmaus2/util/NumberSerialisation.hpp:48-62 | the k-byte encoding holds n modulo 256^k |
| NumberSerialisation.EncodeRoundTrip | src/libmaus2/util/NumberSerialisation.hpp:48-62 | a value below 256^k reads back from its k-byte encoding |
| NumberSerialisation.EncodeOfValue | src/libmaus2/util/NumberSerialisation.hpp:271-291 | re-encoding the value of k bytes gives the bytes back |
| NumberSerialisation.SerialiseNumberK | src/libmaus2/util/NumberSerialisation.hpp:48-97 | the k-byte variants append the k-byte encoding and return k |
| NumberSerialisation.SerialiseNumber | src/libmaus2/util/NumberSerialisation.hpp:100-121 | the 8-byte encoding is 8 bytes long |
| NumberSerialisation.SerialiseNumberBytes | src/libmaus2/util/NumberSerialisation.hpp:100-121 | the eight bytes are n's bytes, most significant first |
| NumberSerialisation.SerialiseNumber16 | src/libmaus2/util/NumberSerialisation.hpp:123-137 | the 2-byte encoding |
| NumberSerialisation.SerialiseNumber32 | src/libmaus2/util/NumberSerialisation.hpp:140-156 | the 4-byte encoding |
| NumberSerialisation.DeserialiseNumber | src/libmaus2/util/NumberSerialisation.hpp:342-382 | succeeds exactly when 8 bytes are left, consumes 8 and yields a 64-bit value |
| NumberSerialisation.DeserialiseNumberBytes | src/libmaus2/util/NumberSerialisation.hpp:342-382 | the value is the eight bytes shifted in, most significant first |
| NumberSerialisation.NumberRoundTrip | src/libmaus2/util/NumberSerialisation.hpp:342-382 | every 64-bit value reads back from its 8-byte encoding |
| NumberSerialisation.NumberDecodeEncode | src/libmaus2/util/NumberSerialisation.hpp:342-382 | any 8 bytes re-encode from the value they read as |
| NumberSerialisation.DeserialiseNumberCount | src/libmaus2/util/NumberSerialisation.hpp:443-447 | the counter grows by the bytes consumed |
| NumberSerialisation.NumberCountRoundTrip | src/libmaus2/util/NumberSerialisation.hpp:443-447 | a serialised number reads back with eight bytes counted |
| NumberSerialisation.DeserialiseNumber16 | src/libmaus2/util/NumberSerialisation.hpp:385-407 | succeeds exactly when 2 bytes are left and yields their big-endian value |
| NumberSerialisation.Number16RoundTrip | src/libmaus2/util/NumberSerialisation.hpp:385-407 | every 16-bit value reads back |
| NumberSerialisation.DeserialiseNumber32 | src/libmaus2/util/NumberSerialisation.hpp:410-438 | succeeds exactly when 4 bytes are left and yields their big-endian value |
| NumberSerialisation.Number32RoundTrip | src/libmaus2/util/NumberSerialisation.hpp:410-438 | every 32-bit value reads back |
| NumberSerialisation.DeserialiseNumberK | src/libmaus2/util/NumberSerialisation.hpp:271-339 | k bytes accumulate into a w-byte value: fails at end of input, else the value of the bytes modulo 256^w |
| NumberSerialisation.NumberKRoundTrip | src/libmaus2/util/NumberSerialisation.hpp:271-291 | a value below 256^k reads back from its k-byte encoding at any width w >= k |
| NumberSerialisation.EncodeElementsLength | src/libmaus2/util/NumberSerialisation.hpp:161-194 | the elements of a vector take width * count bytes |
| NumberSerialisation.SerialiseNumberVector | src/libmaus2/util/NumberSerialisation.hpp:161-267 | vectors, sets and deques append the count and the truncated elements and return the bytes written |
| NumberSerialisation.DecodeElementsLength | src/libmaus2/util/NumberSerialisation.hpp:450-483 | decoding count elements succeeds exactly when width * count bytes are left and consumes them |
| NumberSerialisation.DecodeElementsErr | src/libmaus2/util/NumberSerialisation.hpp:450-483 | once an element cannot be read the whole vector fails |
| NumberSerialisation.DeserialiseNumberVector | src/libmaus2/util/NumberSerialisation.hpp:450-483 | reads the count, then that many elements, failing at end of input |
| NumberSerialisation.ElementsRoundTrip | src/libmaus2/util/NumberSerialisation.hpp:450-483 | the encoded elements read back |
| NumberSerialisation.VectorRoundTrip | src/libmaus2/util/NumberSerialisation.hpp:450-483 | a serialised vector reads back |
| NumberSerialisation.DeserialiseNumberSet | src/libmaus2/util/NumberSerialisation.hpp:486-520 | succeeds exactly when the count and all elements can be read |
| NumberSerialisation.SetRoundTrip | src/libmaus2/util/NumberSerialisation.hpp:486-520 | a set serialised in increasing order reads back as that set |
| NumberSerialisation.MinBytesBounds | src/libmaus2/util/NumberSerialisation.hpp:595-605 | n fits in MinBytes(n) bytes and needs all of them |
| NumberSerialisation.MinBytesUnique | src/libmaus2/util/NumberSerialisation.hpp:595-605 | MinBytes is the only byte count with that property |
| NumberSerialisation.MinBytesAtMost8 | src/libmaus2/util/NumberSerialisation.hpp:595-605 | a 64-bit value needs at most 8 bytes |
| NumberSerialisation.CountBytes | src/libmaus2/util/NumberSerialisation.hpp:595-605 | the shifting loop returns the minimal byte count: 0 for 0, at most 8, n < 256^c |
| NumberSerialisation.SignedEncoding | src/libmaus2/util/NumberSerialisation.hpp:608-655 | a flag byte and MinBytes of the magnitude |
| NumberSerialisation.SignedEncodingShape | src/libmaus2/util/NumberSerialisation.hpp:608-655 | flag `0x80+b` then the magnitude for m >= 0, flag `8-b` then the b-byte complement for m < 0 |
| NumberSerialisation.SerialiseSignedNumber | src/libmaus2/util/NumberSerialisation.hpp:608-655 | appends the signed encoding and returns its length `1+b` |
| NumberSerialisation.AccumulateMagnitude | src/libmaus2/util/NumberSerialisation.hpp:674-680 | the shift-or loop accumulates the b magnitude bytes |
| NumberSerialisation.DeserialiseSignedNumber | src/libmaus2/util/NumberSerialisation.hpp:658-703 | returns the value of the signed decoding |
| NumberSerialisation.MagnitudeOfEncoding | src/libmaus2/util/NumberSerialisation.hpp:674-680 | the magnitude bytes written read back |
| NumberSerialisation.NonNegativeDecoding | src/libmaus2/util/NumberSerialisation.hpp:664-685 | a flag `0x80+b` decodes to the magnitude, consuming `1+b` bytes |
| NumberSerialisation.NegativeDecoding | src/libmaus2/util/NumberSerialisation.hpp:668-701 | a flag `8-b` decodes to minus the complement, consuming `1+b` bytes |
| NumberSerialisation.SignedRoundTrip | src/libmaus2/util/NumberSerialisation.hpp:608-703 | every value but INT64_MIN reads back from its signed encoding, consuming all of it |
| NumberSerialisation.DeserialiseSignedNumberCount | src/libmaus2/util/NumberSerialisation.hpp:706-753 | the value of the signed decoding, with the counter advanced by the bytes consumed |
| NumberSerialisation.RecodeSignedNumber | src/libmaus2/util/NumberSerialisation.hpp:755-761 | recoding a number gives the number back |
| StreamNumber.ExtractNumber | src/libmaus2/fastx/FastAIndex.hpp:132-134 | `istr >> n` yields a 64-bit value and consumes at least one byte |
| StreamNumber.ExtractDecimal | src/libmaus2/fastx/FastAIndex.hpp:132-134 | a decimal rendering followed by a non-digit reads back as the number |
| StreamNumber.ExtractNegated | src/libmaus2/fastx/FastAIndex.hpp:132-134 | after a minus sign it reads back negated modulo 2^64 |
| NameMap.Lookup | src/libmaus2/fastx/FastAIndex.hpp:109-110 | `find` succeeds exactly for a key in the map and yields its value |
| NameMap.LookupInsert | src/libmaus2/fastx/FastAIndex.hpp:160 | after `M[k] = v`, k maps to v and every other key is unchanged |
| NameMap.Insert | src/libmaus2/fastx/FastAIndex.hpp:160 | `M[k] = v` adds at most one pair |
| NameMap.InsertSorted | src/libmaus2/fastx/FastAIndex.hpp:52 | insertion keeps the keys in strictly increasing order |
| NameMap.InsertAllSorted | src/libmaus2/fastx/FastAIndex.hpp:66-73 | inserting pairs already in key order after a sorted map appends them |
| NameMap.LexTotal | src/libmaus2/fastx/FastAIndex.hpp:52 | the key order is total |
| FastAEntry.DefaultEntry | src/libmaus2/fastx/FastAIndexEntry.hpp:39-42 | the default constructor's entry: an empty name and every number 0; what it means for the codec is stated by `DefaultEntryRoundTrip` |
| FastAEntry.DefaultEntryRoundTrip | src/libmaus2/fastx/FastAIndexEntry.hpp:39-42 | a default entry serialises to 40 zero bytes and deserialises back to the default entry, leaving what follows |
| FastAEntry.SerialiseString | src/libmaus2/fastx/FastAIndexEntry.hpp:60 | an 8-byte length followed by the bytes |
| FastAEntry.StringRoundTrip | src/libmaus2/fastx/FastAIndexEntry.hpp:70 | a serialised string reads back |
| FastAEntry.DeserialiseString | src/libmaus2/fastx/FastAIndexEntry.hpp:70 | consumes the string and its 8-byte length |
| FastAEntry.SerialiseEntry | src/libmaus2/fastx/FastAIndexEntry.hpp:57-66 | the name's bytes plus 32 |
| FastAEntry.DeserialiseEntry | src/libmaus2/fastx/FastAIndexEntry.hpp:68-75 | consumes the name's bytes plus 40 |
| FastAEntry.EntryRoundTrip | src/libmaus2/fastx/FastAIndexEntry.hpp:57-75 | every entry reads back from its serialisation, leaving what follows |
| FastAEntry.DecodedFits | src/libmaus2/fastx/FastAIndexEntry.hpp:68-75 | every deserialised entry has 64-bit fields |
| Folds.WriteAll | src/libmaus2/fastx/FastAIndex.hpp:49-50 | the serialise loop appends the encodings of all elements |
| Folds.ReadAll | src/libmaus2/fastx/FastAIndex.hpp:64-65 | the deserialise loop reads n elements, failing at the first that cannot be read |
| Folds.DecodeEncodeCounted | src/libmaus2/fastx/FastAIndex.hpp:44-74 | a count followed by the elements reads back through any element codec that round-trips |
| FaiIndex.ShortName | src/libmaus2/fastx/FastAIndex.hpp:118-128 | the longest prefix without white space |
| FaiIndex.ShortNameUnique | src/libmaus2/fastx/FastAIndex.hpp:118-128 | any such prefix is the short name |
| FaiIndex.ShortNameIdempotent | src/libmaus2/fastx/FastAIndex.hpp:118-128 | the short name of a short name is itself |
| FaiIndex.ShortNameOfPlain | src/libmaus2/fastx/FastAIndex.hpp:118-128 | a name without white space is its own short name |
| FaiIndex.ComputeShortName | src/libmaus2/fastx/FastAIndex.hpp:118-128 | the scanning loop returns the short name |
| FaiIndex.ParseNumber | src/libmaus2/fastx/FastAIndex.hpp:130-145 | the token's 64-bit value or an error; which tokens fail is stated by `ParseNumberRejects` and which succeed by `ParseNumberDecimal` |
| FaiIndex.ParseNumberRejects | src/libmaus2/fastx/FastAIndex.hpp:130-145 | a blank token, a token starting with neither a digit nor a sign, a sign without a digit, and a decimal number beyond 2^64 - 1 all fail |
| FaiIndex.ParseNumberDecimal | src/libmaus2/fastx/FastAIndex.hpp:130-145 | a decimal number parses back |
| FaiIndex.SplitJoin | src/libmaus2/fastx/FastAIndex.hpp:156 | joining the tokens with tabs gives the line back |
| FaiIndex.ParseEntry | src/libmaus2/fastx/FastAIndex.hpp:162-170 | succeeds exactly when the four numbers parse, naming the entry by token 0 |
| FaiIndex.ParseTextOk | src/libmaus2/fastx/FastAIndex.hpp:147-174 | the text parses exactly when every line does |
| FaiIndex.ParseLineNames | src/libmaus2/fastx/FastAIndex.hpp:154-171 | a line with at least 5 tokens appends one entry and other lines none |
| FaiIndex.ParseTextNames | src/libmaus2/fastx/FastAIndex.hpp:147-174 | the entries are those of the qualifying lines, in order |
| FaiIndex.LastNamed | src/libmaus2/fastx/FastAIndex.hpp:160 | the last entry with the short name, or none |
| FaiIndex.ParseLineConsistent | src/libmaus2/fastx/FastAIndex.hpp:160-170 | each line keeps the map pointing at the last entry of each short name |
| FaiIndex.ParsedLookup | src/libmaus2/fastx/FastAIndex.hpp:160 | after parsing, a short name maps to its last entry, and later duplicates overwrite earlier ones |
| FaiIndex.ParsedFindsEntry | src/libmaus2/fastx/FastAIndex.hpp:160 | every entry's short name is found, at that entry or a later one with the same short name |
| FaiIndex.PairRoundTrip | src/libmaus2/fastx/FastAIndex.hpp:54-55 | a (key, value) pair reads back |
| FaiIndex.EntriesRoundTrip | src/libmaus2/fastx/FastAIndex.hpp:48-50 | the counted entries read back |
| FaiIndex.PairsRoundTrip | src/libmaus2/fastx/FastAIndex.hpp:51-73 | the counted pairs, in key order, rebuild the map |
| FaiIndex.StepsInsertAll | src/libmaus2/fastx/FastAIndex.hpp:66-73 | the deserialise loop's `M[k] = v` steps build the map of inserting all pairs |
| FaiIndex.IndexRoundTrip | src/libmaus2/fastx/FastAIndex.hpp:44-74 | deserialising a serialised index rebuilds equal sequences and map |
| FaiIndex.Lineskip | src/libmaus2/fastx/FastAIndex.hpp:196 | `bytesperline - basesperline`, or a skip past the file end when the difference is negative as int64 |
| FaiIndex.FastAIndex.constructor | src/libmaus2/fastx/FastAIndex.hpp:90-93 | no sequences and an empty map |
| FaiIndex.FastAIndex.GetSequenceIdByName | src/libmaus2/fastx/FastAIndex.hpp:105-116 | the id mapped to the query's short name, or an error exactly when it is absent |
| FaiIndex.FastAIndex.ReadSequence | src/libmaus2/fastx/FastAIndex.hpp:185-238 | an error for a bad id, else `length` bytes read line by line, failing exactly when the file ends too early |
| FaiIndex.FastAIndex.ReadSequenceRange | src/libmaus2/fastx/FastAIndex.hpp:240-337 | an error for a bad id or range, else `high-low` bytes from the seek position, failing exactly when the file ends too early |
| FaiIndex.FastAIndex.Serialise | src/libmaus2/fastx/FastAIndex.hpp:44-58 | the index encoding and its length |
| FaiIndex.FastAIndex.Deserialise | src/libmaus2/fastx/FastAIndex.hpp:60-74 | succeeds exactly when the input decodes, leaving the decoded sequences and map |
| FaiIndex.Parse | src/libmaus2/fastx/FastAIndex.hpp:147-174 | a new index holding the parsed table, or an error exactly when a number does not parse |
| FastALayout.LinePosClosedForm | src/libmaus2/fastx/FastAIndex.hpp:268 | base j lies `(j / bpl) * (bpl + skip) + j % bpl` bytes into the sequence |
| FastALayout.CopyLine | src/libmaus2/fastx/FastAIndex.hpp:210 | `in.read(cur, re)` copies re file bytes into the array and changes nothing else |
| FastALayout.ReadLine | src/libmaus2/fastx/FastAIndex.hpp:208-234 | one line: at most bpl bytes copied, then the terminator skipped, or a failure exactly when the file ends |
| FastALayout.SkipTerminator | src/libmaus2/fastx/FastAIndex.hpp:223-234 | the `ignore(lineskip)` step lands on the next line start, or fails only when the rest cannot be read |
| FastALayout.ReadLines | src/libmaus2/fastx/FastAIndex.hpp:206-235 | succeeds exactly when the last base lies inside the file, filling the array with the bases |
| FastALayout.ReadRange | src/libmaus2/fastx/FastAIndex.hpp:266-332 | reads from r0 bases into a line, succeeding exactly when the last base lies inside the file |
| FastALayout.ReadFromMidLine | src/libmaus2/fastx/FastAIndex.hpp:271-300 | the partial first line and then whole lines |
| FastALayout.ReadNextLines | src/libmaus2/fastx/FastAIndex.hpp:288-332 | after the partial first line, the remaining lines |
| FastALayout.RangeSpot | src/libmaus2/fastx/FastAIndex.hpp:268 | the seek position plus the range walk reaches the same byte as a walk from the sequence start |
| FastALayout.RangeIsSlice | src/libmaus2/fastx/FastAIndex.hpp:240-337 | a range read holds exactly the slice [low, high) of the whole sequence's read |
| FastALayout.SliceOfRange | src/libmaus2/fastx/FastAIndex.hpp:240-337 | bytes laid out from the range's seek position are the slice of the whole sequence |
| FastALayout.RangeOfSlice | src/libmaus2/fastx/FastAIndex.hpp:240-337 | and the slice is laid out from that seek position |
| DNAIndexMeta.Load | src/libmaus2/fastx/DNAIndexMetaDataBigBand.hpp:40-45 | succeeds exactly when the count and that many records are there, and keeps those records |
| DNAIndexMeta.Build | src/libmaus2/fastx/DNAIndexMetaDataBigBand.hpp:40-54 | the metadata holds the records, their prefix sums and their longest length |
| DNAIndexMeta.CopyLengths | src/libmaus2/fastx/DNAIndexMetaDataBigBand.hpp:46-48 | L has numseq+1 entries holding the lengths and a final 0 |
| DNAIndexMeta.PrefixSums | src/libmaus2/fastx/DNAIndexMetaDataBigBand.hpp:46-49 | L[i] is the sum of the lengths before sequence i |
| DNAIndexMeta.OffsetStep | src/libmaus2/fastx/DNAIndexMetaDataBigBand.hpp:49 | `L[i+1] == L[i] + l_i` |
| DNAIndexMeta.OffsetMonotone | src/libmaus2/fastx/DNAIndexMetaDataBigBand.hpp:49 | the prefix sums are non-decreasing |
| DNAIndexMeta.TotalAtLeastEach | src/libmaus2/fastx/DNAIndexMetaDataBigBand.hpp:71 | `L.back()` is at least every length |
| DNAIndexMeta.MaxLength | src/libmaus2/fastx/DNAIndexMetaDataBigBand.hpp:51-53 | at least every length, one of them, 0 when there are none |
| DNAIndexMeta.LongestLength | src/libmaus2/fastx/DNAIndexMetaDataBigBand.hpp:51-53 | the loop computes that maximum |
| DNAIndexMeta.FirstAtLeast | src/libmaus2/fastx/DNAIndexMetaDataBigBand.hpp:72 | `std::lower_bound`: the first entry not below i |
| DNAIndexMeta.MapCoordinates | src/libmaus2/fastx/DNAIndexMetaDataBigBand.hpp:69-89 | a sequence index and an offset with `L[s] + off == i` |
| DNAIndexMeta.MapCoordinatesCases | src/libmaus2/fastx/DNAIndexMetaDataBigBand.hpp:72-84 | on a prefix sum, offset 0 at the first sequence starting there; elsewhere an offset inside the sequence |
| DNAIndexMeta.IsValid | src/libmaus2/fastx/DNAIndexMetaDataBigBand.hpp:91-95 | valid(P, k) on the record's length; its meaning for the concatenated text is stated by `IsValidWindow` |
| DNAIndexMeta.IsValidWindow | src/libmaus2/fastx/DNAIndexMetaDataBigBand.hpp:91-95 | valid(P, k) holds exactly when the window of k coordinates from `L[s] + off` ends by the sequence's end `L[s + 1]`, and each coordinate of a valid window locates back to sequence s |
| DNAIndexMeta.ValidWindow | src/libmaus2/fastx/DNAIndexMetaDataBigBand.hpp:91-95 | for the located position, valid exactly when the window ends by the next sequence's start |
| DNAIndexMeta.MapCoordinatesEmptyRecord | src/libmaus2/fastx/DNAIndexMetaDataBigBand.hpp:77-78 | with an empty first sequence, position 0 maps into that empty sequence, where no window is valid |
| DNAIndexMeta.Locate | src/libmaus2/fastx/DNAIndexMetaDataBigBand.hpp:69-89 | the sequence that contains i, with `L[s] + off == i` and `off < l_s` |
| DNAIndexMeta.LocateAgrees | src/libmaus2/fastx/DNAIndexMetaDataBigBand.hpp:69-89 | without empty sequences, Locate and mapCoordinates agree |
| DNAIndexMeta.StrictlyIncreasing | src/libmaus2/fastx/DNAIndexMetaDataBigBand.hpp:49 | without empty sequences the prefix sums strictly increase |
| SyncOutput.WriteOut | src/libmaus2/aio/SynchronousGenericOutput.hpp:86-102 | on success the buffer is appended to the stream and emptied; on failure nothing is written; nothing is lost either way |
| SyncOutput.PutOneFull | src/libmaus2/aio/SynchronousGenericOutput.hpp:209-214 | after `put` the buffer is full only when the write-out just failed |
| SyncOutput.PutManyContents | src/libmaus2/aio/SynchronousGenericOutput.hpp:238-253 | the stream and buffer hold a prefix of everything put, all of it while the buffer is not full |
| SyncOutput.PutManyChunk | src/libmaus2/aio/SynchronousGenericOutput.hpp:241-252 | copying a chunk then writing out when full equals putting the chunk one by one |
| SyncOutput.PutsThenFlush | src/libmaus2/aio/SynchronousGenericOutput.hpp:114-124 | putting elements then flushing leaves the stream holding exactly them, when it has room |
| SyncOutput.PutManyStaysBelow | src/libmaus2/aio/SynchronousGenericOutput.hpp:238-253 | on a good stream the buffer is full only after a failed write-out |
| SyncOutput.PutManyFailed | src/libmaus2/aio/SynchronousGenericOutput.hpp:86-102 | a write fails only when the stream has no room for the elements |
| SyncOutput.SynchronousGenericOutput.constructor | src/libmaus2/aio/SynchronousGenericOutput.hpp:169-175 | an empty buffer of the given size over the stream |
| SyncOutput.SynchronousGenericOutput.WriteBuffer | src/libmaus2/aio/SynchronousGenericOutput.hpp:86-102 | the buffer's `pc-pa` elements are written out, counted and `pc` reset |
| SyncOutput.SynchronousGenericOutput.Flush | src/libmaus2/aio/SynchronousGenericOutput.hpp:188-202 | writes the buffer out, reporting a stream failure |
| SyncOutput.SynchronousGenericOutput.Put | src/libmaus2/aio/SynchronousGenericOutput.hpp:209-214 | stores c and writes the buffer out once it is full |
| SyncOutput.SynchronousGenericOutput.PutArray | src/libmaus2/aio/SynchronousGenericOutput.hpp:238-253 | the chunked copy loop equals n single puts |
| SyncOutput.SynchronousGenericOutput.CopyChunk | src/libmaus2/aio/SynchronousGenericOutput.hpp:243-247 | `std::copy` appends the chunk to the buffer |
| SyncOutput.SynchronousGenericOutput.GetWrittenWords | src/libmaus2/aio/SynchronousGenericOutput.hpp:219-222 | the number of elements in the stream and the buffer |
| SyncOutput.SynchronousGenericOutput.GetWrittenBytes | src/libmaus2/aio/SynchronousGenericOutput.hpp:227-230 | that number times the element size |
| StaticInit.UnitMultiplier | src/libmaus2/StaticInitialization.cpp:67-84 | a unit is a non-digit with a positive multiplier |
| StaticInit.UnitMultiplierPowers | src/libmaus2/StaticInitialization.cpp:67-84 | `k m g t p e` are 1024^1..1024^6, `K M G T P E` are 1000^1..1000^6, and no other byte is a unit |
| StaticInit.MaxMem | src/libmaus2/StaticInitialization.cpp:45-106 | a 64-bit limit when the setting parses |
| StaticInit.MaxMemDigits | src/libmaus2/StaticInitialization.cpp:57-63 | digits alone give their value modulo 2^64 |
| StaticInit.MaxMemUnit | src/libmaus2/StaticInitialization.cpp:65-91 | digits and a unit give the value times the multiplier modulo 2^64 |
| StaticInit.MaxMemAccepts | src/libmaus2/StaticInitialization.cpp:93-104 | the setting parses exactly when it is digits, optionally followed by one unit |
| StaticInit.WrapMulAdd | src/libmaus2/StaticInitialization.cpp:59-63 | reducing modulo 2^64 after every digit gives the value modulo 2^64 |
| StaticInit.ModMulReduce | src/libmaus2/StaticInitialization.cpp:88 | the unit product of the wrapped value is the product modulo 2^64 |
| StaticInit.GetMaxMem | src/libmaus2/StaticInitialization.cpp:45-106 | the loops compute MaxMem, the maximum when unset and an error when unparsable |
| StaticInit.PartEnd | src/libmaus2/StaticInitialization.cpp:255-273 | the end of a part lies within the string |
| StaticInit.PartEndStops | src/libmaus2/StaticInitialization.cpp:255-275 | a part ends at the string's end or at a `:` not followed by `:`, and it is properly escaped |
| StaticInit.UnescapeEscape | src/libmaus2/StaticInitialization.cpp:280-290 | unescaping an escaped text gives the text back |
| StaticInit.EscapeUnescape | src/libmaus2/StaticInitialization.cpp:280-290 | escaping an unescaped part gives the part back |
| StaticInit.PartEndEscape | src/libmaus2/StaticInitialization.cpp:255-273 | the scan passes over an escaped text |
| StaticInit.PartsJoinRoundTrip | src/libmaus2/StaticInitialization.cpp:253-291 | splitting joined escaped parts and unescaping them gives the parts back |
| StaticInit.PartsJoin | src/libmaus2/StaticInitialization.cpp:253-291 | the parts of joined escaped texts are those escaped texts |
| StaticInit.ParseValue | src/libmaus2/StaticInitialization.cpp:299-344 | a 64-bit value when the value parses |
| StaticInit.ParseValueDecimal | src/libmaus2/StaticInitialization.cpp:299-306 | a decimal number parses as itself |
| StaticInit.ParseValueUnit | src/libmaus2/StaticInitialization.cpp:309-333 | a number and a unit give the product modulo 2^64; a non-unit character gives none |
| StaticInit.ParseValueRejects | src/libmaus2/StaticInitialization.cpp:313-338 | a character after the unit rejects the value |
| StaticInit.ParseValueLongRest | src/libmaus2/StaticInitialization.cpp:313-338 | two or more characters after the number reject it |
| StaticInit.ApplyRendered | src/libmaus2/StaticInitialization.cpp:293-349 | a `key=value` part sets the key to the value |
| StaticInit.OverrideRendered | src/libmaus2/StaticInitialization.cpp:241-357 | the override string of any list of entries builds the map of inserting them in order |
| StaticInit.StepsRendered | src/libmaus2/StaticInitialization.cpp:251-353 | applying the escaped renderings of entries equals inserting them in order |
| StaticInit.InsertAllUntouched | src/libmaus2/StaticInitialization.cpp:346-349 | a key no entry names keeps its value |
| StaticInit.InsertAllLastWins | src/libmaus2/StaticInitialization.cpp:346-349 | a key gets the value of its last entry |
| StaticInit.PartsFromStep | src/libmaus2/StaticInitialization.cpp:253-277 | the scan from p cuts off one escaped part and resumes after its `:` |
| StaticInit.OverrideStep | src/libmaus2/StaticInitialization.cpp:253-352 | applying one part then the rest equals applying all parts from p |
| StaticInit.ScanPart | src/libmaus2/StaticInitialization.cpp:255-273 | the scanning loop stops at the part's end |
| StaticInit.CompactPart | src/libmaus2/StaticInitialization.cpp:280-291 | the in-place compaction unescapes the part |
| StaticInit.SetEntry | src/libmaus2/StaticInitialization.cpp:293-349 | a part with `=` and a positive value sets the key, any other part changes nothing |
| StaticInit.OverridePart | src/libmaus2/StaticInitialization.cpp:253-352 | one pass of the outer loop advances p and keeps the result of the remaining parts |
| StaticInit.GetPosixFdInputBlockSizeOverride | src/libmaus2/StaticInitialization.cpp:241-357 | the loops compute the override map, empty when unset |
| DecoderFactory.ValidInputFormatsSet | src/libmaus/bambam/BamAlignmentDecoderFactory.hpp:47-58 | `bam` always, `sam` and `cram` exactly when io_lib is present, and no other format; its iteration order is stated by `FormatListOrdered` |
| DecoderFactory.FormatListOrdered | src/libmaus/bambam/BamAlignmentDecoderFactory.hpp:47-58 | the format list is sorted, holds exactly the valid formats, and includes `bam` |
| DecoderFactory.SplitJoin | src/libmaus/bambam/BamAlignmentDecoderFactory.hpp:60-70 | splitting the comma join of comma-free names gives them back |
| DecoderFactory.GetValidInputFormats | src/libmaus/bambam/BamAlignmentDecoderFactory.hpp:60-70 | the loop joins the sorted formats with commas |
| DecoderFactory.ValidInputFormatsRoundTrip | src/libmaus/bambam/BamAlignmentDecoderFactory.hpp:60-70 | the joined list splits back into the formats, `bam` among them |
| DecoderFactory.ReadDecimal | src/libmaus/bambam/BamAlignmentDecoderFactory.hpp:144-157 | the digit loop gives the decimal value, or the error at the first non-digit |
| DecoderFactory.NewCramRange | src/libmaus/bambam/BamAlignmentDecoderFactory.hpp:102-174 | the constructor computes the range parse |
| DecoderFactory.NewCramRangeRest | src/libmaus/bambam/BamAlignmentDecoderFactory.hpp:113-172 | the part after the colon is parsed as a start or an interval |
| DecoderFactory.RangeRoundTrip | src/libmaus/bambam/BamAlignmentDecoderFactory.hpp:105-138 | `ref` gives (ref, 0, -1) and `ref:start` gives (ref, start, -1) |
| DecoderFactory.RangeIntervalRoundTrip | src/libmaus/bambam/BamAlignmentDecoderFactory.hpp:113-172 | `ref:start-end` gives (ref, start, end) and `ref:-` gives (ref, 0, 0) |
| DecoderFactory.IntervalRest | src/libmaus/bambam/BamAlignmentDecoderFactory.hpp:139-172 | `start-end` after the colon gives the interval |
| DecoderFactory.EmptyInterval | src/libmaus/bambam/BamAlignmentDecoderFactory.hpp:139-172 | empty start and end give 0 and 0 |
| DecoderFactory.RangeAccepted | src/libmaus/bambam/BamAlignmentDecoderFactory.hpp:113-172 | the rest parses exactly when it is digits, or digits, `-` and digits |
| DecoderFactory.Construct | src/libmaus/bambam/BamAlignmentDecoderFactory.hpp:177-385 | a decoder is built only for a valid format; it reads stdin exactly when the name says so, copies exactly when a copy stream is given, and takes a range only from a file and without parallel decoding |
| DecoderFactory.ConstructBamErrors | src/libmaus/bambam/BamAlignmentDecoderFactory.hpp:194-294 | for `bam`, an error exactly when a range comes with stdin or threads, or a copy stream with file input |
| DecoderFactory.ConstructBamKind | src/libmaus/bambam/BamAlignmentDecoderFactory.hpp:194-294 | otherwise the decoder is parallel iff threads > 1, reads stdin iff the name is empty or `-`, takes the range iff one is given, and copies iff asked |
| DecoderFactory.ConstructFormats | src/libmaus/bambam/BamAlignmentDecoderFactory.hpp:177-385 | the invalid-format error occurs exactly for formats outside the valid set |
| DecoderFactory.ConstructCopyOnlyBamStdin | src/libmaus/bambam/BamAlignmentDecoderFactory.hpp:177-385 | a copy stream is accepted only for `bam` on stdin |
| DecoderFactory.ConstructCramRange | src/libmaus/bambam/BamAlignmentDecoderFactory.hpp:328-376 | a CRAM file with a range naming a reference gets a ranged decoder |
| GammaDifference.NumberCastWords | src/libmaus2/gamma/GammaDifferenceDecoder.hpp:38-54 | the cast of a multi-word integer is an int64, its value for at most one word |
| GammaDifference.NumberCastTruncates | src/libmaus2/gamma/GammaDifferenceDecoder.hpp:38-54 | the cast keeps the low 64 bits, read as a signed number |
| GammaDifference.ReadHeader | src/libmaus2/gamma/GammaDifferenceDecoder.hpp:78-98 | succeeds exactly when the trailer and the header it points to are there |
| GammaDifference.HeaderRoundTrip | src/libmaus2/gamma/GammaDifferenceDecoder.hpp:78-87 | a file written as body, n, prim and the body's length yields (n, prim) |
| GammaDifference.TrailerIndexPos | src/libmaus2/gamma/GammaDifferenceDecoder.hpp:80-82 | the last eight bytes give the index position |
| GammaDifference.IndexPos | src/libmaus2/gamma/GammaDifferenceDecoder.hpp:80-82 | the trailer is a 64-bit position |
| GammaDifference.ReadHeaderAt | src/libmaus2/gamma/GammaDifferenceDecoder.hpp:82-87 | n and prim are read at the index position |
| GammaDifference.DecodeStep | src/libmaus2/gamma/GammaDifferenceDecoder.hpp:137-160 | a value exactly when one is pending, and then one fewer pending |
| GammaDifference.PeekStep | src/libmaus2/gamma/GammaDifferenceDecoder.hpp:111-124 | a value exactly when the slot is filled, which holds it, with nothing consumed |
| GammaDifference.PeekIdempotent | src/libmaus2/gamma/GammaDifferenceDecoder.hpp:111-124 | peeking twice equals peeking once |
| GammaDifference.DecodeAfterPeek | src/libmaus2/gamma/GammaDifferenceDecoder.hpp:111-160 | peek returns what decode would, and decode after a peek returns it and reaches the same state |
| GammaDifference.RunPrefixSums | src/libmaus2/gamma/GammaDifferenceDecoder.hpp:145-152 | the n decoded values are prev plus the prefix sums of the codes plus mindif per step |
| GammaDifference.FreshRun | src/libmaus2/gamma/GammaDifferenceDecoder.hpp:145-152 | from a fresh decoder exactly n values, starting from prim |
| GammaDifference.RunIncreasing | src/libmaus2/gamma/GammaDifferenceDecoder.hpp:145-152 | with mindif >= 1 the values strictly increase, all above prev |
| GammaDifference.FreshIncreasing | src/libmaus2/gamma/GammaDifferenceDecoder.hpp:145-152 | from a fresh decoder they strictly increase from prim |
| GammaDifference.PeekNumberEnd | src/libmaus2/gamma/GammaDifferenceDecoder.hpp:126-135 | `peek()` is -1 once exhausted, and only then when all values are non-negative |
| GammaDifference.PeekNumberAmbiguous | src/libmaus2/gamma/GammaDifferenceDecoder.hpp:126-135 | with a negative prim a pending value -1 reads like the end |
| GammaDifference.GammaDifferenceDecoder.constructor | src/libmaus2/gamma/GammaDifferenceDecoder.hpp:101-109 | a fresh decoder over the header and the codes |
| GammaDifference.GammaDifferenceDecoder.Decode | src/libmaus2/gamma/GammaDifferenceDecoder.hpp:137-160 | performs one decode step |
| GammaDifference.GammaDifferenceDecoder.Peek | src/libmaus2/gamma/GammaDifferenceDecoder.hpp:111-124 | performs one peek step |
| GammaDifference.GammaDifferenceDecoder.PeekValue | src/libmaus2/gamma/GammaDifferenceDecoder.hpp:126-135 | peeks and returns the cast value or -1 |
| GammaDifference.Open | src/libmaus2/gamma/GammaDifferenceDecoder.hpp:101-109 | a fresh decoder exactly when the header can be read |

## Left out

- Integer widths: positions, counters and sums held in `uint64_t` (block counts, entry totals,
  `datawrittentofile`, byte counts, prefix sums, FASTA offsets) are unbounded here. They do not
  wrap at 2^64. The wrap-around is modelled only where a value is computed from input: the
  memory limit, override values, `istream >> uint64_t`, the number codecs and `numberCast`.
- DecoderFactory.NewCramRange: `rangestart` and `rangeend` are unbounded integers, because
  the `int64_t` overflow of a very long digit string is undefined behaviour in the source.
- `putrank`, `reference` and the objects `construct` builds. Decoders are named by a
  `DecoderKind` value, because they are constructed from code that is not part of this model.
- io_lib is a parameter `ioLib` of the format list and of `construct`, not a compile-time switch.
- `getenv` becomes an `Option` parameter. `exit(EXIT_FAILURE)` and the exceptions thrown by the
  parsers and readers become `Err`. The `std::cerr` messages, OpenMP pragmas, timing and debug blocks are left out.
- `getPosixFdInputWarnThreshold`, `getPosixOutputStreamBufferWarnThreshold`, `serialiseDouble`,
  `deserialiseDouble` and the double vectors, because they are floating point. `formatNumber` is
  left out because it is iostream formatting.
- NumberSerialisation.SerialiseNumber: the serialisers' `if (!out) throw` after writing is not
  modelled. The output is a byte sequence that always accepts the bytes, so every serialiser,
  `SerialiseEntry`, `SerialiseNumberVector` and `FastAIndex.Serialise` among them, appends and
  cannot fail.
- NumberSerialisation.SerialiseNumberK: it writes 0 for every byte above the value's width. In
  the source, `serialiseNumber16` and `serialiseNumber32` with k above 4 shift a `uint16_t`
  promoted to `int`, or a `uint32_t`, by 32 bits or more, which is undefined behaviour.
- SyncOutput.SynchronousGenericOutput.Flush: the failure of the stream's own `W.flush()` is not
  modelled apart from the failure of the write. The stream is a sequence with a good flag, and
  only the write sets that flag.
- Deques are serialised like vectors (`SerialiseNumberVector`, `DeserialiseNumberVector`),
  because the byte layout is the same.
- NumberSerialisation.SerialiseSignedNumber: requires m > INT64_MIN, because the source's
  negation of INT64_MIN overflows.
- GammaDifference.Open: the bit stream that `GammaDecoder` reads becomes the sequence of
  decoded gamma codes, and the constructor requires at least n of them. The gamma coder is not
  part of this model.
- GammaDifference.DecodeStep: values are unbounded integers, not `data_type` and `int64_t`. The
  narrowing cast is stated separately (`NumberCastTruncates`).
- `decodeAbsolute` and `decodeWord`, because they only forward to the gamma decoder.
- GammaDifference.PeekNumberEnd: `peek()` returns -1 both at the end and for a pending value
  of -1, so the "end iff -1" direction is stated only for non-negative values
  (`PeekNumberAmbiguous` shows the other case).
- StaticInit.PartsJoinRoundTrip: the split/escape round trip requires parts that are non-empty
  and do not start with `:`. For other parts, the split of the joined string is ambiguous.
- SyncOutput.SynchronousGenericOutput.constructor: the stream is a sequence with a capacity and a
  good flag. Files, `truncate` and `seekp` are left out. The `writeArray` helper is stated by
  `PutsThenFlush`.
- FaiIndex.Lineskip: the `int64_t` cast of a negative `bytesperline - basesperline` becomes "skip
  past the end of the file", which makes the following `ignore` fail as in the source.
- FaiIndex.FastAIndex.ReadSequence: requires `bytesperline > 0` when `basesperline` is 0 and
  `length > 0`, because the source then loops forever without reading.
- FaiIndex.FastAIndex.ReadSequenceRange: requires `basesperline > 0` for a valid range, because
  the source divides by it.
- `tokenize` and `StringSerialisation` are not part of this model. Their stand-ins split a line
  at every tab and write a string as an 8-byte length followed by its bytes.
- `FastAIndex::load`, `loadSerialised` and `DNAIndexMetaDataBigBand::load`: streams are byte
  sequences, and opening files is left out.
- The `size()` and `operator[]` accessors, because they only read fields.
- Partial state after a thrown exception is not modelled. On `Err`, `FaiIndex.FastAIndex.Deserialise`
  leaves `sequences` empty where the source keeps the entries read before the failing one, and
  leaves `shortNameToId` empty where the source keeps the pairs read before the failing one.
  `NumberSerialisation.DeserialiseNumberCount` returns no counter on `Err`, where the source has
  already added 8 to it.
- StaticMergeIntervals.IndexSplitPoints: the count accessor calls `findLargestSmaller` in
  cache-only mode, and the model counts with the full lookup over the samples instead, because
  the index decoder and its cache are not part of this model. The coarser cached count, and so
  split keys that may differ from the source's, are not modelled. The boundary scan
  (`ScanBoundary`) uses the full lookup as the source does, so the ranges are still exact for
  the split keys chosen.
- ReadEndsBlocks.IndexCountMonotone: stated for the count with the full sample lookup, not for
  the cache-only count, for the same reason.
- The record codec, the hashes, the Snappy streams and the index generator are not part of this
  model. Records carry their keys as fields, a block is the sequence of its records, and the
  index is the sequence of (ordinal, record) entries. `ReadEnds::operator<`, which `max()` uses
  through `std::max`, is modelled as the collection's hash first and then a tie rank, so the
  model assumes the record order and the hash order agree.
- `baseIndexShift` is a parameter `shift` (the sample stride is 2^shift), because its value is
  not in the source shown.
- StaticMergeIntervals.OpenIndexes: the offset array O is passed along but not needed, because
  blocks are addressed through the flattened sequence.
- BlockCollection.Collection.GetShortMergeIntervals: requires `numthreads > 0`, because the
  source divides by it. In check mode it also requires the short ordering, because the source's
  asserts compare short hashes.

## Findings

| source | as written | input that shows it | evidently intended | confidence | as-written member | corrected member |
|---|---|---|---|---|---|---|
| src/libmaus2/fastx/DNAIndexMetaDataBigBand.hpp:69-89 | `lower_bound` picks the first sequence whose start equals i, even when that sequence is empty | lengths [0, 3] and i = 0: the result is (0, 0), inside the empty sequence 0, where no window is valid | the sequence that contains position i, here (1, 0) | medium, not executed | DNAIndexMeta.MapCoordinatesEmptyRecord | DNAIndexMeta.Locate |
