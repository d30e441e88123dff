# tdmsync in Dafny

tdmsync brings a local file up to date with a remote one. It downloads only
the blocks the local file does not already contain. The remote side publishes a
metadata file: the file size, the block size and one record per block
(offset, rolling checksum, SHA-1). The client slides a window over its local
file. It looks each window's checksum up among the remote blocks and confirms
matches by SHA-1. It then builds a plan: local segments to copy, and remote
segments to fetch with HTTP byte ranges. This project models that core, plus
the hashing it rests on and the fuzz harness's input generators, and proves
properties of the model.

Modules (one per file):

- `Common`: bytes, machine-integer bounds, the C++ truncating division and
  the conversion to a 32-bit `int`, `Result`/`Option`, powers of two and
  bit-wise XOR written arithmetically.
- `PolyHash`: `polyhash_compute` (Horner hash modulo 2^31-1, plus the
  negator `POLYHASH_NEGATOR` as a second result) and `polyhash_fast_update`.
- `BuzHash`: `buzhash_fast_update`. The table is an arbitrary map from bytes
  to 32-bit words. The reference window hash `BuzSum` stands in for
  `buzhash_compute`, whose body is not part of this model.
- `Metadata`: `FileInfo`/`BlockInfo` and their packed little-endian layout,
  `serialize` and `deserialize`.
- `Sorting`: `std::sort` as an ordered permutation.
- `Blocks`: `computeFromFile`, with the checksum and SHA-1 as parameters.
- `Segments`: `SegmentUse`, its `operator<`, and the merge, gap-fill and
  totals steps of `createUpdatePlan`.
- `Plan`: the rolling match loop of `createUpdatePlan` and the whole plan.
  The branchless binary search is `LowerBound`: the first index whose checksum
  is not below the digest.
- `Ranges`: the byte-range string, count, size and request mode built by
  `downloadMissingParts`, with a parser proving the string round-trips.
- `Download`: `startsWith`, the header, single-range and multi-range write
  callbacks, `findBoundary` and `processBuffer` over a `BufferSize + 1`
  buffer.
- `Phf`: `IntegerUhf`, and one attempt of `PerfectHashFunc::create`. That
  attempt covers sizing, the key graph, the breadth-first XOR labelling and
  the final check. The module also has `Create` over a finite list of random
  draws, and `PerfectHashFunc::evaluate`.
- `Fuzz`: `gen_base`, `mix_inputs`, `mutate_input`, `mutate_local`,
  `gen_input` and `gen_local`. Every random draw is an explicit parameter.

## Model

| member | source | states |
|---|---|---|
| PolyHash.Compute | polyhash.c:5-16 | The hash is below MODULO and equals the sum of data[i]·BASE^(len-1-i) reduced mod MODULO. The negator is below MODULO and cancels BASE^len mod MODULO. Empty input gives hash 0 and negator MODULO-1. |
| PolyHash.NegatorFor | polyhash.c:7-14 | The negator for length n is the residue below MODULO that cancels BASE^n. |
| PolyHash.NegatorDependsOnLengthOnly | polyhash.c:7-14 | Two negators of windows of the same length are equal, so the negator does not depend on the bytes hashed. |
| PolyHash.FastUpdate | polyhash.h:23-26 | The updated hash is below MODULO. |
| PolyHash.FastUpdateFitsUint64 | polyhash.h:24 | value·BASE + added + removed·NEGATOR fits in uint64 for every 32-bit value and negator and all bytes. |
| PolyHash.ConstantsAgree | polyhash.h:17-18 | MODULO is 2^31-1 and 0 < BASE < MODULO. |
| PolyHash.RollingWindow | polyhash.h:23-26 | Sliding a window of n bytes by one byte turns the hash of w[0..n) into the hash of w[1..n+1), given the negator of length n. |
| BuzHash.Rotl1 | buzhash.h:16 | `(v << 1) ^ (v >> 31)` is a 32-bit rotate-left by one. |
| BuzHash.FastUpdate | buzhash.h:15-19 | The update can be undone: knowing the added and removed bytes, xoring their entries out and rotating right by one gives back the previous value. |
| BuzHash.ShiftXorIsArithmeticRotation | buzhash.h:16 | The same expression equals doubling modulo 2^32 plus the carried-out top bit. |
| BuzHash.UpdateSameByteIsRotation | buzhash.h:15-19 | When the added and removed bytes are equal, the update is a pure rotation of the value. |
| BuzHash.UpdateSymmetric | buzhash.h:17 | The update is symmetric in the added and removed bytes. |
| BuzHash.RotlFullCircle | buzhash.h:12 | Rotating 32 times is the identity. |
| BuzHash.RotlMultipleOf32 | buzhash.h:12 | Rotating any multiple of 32 times is the identity. |
| BuzHash.RotlNDistributes | buzhash.h:16-18 | Rotation distributes over XOR. |
| BuzHash.RollingWindow | buzhash.h:15-19 | For windows whose length is a multiple of 32, the update turns the hash of w[0..n) into the hash of w[1..n+1). |
| Metadata.ConstantsAgree | tdmsync.h:27-34 | The header is 8+4+4 bytes. A packed BlockInfo record is 8+4+20 = 32 bytes. |
| Metadata.DecodeEncodeI64 | tdmsync.cpp:52-54 | Copying an int64 to 8 little-endian bytes and back gives the same value. |
| Metadata.DecodeEncodeI32 | tdmsync.cpp:56-62 | Copying an int32 to 4 little-endian bytes and back gives the same value. |
| Metadata.EncodeBlock | tdmsync.h:27-34 | A block record is exactly 32 bytes. |
| Metadata.DecodeEncodeBlock | tdmsync.h:27-34 | A record decodes back to the block it encodes (offset, chksum, hash). |
| Metadata.DecodeEncodeBlocks | tdmsync.cpp:64-65 | The packed record array decodes back to the block list. |
| Metadata.Serialize | tdmsync.cpp:44-70 | serialize succeeds exactly when 16 + 32·count is below INT_MAX/2. Its output is exactly that many bytes. |
| Metadata.SerializeLayout | tdmsync.cpp:52-66 | The bytes hold fileSize, then blockSize, then the block count, then the packed records. |
| Metadata.SerializeRecordAt | tdmsync.cpp:64-66 | Record i occupies bytes 16+32i to 16+32(i+1). |
| Metadata.Deserialize | tdmsync.cpp:72-98 | deserialize fails on data shorter than 16 bytes. On success the length is 16 + 32·count and the fields fit their C++ types. |
| Metadata.DeserializeSerialize | tdmsync.cpp:44-98 | deserialize(serialize(info)) restores the same fileSize, blockSize and block list. |
| Metadata.DeserializeRejectsMismatch | tdmsync.cpp:91-92 | deserialize fails when the length differs from 16 + 32·count. |
| Metadata.TruncatedRecordBytes | tdmsync.cpp:91 | `blocksCount * sizeof(BlockInfo)` stored in an int is a 32-bit value and a multiple of 32. |
| Metadata.DeserializeTruncationCounterexample | tdmsync.cpp:91-94 | A header whose count is 2^27, followed by no records, is accepted by the code as written and yields 2^27 blocks. The corrected deserialize refuses it. |
| Metadata.DeserializeAsWritten | tdmsync.cpp:72-98 | The code as written fails on data shorter than 16 bytes. On success the length is 16 plus 32·count taken modulo 2^32, every record past the copied bytes is all zeros, and the fields fit their C++ types. |
| Metadata.DeserializeAgreesBelowTruncation | tdmsync.cpp:91-94 | Below 2^26 blocks, the code as written and the corrected deserialize agree. |
| Sorting.Sort | tdmsync.cpp:127 | The sorted list is ordered and is a permutation of the input. |
| Sorting.SortKeepsElements | tdmsync.cpp:127 | Sorting neither adds nor drops an element. |
| Blocks.ChecksumLeIsTotalPreorder | tdmsync.cpp:101-103 | Ordering blocks by chksum is a strict weak order, as std::sort requires. |
| Blocks.BlocksInFileOrder | tdmsync.cpp:112-125 | The loop body gives one block per index below ceil(fileSize/blockSize), the true count; computeFromFile keeps the first `int blockCount` of them. |
| Blocks.BlocksInFileOrderOffsets | tdmsync.cpp:115-118 | Block i starts at i·blockSize, except the last block, which starts at fileSize - blockSize. |
| Blocks.OffsetInRange | tdmsync.cpp:116-117 | Every offset satisfies 0 <= offset and offset + blockSize <= fileSize. |
| Blocks.BlockCountIsCeiling | tdmsync.cpp:112 | The block count n is the least n with n·blockSize >= fileSize. |
| Blocks.CutCount | tdmsync.cpp:112 | `int blockCount` is a 32-bit value. For a positive block size it never exceeds ceil(fileSize/blockSize), and equals it exactly when that count is below 2^31. |
| Blocks.ComputeFromFile | tdmsync.cpp:104-128 | A file shorter than a block gives no blocks. Otherwise the call succeeds exactly when the int count is 0, or positive with a positive block size that is a multiple of 32, which checksumCompute asserts. A negative count makes `reserve` throw. On success it gives `blockCount` blocks, sorted by chksum, forming a permutation of the first `blockCount` blocks in file order. |
| Blocks.ComputeFromFileFits | tdmsync.cpp:109-127 | While ceil(fileSize/blockSize) is below 2^31, a positive block size succeeds exactly when it is a multiple of 32, and the result is a sorted permutation of all the blocks in file order. |
| Blocks.ComputeFromFileCountOverflows | tdmsync.cpp:112-113 | A 2^36-byte file with 32-byte blocks has 2^31 blocks. The int count wraps to -2^31, so `reserve` throws. |
| Blocks.ComputeFromFileCountWraps | tdmsync.cpp:112-125 | A (2^37 + 32)-byte file with 32-byte blocks has 2^32 + 1 blocks. The int count wraps to 1, so one block at offset 0 describes the whole file. |
| Blocks.ComputeFromFileNegativeSize | tdmsync.cpp:109-121 | For a negative block size (`atoi` accepts one) and a file under 2 GiB, the call succeeds exactly when the file has at least 2 and fewer than 1 - 2·blockSize bytes, and then yields no blocks. Otherwise `reserve` throws, or a 0- or 1-byte file reaches checksumCompute and fails. |
| Blocks.NegativeSizeCount | tdmsync.cpp:112 | With a negative block size, the truncating C++ quotient is 0 exactly for files of 2 up to 1 - 2·blockSize bytes. It is positive for files of at most 1 byte. |
| Blocks.ComputeFromFileBlocksMatch | tdmsync.cpp:119-122 | Any block returned comes from a positive block size, and its checksum and hash are those of the blockSize bytes at its offset. |
| Blocks.ComputeFromFileCoversFile | tdmsync.cpp:112-118 | For a block size that is a multiple of 32 and a block count that fits in an int, computeFromFile succeeds and every byte of the file lies in some block. |
| Segments.SegLessIsStrictWeakOrder | tdmsync.cpp:130-134 | SegmentUse's operator< (remote first, then by dstOffset) is irreflexive and transitive. Its complement is a total preorder. |
| Segments.SortedLocalByDst | tdmsync.cpp:130-134 | Sorted local segments are in dstOffset order. |
| Segments.Merge | tdmsync.cpp:184-197 | Merging never lengthens the list. It leaves it empty exactly when it was empty. |
| Segments.MergeSizes | tdmsync.cpp:188-195 | Merging preserves the total of the sizes. |
| Segments.MergeMaximal | tdmsync.cpp:191-194 | After merging, no two neighbours are contiguous in both dst and src. |
| Segments.MergeMaps | tdmsync.cpp:191-192 | Merging joins only segments contiguous in both dst and src. The merged list maps exactly the same dst bytes to the same src bytes. |
| Segments.MergeLocal | tdmsync.cpp:184-197 | Merged local segments still read inside the local file. |
| Segments.MergeOrder | tdmsync.cpp:184-197 | Merging keeps the segments in dst order. |
| Segments.FindGaps | tdmsync.cpp:199-212 | The gap segments are remote, have size > 0 and src == dst, and come in increasing dst order. Each one is exactly the stretch between two consecutive local segments, or before the first, or after the last up to fileSize. Locals and gaps together cover [0, fileSize). |
| Segments.GapFill | tdmsync.cpp:199-212 | The local segments are kept as a prefix and the gaps are appended. Every position of [0, fileSize) is covered. |
| Segments.GapsAvoidLocals | tdmsync.cpp:199-212 | No gap overlaps a local segment. |
| Segments.GapsInsideFile | tdmsync.cpp:199-212 | Every gap lies inside [0, fileSize). |
| Segments.Totals | tdmsync.cpp:214-218 | bytesLocal is the sum of the sizes of the local segments. bytesRemote is the sum for the remote ones. Together they add up to the sum of all sizes. |
| Plan.RolledIsWindowChecksum | tdmsync.cpp:147-180 | When the update is a rolling form of the checksum, the value carried to each offset equals the checksum computed afresh on the window there. |
| Plan.LowerBound | tdmsync.cpp:153 | The lookup returns the first index whose checksum is not below the digest. |
| Plan.EqualRange | tdmsync.cpp:153-156 | On a sorted list, [left, right) holds exactly the blocks whose checksum equals the digest. |
| Plan.ChecksumsSorted | tdmsync.cpp:140-143 | The is_sorted check holds exactly when the blocks are sorted by chksum. |
| Plan.Claim | tdmsync.cpp:158-177 | Every not-yet-found block in the range whose hash matches the window is marked found and gets one local segment. Found blocks stay found. |
| Plan.ScanOffset | tdmsync.cpp:150-180 | One offset of the loop keeps the bookkeeping invariants. Afterwards every block matching at an offset up to this one is found. |
| Plan.MatchBlocks | tdmsync.cpp:139-182 | Each remote block index yields at most one local segment. That segment has size blockSize, reads inside the local file and is placed at the block's offset. Every block that matches anywhere is found. The segments come in increasing src order. |
| Plan.MatchedCount | tdmsync.cpp:159-169 | The number of local segments equals the number of remote blocks found in the local file. |
| Plan.PlanFromMatches | tdmsync.cpp:184-218 | Sorting, merging, gap-filling and totalling give these properties: locals first, then gaps; [0, fileSize) is covered; the totals are right; bytesLocal = blockSize × (blocks found); every found block is covered locally; every local byte is copied from a matching window. |
| Plan.CreateUpdatePlan | tdmsync.cpp:135-221 | A negative block size always fails: the sort assert, the `(len & 31)` assert, or a read far past the file. A local file shorter than a positive block yields a plan. Otherwise the call succeeds exactly when the blocks are sorted by chksum and blockSize is a multiple of 32. On success the plan has every property listed for PlanFromMatches. |
| Ranges.DecimalNat | tdmsync_curl.cpp:89 | `%lld` of a non-negative number is a non-empty string of digits. |
| Ranges.ParseDecimal | tdmsync_curl.cpp:89 | Reading the printed digits back gives the number. |
| Ranges.SplitJoin | tdmsync_curl.cpp:90-92 | Joining comma-free items with ',' (no leading or trailing comma) and splitting again gives the items. |
| Ranges.RemotesAreRemote | tdmsync_curl.cpp:87 | Only remote segments of the plan contribute items. |
| Ranges.ItemRoundTrip | tdmsync_curl.cpp:89 | The item of a segment parses back to the interval [dstOffset, dstOffset+size-1]. |
| Ranges.ItemsRoundTrip | tdmsync_curl.cpp:84-96 | The items, in plan order, parse back to the remote intervals. |
| Ranges.RangesRoundTrip | tdmsync_curl.cpp:84-96 | The Range string parses back to exactly the remote segments' intervals, one per remote segment, in plan order. |
| Ranges.PrepareRequest | tdmsync_curl.cpp:84-105 | Succeeds exactly when the remote sizes add up to bytesRemote. The ranges string is the joined items. totalCount is the number of remote segments and totalSize their total size. Zero remotes means no request, one a single-range request, more a multi-range request. |
| Download.StartsWith | tdmsync_curl.cpp:49-54 | A hit returns the position just past the prefix. |
| Download.StartsWithIsPrefix | tdmsync_curl.cpp:49-54 | startsWith hits exactly when the line begins with the prefix. |
| Download.StrNEqualFrom | tdmsync_curl.cpp:51 | strncmp against a NUL-free prefix is agreement on every prefix character. |
| Download.HeaderWriteCallback | tdmsync_curl.cpp:55-71 | The header line is appended. isHttp and acceptRanges only ever turn on, and turn on exactly on their prefixes. The boundary changes only on the multipart prefix and then starts with "\r\n--". All bytes are acknowledged. |
| Download.HeaderBoundary | tdmsync_curl.cpp:64-68 | For `Content-Type: multipart/byteranges; boundary=` + token + CRLF, the boundary becomes "\r\n--" + token. |
| Download.SingleWriteCallback | tdmsync_curl.cpp:126-135 | Nothing is accepted unless isHttp and acceptRanges. Only the output and writtenSize change. writtenSize <= totalSize is kept. |
| Download.SingleWriteKeepsBound | tdmsync_curl.cpp:126-135 | A chunk is accepted exactly when it keeps writtenSize within totalSize. Then it is appended to the output, and otherwise nothing is written. |
| Download.FindBoundary | tdmsync_curl.cpp:207-213 | The result is -1 or an index in [from, to) where the boundary occurs. |
| Download.FindBoundaryFirst | tdmsync_curl.cpp:207-213 | With a boundary of at least 5 characters, the result is -1 exactly when the boundary occurs nowhere in [from, to). Otherwise it is the least such index, so the `ptr[i+4]` pre-test changes nothing. |
| Download.FindBoundaryFirstAt | tdmsync_curl.cpp:207-213 | The first occurrence in [from, to) is what findBoundary returns. |
| Download.StrStr | tdmsync_curl.cpp:195 | A hit of strstr is an occurrence of the pattern at or after pos, before the terminating NUL. |
| Download.StrStrAt | tdmsync_curl.cpp:195 | The first occurrence before any NUL is what strstr returns. |
| Download.StrStrNone | tdmsync_curl.cpp:195-197 | With no occurrence before the NUL, strstr returns null. |
| Download.WriteSpan | tdmsync_curl.cpp:183 | Writing a span only touches the output and its size. A non-negative span inside the buffer never fails and keeps writtenSize <= totalSize. |
| Download.WriteSpanAppends | tdmsync_curl.cpp:183 | A span that fits in totalSize is appended to the output as it stands in the buffer. |
| Download.WriteSpanNegative | tdmsync_curl.cpp:181-184 | When until < pos, `until - pos` wraps to a huge size_t, and once writtenSize >= pos - until the 64-bit guard lets it through: the write reads past the buffer. |
| Download.Terminated | tdmsync_curl.cpp:174 | The buffer with a NUL stored at bufferAvail. |
| Download.Consume | tdmsync_curl.cpp:201-203 | Dropping pos bytes leaves bufferAvail - pos bytes. Nothing but the buffer changes. |
| Download.ConsumeMoves | tdmsync_curl.cpp:202 | The remaining bytes move to the start of the buffer. |
| Download.ScanParts | tdmsync_curl.cpp:177-199 | The part loop only writes output and stops inside the data. In the corrected form it never moves back, and it keeps writtenSize <= totalSize. |
| Download.ProcessBufferWith | tdmsync_curl.cpp:173-206 | processBuffer, with the write selected: it only appends to the output. When it returns false, bufferAvail is unchanged; when it returns true, it has not grown. The guarded write never fails. |
| Download.AfterBoundary | tdmsync_curl.cpp:188-198 | After a boundary, the loop only writes output and stops inside the data. The guarded form never fails and never moves back before the boundary's end. Without flushing, a loop that goes on to succeed stops at or after `end`. |
| Download.ProcessBuffer | tdmsync_curl.cpp:173-206 | The corrected processBuffer never reads outside the buffer. It only appends to the output and keeps writtenSize <= totalSize. When it returns false, bufferAvail is unchanged. When it returns true without flushing, at most TailSize bytes stay buffered. |
| Download.ProcessBufferAsWritten | tdmsync_curl.cpp:173-206 | The code as written only appends to the output when it does not fail. |
| Download.ProcessBufferPlainData | tdmsync_curl.cpp:179-186 | With no boundary before end, the bytes up to end are written, and the rest moves to the start of the buffer. |
| Download.ProcessBufferPrematureEnd | tdmsync_curl.cpp:189-191 | A first boundary followed by "--" makes processBuffer(false) fail, both as written and corrected. |
| Download.ProcessBufferHeaderMissing | tdmsync_curl.cpp:195-197 | A part header with no "\r\n\r\n" before the end of the data makes processBuffer fail, both as written and corrected. |
| Download.ProcessBufferNegativeWrite | tdmsync_curl.cpp:179-184 | A concrete 16 KiB buffer where a part header ends past end: the code as written fails with an out-of-buffer write, while the corrected one writes the first part and keeps 1010 bytes. |
| Download.Append | tdmsync_curl.cpp:162-166 | Copying bytes in extends the buffered data by exactly those bytes. |
| Download.MultiWriteCallback | tdmsync_curl.cpp:157-172 | Nothing is accepted unless isHttp, acceptRanges and a boundary are set. The result is all bytes or none. bufferAvail stays below BufferSize on success, and a refusal leaves a full buffer. processBuffer runs only when the buffer fills, so a chunk that fits is buffered without writing. It calls the corrected processBuffer (Download.ProcessBuffer), not the code as written. |
| Phf.CreateUhf | phf.h:20-24 | logSize is clamped to at least 1 and shift = 64 - logSize. |
| Phf.UhfEvaluateIsQuotient | phf.h:25-27 | evaluate is the 64-bit wrapped product divided by 2^shift, rounded down. |
| Phf.ShrIsQuotient | phf.h:26 | Shifting right by s bits is the quotient by 2^s. |
| Phf.UhfInRange | phf.h:25-27 | `(mult * key) >> shift`, on 64-bit words, is below 2^logSize, a valid cell index. |
| Phf.ComputeLogSize | phf.h:49-51 | logSize is the least value >= 1 with 2^logSize >= 3·num. |
| Phf.LogSizeIsLeast | phf.h:49-51 | No smaller logSize >= 1 satisfies 2^logSize >= 3·num. |
| Phf.LogSizeBound | phf.h:48-53 | For fewer than 2^32 keys, logSize <= 34, so the cell count fits in 64 bits. |
| Phf.EdgesSound | phf.h:74-85 | Every edge in a cell's list comes from a key that is not a duplicate of its predecessor. It joins that key's two hash cells and is labelled with the key's index. |
| Phf.EdgeOfKey | phf.h:74-85 | Every non-duplicate key i adds edge (f1(key), i) to f0(key)'s list and (f0(key), i) to f1(key)'s list. |
| Phf.BuildGraph | phf.h:66-85 | The edge lists are exactly those edges. The status array is IGNORED exactly at the positions i of duplicate keys, as the code writes it (indexed by key index), and UNSEEN elsewhere. |
| Phf.ListsAreGraph | phf.h:81-84 | Every edge's end and label are in range for the labelling. |
| Phf.XorRestores | phf.h:103 | Setting data[v] = value ^ data[u] makes data[u] ^ data[v] == value. |
| Phf.Reach | phf.h:101-106 | An UNSEEN end is labelled so that its edge holds, marked VISITED and queued. No other cell's status or label changes, and a far end that is not UNSEEN leaves everything as it was. |
| Phf.ScanEdges | phf.h:99-109 | Scanning a cell's edges changes data only at cells that were UNSEEN. VISITED is never undone and IGNORED never changes. ok means every edge of the cell holds. !ok exhibits a failing edge. |
| Phf.Label | phf.h:87-111 | Each cell is marked VISITED at most once, and data is assigned only to UNSEEN cells. On ok no cell is left UNSEEN and every edge of a VISITED cell satisfies data[u] ^ data[v] == value. On !ok some edge fails. |
| Phf.LabelOutcome | phf.h:98-110 | ok holds exactly when every edge out of a non-IGNORED cell is consistent. |
| Phf.Evaluate | phf.h:41-46 | A key whose two hash cells coincide evaluates to 0, whatever the labels. |
| Phf.EvaluateSymmetric | phf.h:41-46 | Swapping the two hash functions changes no value. |
| Phf.ConsistentLabelsEvaluate | phf.h:41-46 | If every edge is consistent, evaluate(keys[i]) == i for every non-duplicate key. |
| Phf.FinalCheck | phf.h:113-121 | The check passes exactly when every key whose status is not IGNORED evaluates to its index. Otherwise it names the first one that does not. |
| Phf.CreateAttemptAsWritten | phf.h:58-121 | One attempt as the code writes it. It retries exactly when an edge out of a non-duplicate cell is inconsistent. It builds exactly when it does not retry and every non-duplicate key evaluates to its index. It throws, naming the first bad key, otherwise. |
| Phf.CreateAttempt | phf.h:58-121 | One attempt with the duplicate marks kept apart from the cell states. It never throws. It retries exactly when some edge is inconsistent. A built function maps every non-duplicate key to its index. |
| Phf.Create | phf.h:48-124 | A returned function maps every non-duplicate key to its index, has the least logSize, and uses the two hash functions of one of the draws. Without draws nothing is returned. Each draw runs the corrected attempt (Phf.CreateAttempt), so no draw ends in the exception of phf.h:118. |
| Phf.AliasedSelfLoopThrows | phf.h:76-78 | For keys {5, 5, 7}, the attempt as written throws for index 2 (evaluate gives 0, key 7). |
| Phf.SelfLoopRetries | phf.h:107-108 | For the same keys and draws, the corrected attempt retries. |
| Fuzz.GenBase | fuzz.py:8-24 | gen_base(n) has length n in every branch. |
| Fuzz.GenBaseFillIsConstant | fuzz.py:11-14 | The constant branch has all bytes equal, and all 0 when zero was drawn. |
| Fuzz.GenBaseRampRepeats | fuzz.py:15-17 | The ramp branch repeats every 256 bytes and is 0 at every multiple of 256. |
| Fuzz.GenBasePeriodicRepeats | fuzz.py:18-21 | The period is in [1024, 4096]. The bytes repeat with it and are 13 at each period start. |
| Fuzz.Mix | fuzz.py:26-57 | Inputs of different lengths fail the assert. Equal lengths give a result of that length in every branch, and only the interleave branch can run out of draws. Size 0 returns arr0. |
| Fuzz.MixSpliceTakesPrefixOfSecond | fuzz.py:32-34 | The splice is a[0:pos] followed by b[0:size-pos], not b[pos:]. |
| Fuzz.MixWindowLayout | fuzz.py:35-37 | The window branch is a[0:s] + b[0:e-s] + a[s:s+size-e]. |
| Fuzz.MixXorInvolution | fuzz.py:38-41 | Byte i of the XOR branch is a[i] ^ b[i], so XOR-mixing twice with the same b restores a. |
| Fuzz.MixXorScenario | fuzz.py:38-41 | 0xFF bytes XOR 0x0F bytes give 0xF0 bytes. |
| Fuzz.ChunkSize | fuzz.py:48 | A chunk has between 2 and 2^logmax bytes, since `2.0 ** (random() * logmax)` stays below 2^logmax. |
| Fuzz.Weave | fuzz.py:46-57 | The interleave returns exactly size bytes. |
| Fuzz.WeaveDrawsFromInputs | fuzz.py:46-57 | Every interleaved byte is taken from arr0 or arr1, counted with multiplicity. |
| Fuzz.MixInterleaveDrawsFromInputs | fuzz.py:42-57 | The interleave branch's result is a sub-multiset of the two inputs' bytes. |
| Fuzz.Sample | fuzz.py:64 | random.sample returns cnt elements of the pool. |
| Fuzz.SampleDistinct | fuzz.py:64 | random.sample draws without replacement. |
| Fuzz.Places | fuzz.py:64 | The sampled places are cnt distinct indices into the array. |
| Fuzz.Overwrite | fuzz.py:65-66 | Positions not sampled are unchanged. |
| Fuzz.OverwriteSetsPlaces | fuzz.py:65-66 | The m-th sampled position receives the m-th drawn byte. |
| Fuzz.SparseCount | fuzz.py:63-64 | The sparse branch touches between 1 and size positions. |
| Fuzz.MutateInput | fuzz.py:59-70 | mutate_input preserves the length. |
| Fuzz.MutateInputSparseTouches | fuzz.py:62-67 | The sparse branch rewrites exactly the sampled positions and leaves the rest unchanged. |
| Fuzz.MutateInputReverseLayout | fuzz.py:68-70 | The reversal branch reverses [l, r) and leaves everything else unchanged, the last byte included. |
| Fuzz.MutateInputReverseTwice | fuzz.py:68-70 | Reversing the same span twice restores the input. |
| Fuzz.SubstituteCount | fuzz.py:78-79 | The substitution count is clamped to [1, size]. |
| Fuzz.MutateLocalSubstituteTouches | fuzz.py:77-81 | Substitution rewrites exactly the sampled positions and keeps the rest. |
| Fuzz.InsertRound | fuzz.py:87-91 | Insertion grows the length by min(sz, 2·len). |
| Fuzz.DeleteSize | fuzz.py:92-95 | When len >= 2, a deletion removes between 1 and len-1 bytes. |
| Fuzz.DeleteRound | fuzz.py:92-97 | A deletion shortens the array by the deletion size. |
| Fuzz.DeleteRoundKeepsEnds | fuzz.py:96-97 | A deletion keeps a prefix and a suffix of the array. |
| Fuzz.EditRounds | fuzz.py:82-97 | Insert rounds never shorten the array and delete rounds never lengthen it. |
| Fuzz.MoveSize | fuzz.py:101-102 | The moved part lies inside the array. |
| Fuzz.MoveRound | fuzz.py:101-107 | A relocation overwrites rather than inserts: the result is rest[:dst] + part + rest[dst+sz:], of length max(len(rest), dst+sz). |
| Fuzz.MutateLocal | fuzz.py:72-110 | An empty buffer gives a fresh 1024-byte buffer. Substitution, and noise mixing when it succeeds, keep the length. |
| Fuzz.InputSize | fuzz.py:113 | The input size is in [256, 2^22]. |
| Fuzz.MixRounds | fuzz.py:115-117 | The mixing rounds keep the length. |
| Fuzz.MutateRounds | fuzz.py:118-119 | The mutation rounds keep the length. |
| Fuzz.GenInput | fuzz.py:112-120 | gen_input's result has the drawn size. |
| Fuzz.GenInputSizeBounds | fuzz.py:112-120 | gen_input's result has between 256 and 2^22 bytes. |
| Fuzz.GenLocal | fuzz.py:122-126 | With zero rounds, gen_local returns a buffer equal to its argument. |

## Left out

- File and process I/O are not modelled: reading and writing files, `main.cpp`, the `BaseFile` interface and `SyncPlan::print`. The download file is the sequence of bytes written to it.
- curl is not modelled: easy handles, `curl_easy_perform`, callback registration, `performSingle`/`performMulti` and the metadata download. The callbacks receive the bytes curl would hand them. `plainWriteCallback` (the metadata download) is not modelled either.
- The CherryPy test server and the fuzz driver (`test_single`, the top-level loop, `os.system`) are not modelled.
- SHA-1, `buzhash_compute` and `buzhash_table` are parameters of the model, since their bodies are not part of it. So are `checksumCompute`/`checksumUpdate` in the plan. `BuzSum` is the textbook cyclic-polynomial hash, used as the reference for the window update.
- `binary_search_branchless_*` is replaced by `Plan.LowerBound`, the first index whose checksum is not below the digest.
- Randomness is a parameter. Python's `random`, `os.urandom`, `random.sample` and the floating-point draws `int(2.0 ** uniform(a, b))` become explicit integer and byte streams. `std::mt19937` becomes a list of pairs of multipliers for the two hash functions.
- Phf.Create: models the `do … while (!ok)` retry loop over a finite list of draws, and returns None when the draws run out. The C++ loop draws until it succeeds. The contract does not say that None means every draw retried, nor that a returned function comes from the first draw that builds. An attempt's outcome comes out of the breadth-first labelling method, which has no function form to state that with. Create runs the corrected attempt; the as-written attempt and its exception are Phf.CreateAttemptAsWritten.
- Fuzz.Weave: the interleave loop of `mix_inputs` ends only with probability 1. The model takes a finite list of chunk choices and fails when that list runs out.
- Phf.CreateAttemptAsWritten: the text of the thrown error message (`sprintf` into a 256-byte buffer) is not modelled. Only the failing index, the value it evaluates to and the key are.
- Sorting.Sort: std::sort is unstable. The model is a stable insertion sort, and every contract that uses it relies only on "ordered and a permutation".
- Blocks.ComputeFromFile: requires blockSize != 0. A zero block size divides by zero at tdmsync.cpp:112. Negative sizes and the int wrap of the block count are modelled.
- Blocks.ComputeFromFileCoversFile: requires the block count to be below 2^31. Past that the int count wraps, and the blocks no longer cover the file (Blocks.ComputeFromFileCountWraps).
- Blocks.ComputeFromFileNegativeSize: stated for files under 2 GiB. For longer files the negative count can itself wrap to 0 or to a positive value; Blocks.ComputeFromFile models that case too.
- Plan.CreateUpdatePlan: requires blockSize != 0. A zero block size can only come from hand-made metadata, because computeFromFile divides by zero for it. With it, the C++ code hashes the empty window at each of the fileSize + 1 offsets and can emit zero-length local segments; that path is not modelled. A negative block size is modelled: it always fails.
- Phf.CreateAttempt: requires fewer than 2^32 keys, since `(int)i` and the uint32 labels cannot hold more.
- Download.MultiWriteCallback: requires each chunk to be shorter than 2^31 bytes, so the `(int)bytes` cast does not wrap.
- Download.ProcessBuffer: requires a boundary of at most TailSize bytes. With a longer boundary, the boundary comparison reads past the 16 KiB buffer.
- Metadata.Serialize: a block count at or above 2^31 truncates `int blocksCount`. The INT_MAX/2 assert already refuses such counts, so only sizes the assert accepts are modelled.
- int64 overflow of offsets and totals in createUpdatePlan and downloadMissingParts is not modelled. Sizes are unbounded integers there.
- The declarations in tdmsync.h that the .cpp file does not define (`UpdatePlan::apply`, the `BaseFile` overloads) are not modelled.

## Findings

| source | as written | input that shows it | evidently intended | confidence | as-written member | corrected member |
|---|---|---|---|---|---|---|
| tdmsync.cpp:91-94 | `int sz = blocksCount * sizeof(BlockInfo)` truncates to 32 bits, so the size check compares a wrapped value. | A 16-byte file whose count field is 2^27 (bytes 00 00 00 08): 32·2^27 = 2^32 wraps to 0, the check `16 + 0 == 16` passes, and 2^27 blocks are created from no data. | Data whose length is not 16 + 32·count is rejected. | not executed | Metadata.DeserializeAsWritten, Metadata.DeserializeTruncationCounterexample | Metadata.Deserialize, Metadata.DeserializeSerialize |
| tdmsync_curl.cpp:179-184 | When a part header ends past `end`, the next pass finds no boundary and sets `until = end < pos`. `singleWriteCallback(…, until - pos)` then gets a wrapped size_t, and the unsigned guard `writtenSize + bytes > totalSize` wraps too and lets it through. | A 16384-byte buffer whose first boundary is at 15350, with the part header ending at 15374 > end = 15360, after 15350 bytes were written (Download.StraddlingDownloader). | Write nothing when pos is already past end, and keep the bytes from pos on for the next call. | not executed | Download.ProcessBufferAsWritten, Download.ProcessBufferNegativeWrite | Download.ProcessBuffer, Download.ProcessBufferPlainData |
| phf.h:76-78 | The duplicate mark is stored in the cell-status array at the key's index (`status[i] = IGNORED`). A cell that happens to have that number is never a search root and its own edge list is never scanned. So an edge between two such cells, or a self-loop on one, is checked from neither end, while the final check at phf.h:113-114 skips keys by the same aliased array. (An edge from an ordinary cell into such a cell is still checked from the ordinary end.) | Keys {5, 5, 7} with multipliers 164703072086692426 and 164703072086692427 (16 cells). Key 7 hashes to cell 1 under both functions, giving a self-loop on a cell marked IGNORED. Whether the default-seeded mt19937 ever draws these multipliers is not shown; the model takes the draws as parameters. ok stays true and the final check throws for index 2. | Duplicates are skipped without touching cell states, so the inconsistent self-loop makes the attempt retry. | not executed | Phf.CreateAttemptAsWritten, Phf.AliasedSelfLoopThrows | Phf.CreateAttempt, Phf.SelfLoopRetries |
