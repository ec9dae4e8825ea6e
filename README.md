# xnu-trace core, modelled in Dafny

This project models the recording and storage core of xnu-single-step-trace, a
tracer that single-steps a macOS process and records every executed pc. It
models four source files:

- **Packed bit vectors** (`include/xnu-trace/BitVector.h`).
  - `ExactBitVector` stores 8-, 16- and 32-bit elements as plain integers.
  - `NonAtomicBitVector` packs 1- to 31-bit elements into a byte buffer and
    reads or writes each one through a word or a double word.
  - `AtomicBitVector` is a stub.
  - The `BitVector` front end picks one of the three from a run-time width.
  - The buffer is an `array<Byte>`. Its contents are the values `get`
    returns. The bit helpers `extract_bits`, `bit_mask`, `insert_bits` and
    `sign_extend` are functions on naturals, proved bit by bit.
- **The region catalog** (`lib/xnu-trace/MachORegions.cpp`).
  - `MachORegions` is a class holding the sorted regions, the page hash and
    the page table.
  - `reset` scans a live task: image list, UUIDs, page rounding, JIT ranges.
  - The record constructor rebuilds a catalog from a trace.
  - Lookups by address, by index and by file name.
  - `lookup_inst` goes through the page table.
  - `create_hash` builds the page table in two passes: all regions, then JIT
    regions overriding them.
- **The directory trace log** (`lib/xnu-trace/TraceLog.cpp`).
  - `TraceLog` is a class over a directory modelled as a map from file name
    to file (header and payload).
  - `log` appends an 8-byte record to the thread's buffer (buffered mode) or
    to its stream (streaming mode), and counts it.
  - `write` writes `meta.bin`. It keeps the region blobs whose digest is
    unchanged, rewrites the others and removes stale ones. Then it writes one
    file per thread, or stamps each stream's header with the thread's count.
  - `num_bytes` sums the buffer or stream sizes.
  - The parsing constructor reads such a directory back.
  - `extract_bbs_from_pc_trace` and `extract_pcs_from_trace` are also in
    this file. Their copies in the legacy file are the same code (only
    `extract_pcs_from_trace` there appends with `emplace_back` instead of
    filling a resized vector), so `BasicBlocks.ExtractBbs` and
    `BasicBlocks.ExtractPcs` model both.
- **The single-file legacy trace log**
  (`lib/xnu-single-step-trace/TraceLog.cpp`).
  - The same `log` and `num_bytes`.
  - `write_to_file` writes one file: a header, region records, symbol
    records and one block per thread.
  - A parsing constructor walks that file.

Two kinds of property are proved, with each loop proved against a
specification function:

- **Round trips.**
  - The records written read back.
  - A written directory or file parses back to exactly the pcs logged per
    thread.
  - Streams, once stamped and closed, leave the same thread files as the
    buffered mode.
- **Invariants of the recording state.** `log` keeps each thread's buffer
  equal to the records of exactly the pcs logged for it, and keeps the
  counts equal to their number.

Integers are unbounded. The model writes out 64-bit wrap-around where the
source relies on it: pcs in basic blocks, `uint64_t` region ends, page
rounding and the `uint32_t` block size.

## Model

| member | source | states |
|---|---|---|
| PackedWords.ExtractBitsBits | include/xnu-trace/BitVector.h:16-18 | bit j of `extract_bits(val, sb, eb)` is bit sb + j of val for j < eb - sb, and clear above |
| PackedWords.BitMask | include/xnu-trace/BitVector.h:20-24 | `bit_mask(sb, eb)` is 2^eb - 2^sb: exactly the bits [sb, eb) set |
| PackedWords.ClearedBits | include/xnu-trace/BitVector.h:28 | `orig & ~bit_mask` keeps every bit of orig outside [sb, eb) and clears the bits inside |
| PackedWords.InsertBitsBits | include/xnu-trace/BitVector.h:26-30 | insert_bits as written puts the shifted value's bits into the field and also ORs the value's bits above the field into the word, with sign-extension from bit 31 on a double word |
| PackedWords.WidenBit | include/xnu-trace/BitVector.h:29 | a 32-bit shift result converted to a wider word keeps its 32 bits and, when signed, repeats bit 31 up to the word's width |
| PackedWords.InsertBitsFits | include/xnu-trace/BitVector.h:26-30 | for a value that fits in nbits bits, insert_bits as written equals the intended field replacement |
| PackedWords.InsertFieldBits | include/xnu-trace/BitVector.h:26-30 | the intended insertion replaces exactly bits [sb, sb + nbits) with the value's low bits and keeps every other bit |
| PackedWords.SignExtend | include/xnu-trace/BitVector.h:32-35 | `(val ^ msb) - msb` is the two's-complement reading of the nbits-bit pattern |
| PackedWords.Pattern32 | include/xnu-trace/BitVector.h:26-30 | the 32-bit pattern of a value of T is the value itself when non-negative and val + 2^32 when negative |
| PackedWords.PatternValue | include/xnu-trace/BitVector.h:141-167 | the low nbits bits of a value's 32-bit pattern read back as that value, for every value of the nbits-wide type |
| PackedWords.SpliceElements | include/xnu-trace/BitVector.h:103-167 | replacing the bits of element idx sets that element and leaves every other element unchanged |
| PackedWords.ZeroValues | include/xnu-trace/BitVector.h:47 | the zero-filled buffer `m_buf(byte_sz)` holds only zero elements |
| PackedLayout.ExactByteSz | include/xnu-trace/BitVector.h:83-85 | `sz * NBits / 8` bytes hold exactly the bits of sz elements, with no rounding |
| PackedLayout.NonAtomicByteSz | include/xnu-trace/BitVector.h:193-197 | the buffer holds all packed bits, rounded up to whole double words, less than one double word over |
| PackedLayout.AtomicByteSz | include/xnu-trace/BitVector.h:219-223 | the buffer holds all packed bits, rounded up to whole quad words, less than one quad word over |
| PackedLayout.WordAccessLocates | include/xnu-trace/BitVector.h:103-135 | wherever get/set as written are defined (no negative shift), their word or aligned double word holds element idx inside the buffer |
| PackedLayout.FixedAccessLocates | include/xnu-trace/BitVector.h:103-167 | the intended access (the word from start_word_idx, or the two words from it) finds every element inside the buffer |
| PackedLayout.WordAccessWraps | include/xnu-trace/BitVector.h:121-130 | element 2 of a 12-bit vector: get as written takes aligned double word 0 with bit range [24, 4), and is undefined there |
| PackedLayout.WordAccessEndsOnBoundary | include/xnu-trace/BitVector.h:121-130 | element 3 of a 4-bit vector ends on a double-word boundary: get as written takes bit range [12, 0) |
| BitVector.ReadField | include/xnu-trace/BitVector.h:103-139 | one word load and extract_bits, sign-extended when signed, read exactly the element's bits from the buffer |
| BitVector.FieldStored | include/xnu-trace/BitVector.h:141-167 | writing a value's cut pattern into element idx's field stores Stored(val) there and keeps every other element |
| BitVector.SetAsWrittenElement | include/xnu-trace/BitVector.h:141-153 | for every value of T, set as written makes element idx read back as the value cut to nbits bits and leaves every element before idx |
| BitVector.SetAsWrittenFits | include/xnu-trace/BitVector.h:141-167 | set as written, with a non-negative value that fits, changes element idx to the value and nothing else |
| BitVector.SetAsWrittenLeaks | include/xnu-trace/BitVector.h:141-153 | set as written of a negative value in a signed vector also sets the first bit of element idx + 1, changing it when that bit was clear |
| BitVector.SetAsWrittenLeaksExample | include/xnu-trace/BitVector.h:141-153 | in a signed 4-bit vector of two zeros, `set(0, -1)` as written leaves element 1 non-zero |
| BitVector.ExactStore | include/xnu-trace/BitVector.h:79-81 | storing the T of an in-range value at element idx's byte offset sets that element and keeps the others |
| BitVector.ExactBitVector.constructor | include/xnu-trace/BitVector.h:73 | a fresh buffer of byte_sz(sz) bytes whose sz elements are all 0 |
| BitVector.ExactBitVector.Get | include/xnu-trace/BitVector.h:75-77 | returns element idx |
| BitVector.ExactBitVector.Set | include/xnu-trace/BitVector.h:79-81 | the contents with element idx replaced by val and nothing else changed |
| BitVector.NonAtomicBitVector.constructor | include/xnu-trace/BitVector.h:98-101 | a fresh buffer of byte_sz(sz) bytes whose sz elements are all 0 |
| BitVector.NonAtomicBitVector.Get | include/xnu-trace/BitVector.h:103-139 | get as written returns element idx wherever it is defined |
| BitVector.NonAtomicBitVector.Set | include/xnu-trace/BitVector.h:141-167 | element idx reads back as the value cut to nbits bits, so as the value itself whenever it fits, for negative signed values too; elements before idx keep their values; for a non-negative value that fits, nothing else changes |
| BitVector.NonAtomicBitVector.GetFixed | include/xnu-trace/BitVector.h:103-139 | the intended get returns element idx for every idx |
| BitVector.NonAtomicBitVector.SetFixed | include/xnu-trace/BitVector.h:141-167 | the intended set replaces element idx with the value cut to nbits bits and changes nothing else |
| BitVector.AtomicBitVector.constructor | include/xnu-trace/BitVector.h:209 | a fresh buffer of byte_sz(sz) bytes |
| BitVector.AtomicBitVector.Get | include/xnu-trace/BitVector.h:211-213 | returns 0 |
| BitVector.AtomicBitVector.Set | include/xnu-trace/BitVector.h:215-217 | changes nothing |
| BitVector.ChooseKinds | include/xnu-trace/BitVector.h:231-256 | the exact vector for widths 8, 16 and 32; the packed (or atomic) vector for every other width in 1..31; no vector for 0 and above 32 |
| BitVector.BitVector.constructor | include/xnu-trace/BitVector.h:231-256 | builds the vector Choose picks, all elements 0 |
| BitVector.BitVector.Get | include/xnu-trace/BitVector.h:257-259 | returns element idx of the chosen vector |
| BitVector.BitVector.Set | include/xnu-trace/BitVector.h:260-262 | replaces element idx with the value cut to the width; the atomic vector keeps its contents |
| RegionNames.ParseLogPathOfLogPath | lib/xnu-trace/MachORegions.cpp:5-9 | a region's blob name `macho-region-<file>-<8 hex digits>.bin` gives back its file name and its first four digest bytes |
| RegionNames.LogPathDetermines | lib/xnu-trace/MachORegions.cpp:5-9 | two regions share a blob name only when their file names and first four digest bytes agree |
| RegionNames.FilenameIsLastComponent | lib/xnu-trace/MachORegions.cpp:7 | `path.filename()` is the longest suffix of the path with no '/' |
| RegionNames.UnHexHex | lib/xnu-trace/MachORegions.cpp:7-8 | `{:02x}` joined with no separator is invertible |
| RegionNames.DecValueOfDecStr | lib/xnu-trace/MachORegions.cpp:85 | `{:d}` of a number reads back as that number |
| RegionScan.RoundUpPages | lib/xnu-trace/MachORegions.cpp:56 | `roundup_pow2_mul` gives a page multiple, the least one not below x unless the 64-bit sum wraps |
| RegionScan.SelectedIff | lib/xnu-trace/MachORegions.cpp:67-80 | a VM range becomes a JIT region exactly when it is executable, no image starts at its base, and its tag is 0xFF |
| RegionScan.JitLabelInjective | lib/xnu-trace/MachORegions.cpp:85 | different JIT counters give different region paths |
| RegionScan.JitImagesSnoc | lib/xnu-trace/MachORegions.cpp:81-90 | each selected range adds one JIT region numbered after the ones before it |
| RegionCatalog.SortByBase | lib/xnu-trace/MachORegions.cpp:33 | the sort yields the same regions (a permutation), ordered by base |
| RegionCatalog.CollectBases | lib/xnu-trace/MachORegions.cpp:61-64 | the bases of the regions, in order |
| RegionCatalog.MachORegions.CaptureImages | lib/xnu-trace/MachORegions.cpp:46-59 | each image gets the UUID of its symbol owner, its size rounded up to pages, its bytes read over that size and their digest |
| RegionCatalog.MachORegions.AddJitRegions | lib/xnu-trace/MachORegions.cpp:61-91 | appends one JIT region per chosen VM range, in order, numbered from 0 |
| RegionCatalog.MachORegions.Reset | lib/xnu-trace/MachORegions.cpp:37-100 | the regions become the sorted scan result and the page table is indexed for them |
| RegionCatalog.MachORegions.FromTask | lib/xnu-trace/MachORegions.cpp:11-13 | a catalog whose state is what reset leaves |
| RegionCatalog.ReadRecords | lib/xnu-trace/MachORegions.cpp:17-32 | num_regions records read one after the other, each given the bytes stored under its digest |
| RegionCatalog.AttachBytesAt | lib/xnu-trace/MachORegions.cpp:27 | each region gets the bytes moved out of the map under its digest; a later region with an already-seen digest gets none |
| RegionCatalog.MachORegions.FromRecords | lib/xnu-trace/MachORegions.cpp:15-35 | the regions are the decoded records with their bytes, sorted by base, and the page table is indexed |
| RegionCatalog.MachORegions.Lookup | lib/xnu-trace/MachORegions.cpp:102-109 | returns a region whose [base, base + size) holds addr |
| RegionCatalog.MachORegions.LookupIdx | lib/xnu-trace/MachORegions.cpp:111-120 | returns the first region holding addr and its position; no earlier region holds it |
| RegionCatalog.MatchesAre | lib/xnu-trace/MachORegions.cpp:123-128 | the scan collects, in ascending order, exactly the positions of the regions with that file name |
| RegionCatalog.UniqueMatches | lib/xnu-trace/MachORegions.cpp:122-131 | with one region of that name, the scan finds that region alone |
| RegionCatalog.MachORegions.LookupName | lib/xnu-trace/MachORegions.cpp:122-131 | returns the one region whose file name is the given name |
| RegionCatalog.MachORegions.LookupInst | lib/xnu-trace/MachORegions.cpp:133-138 | the 32-bit little-endian word at addr inside the bytes of the region owning addr's page |
| RegionCatalog.CollectPages | lib/xnu-trace/MachORegions.cpp:145-152 | every page number of every region, in region order |
| PageIndex.SortUnique | lib/xnu-trace/MachORegions.cpp:153-154 | sort, unique and erase give the distinct page numbers, ascending |
| PageIndex.PageKeysCover | lib/xnu-trace/MachORegions.cpp:145-154 | the hash keys are ascending, without repeats, and exactly the pages some region covers |
| PageIndex.OnPageAddress | lib/xnu-trace/MachORegions.cpp:149-150 | a page of an aligned region is one whose first address lies in [base, base + size) |
| RegionCatalog.MphCovers | lib/xnu-trace/MachORegions.cpp:160-165 | a minimal perfect hash over the keys sends every page of every region into the table, without collisions |
| RegionCatalog.WriteRegion | lib/xnu-trace/MachORegions.cpp:168-171 | the slot of each of the region's pages points at that page's offset in the region's bytes; other slots are unchanged |
| RegionCatalog.Pass | lib/xnu-trace/MachORegions.cpp:164-182 | after a pass, each page's slot is set by the last region of the pass covering it, or left as it was |
| PageIndex.SlotIsOwner | lib/xnu-trace/MachORegions.cpp:164-182 | after both passes each covered page's slot points into its owner at the page's offset; uncovered pages stay null |
| PageIndex.OwnerPrefersJit | lib/xnu-trace/MachORegions.cpp:173-182 | a page some JIT region covers is read from the last such region; any other page from the last region covering it |
| RegionCatalog.MachORegions.CreateHash | lib/xnu-trace/MachORegions.cpp:144-183 | keeps the regions, takes the given hash and leaves the table indexed: each page's slot points into its owner |
| BasicBlocks.ExtractBbs | lib/xnu-trace/TraceLog.cpp:5-21 | the blocks are those of the maximal straight-line runs of the trace: every run ended by a jump, then the last run when it has two pcs or more |
| BasicBlocks.RunsCover | lib/xnu-trace/TraceLog.cpp:10-16 | the runs cover the pcs read exactly, in order |
| BasicBlocks.RunsBreak | lib/xnu-trace/TraceLog.cpp:11-14 | consecutive runs are separated by a jump, so no run could be extended |
| BasicBlocks.BlockSize | lib/xnu-trace/TraceLog.cpp:12 | a block's size is 4 bytes per instruction, truncated to 32 bits |
| BasicBlocks.FinalRun | lib/xnu-trace/TraceLog.cpp:17-19 | the last run is emitted exactly when it holds two instructions or more |
| BasicBlocks.ContiguousOneBlock | lib/xnu-trace/TraceLog.cpp:5-21 | a straight-line trace of n >= 2 pcs is one block of 4n bytes |
| BasicBlocks.TrailingSingleDropped | lib/xnu-trace/TraceLog.cpp:17-19 | a final pc after a jump yields no block of its own |
| BasicBlocks.TwoRunsExample | lib/xnu-trace/TraceLog.cpp:5-21 | [100, 104, 108, 200, 204] gives blocks {100, 12} and {200, 8} |
| BasicBlocks.ExtractPcs | lib/xnu-trace/TraceLog.cpp:23-31 | the pc of every record, in order |
| Records.MsgsOfEncodeWords | lib/xnu-trace/TraceLog.cpp:133-136 | the bytes appended by log for a sequence of pcs, viewed as a span of records, give the pcs back |
| Records.EncodeWordsAppend | lib/xnu-trace/TraceLog.cpp:135-136 | appending records appends their bytes |
| TraceCommon.CollectPcs | lib/xnu-trace/TraceLog.cpp:152-159 | the set of pcs recorded in any thread's buffer |
| TraceCommon.TracedPcsIff | lib/xnu-trace/TraceLog.cpp:152-159 | a pc is collected exactly when some thread's buffer records it |
| TraceCommon.ThreadNameInjective | lib/xnu-trace/TraceLog.cpp:142 | different threads log to different `thread-<tid>.bin` files |
| TraceDir.RemoveFiles | lib/xnu-trace/TraceLog.cpp:36-40 | exactly the files keep rejects are removed; the others are kept unchanged |
| TraceRecorder.TraceLog.constructor | lib/xnu-trace/TraceLog.cpp:33-41 | every file but the region blobs is removed and nothing is logged |
| TraceParse.CollectBlobs | lib/xnu-trace/TraceLog.cpp:48-58 | each blob's bytes under the digest in its header, the first blob listed with a digest winning |
| TraceParse.RegionBlobsHas | lib/xnu-trace/TraceLog.cpp:48-58 | every listed blob's digest ends up in the map |
| TraceParse.ReadThreadFile | lib/xnu-trace/TraceLog.cpp:82-94 | a vector of the header's count: the file's records in order, then zeroed entries |
| TraceParse.ReadThreadFiles | lib/xnu-trace/TraceLog.cpp:75-97 | each thread file's log emplaced under its thread id (the first file wins); the header counts added up |
| TraceParse.FindParsed | lib/xnu-trace/TraceLog.cpp:96 | after the loop a thread holds the log of the first file listed for it |
| Framing.Skip | lib/xnu-trace/TraceLog.cpp:63-66 | the pointer walk over n records ends where the n-th record ends |
| TraceRecorder.TraceLog.FromDir | lib/xnu-trace/TraceLog.cpp:43-98 | the catalog built from the records of `meta.bin` and the blobs, the symbols after the regions, the parsed thread logs and their total count |
| TraceRecorder.TraceLog.NumBytes | lib/xnu-trace/TraceLog.cpp:104-116 | the sum of buffer (or stream) sizes; in a valid log, 8 bytes per logged instruction |
| TraceRecorder.EncodedSize | lib/xnu-trace/TraceLog.cpp:104-116 | the records of the pcs logged take 8 bytes per counted instruction |
| TraceRecorder.StreamSizes | lib/xnu-trace/TraceLog.cpp:111-113 | the streams' decompressed sizes add up to the bytes written to them |
| TraceRecorder.BufsKeep | lib/xnu-trace/TraceLog.cpp:134-136 | appending a pc's 8 bytes to its thread's buffer (created empty) keeps the buffers equal to the records of exactly the pcs logged |
| TraceRecorder.StreamOfOpened | lib/xnu-trace/TraceLog.cpp:138-143 | a thread's stream is the one opened for it: its id and a zero count in the header |
| TraceRecorder.OpenedPut | lib/xnu-trace/TraceLog.cpp:138-145 | storing a stream opened for its own thread keeps every stream so |
| TraceRecorder.StreamsKeep | lib/xnu-trace/TraceLog.cpp:137-146 | opening the thread's stream on first use and writing the record keeps the streams' bytes equal to the records of the pcs logged |
| TraceRecorder.CountKeeps | lib/xnu-trace/TraceLog.cpp:147-148 | bumping the thread's count keeps each count equal to its thread's pcs and the total one higher |
| TraceRecorder.LogKeeps | lib/xnu-trace/TraceLog.cpp:132-149 | the three updates of log together keep the recording state consistent with one more pc logged |
| TraceRecorder.LogStep | lib/xnu-trace/TraceLog.cpp:132-149 | the new buffers, streams and counts are those of the pcs logged with this pc appended to its thread |
| TraceRecorder.TraceLog.Log | lib/xnu-trace/TraceLog.cpp:132-149 | one more pc logged for the thread and counted; through the invariant, its record is at the end of the thread's buffer (or stream) and its count is one higher |
| TraceRecorder.SelectSyms | lib/xnu-trace/TraceLog.cpp:152-169 | the symbols kept for the intervals of the traced pcs, or none when no symbols are given |
| TraceRecorder.WriteRegionRecords | lib/xnu-trace/TraceLog.cpp:176-186 | each region's record appended in order |
| TraceRecorder.WriteRegionRecord | lib/xnu-trace/TraceLog.cpp:177-185 | one region's header, UUID, digest and path |
| SymRecords.WriteSyms | lib/xnu-trace/TraceLog.cpp:188-196 | each symbol's record appended in order |
| SymRecords.WriteSym | lib/xnu-trace/TraceLog.cpp:189-195 | one symbol's header, name and path |
| TraceRecorder.WriteMeta | lib/xnu-trace/TraceLog.cpp:171-196 | `meta.bin` is the two counts, then the region records, then the symbol records |
| RegionRecords.DecodeEncodeRegion | lib/xnu-trace/TraceLog.cpp:176-186 | a region's record reads back as the region without its bytes, and the walk continues with what follows |
| RegionRecords.DecodeEncodeRegions | lib/xnu-trace/TraceLog.cpp:176-186 | the records of n regions walked n times give the regions back and stop right after them |
| SymRecords.DecodeEncodeSym | lib/xnu-trace/TraceLog.cpp:188-196 | a symbol's record reads back as the symbol, and the walk continues with what follows |
| SymRecords.DecodeEncodeSyms | lib/xnu-trace/TraceLog.cpp:188-196 | the records of n symbols walked n times give the symbols back |
| TraceRecorder.CollectReused | lib/xnu-trace/TraceLog.cpp:198-211 | the blob names of the regions whose existing blob holds their digest |
| TraceDir.ReusedIff | lib/xnu-trace/TraceLog.cpp:198-211 | a name is reused exactly when it is the blob name of a region whose blob can stay |
| TraceRecorder.RewriteRegionBlobs | lib/xnu-trace/TraceLog.cpp:221-231 | the blob of every region not reused is written afresh |
| TraceDir.RewriteRegion | lib/xnu-trace/TraceLog.cpp:221-231 | with distinct blob names, a region's blob holds its bytes when not reused and what it held when reused |
| TraceRecorder.PutThreadFiles | lib/xnu-trace/TraceLog.cpp:233-244 | one file per thread: a header with its id and count, then its buffer |
| TraceDir.ThreadFileAt | lib/xnu-trace/TraceLog.cpp:233-244 | each thread's file holds its buffer under a header with its id and its count |
| TraceRecorder.StampStreams | lib/xnu-trace/TraceLog.cpp:245-249 | each stream's header gets its thread's count; nothing else changes |
| TraceRecorder.WriteDir | lib/xnu-trace/TraceLog.cpp:171-244 | the directory after the stages of write in order: meta, reuse check, removal, rewrite, thread files |
| TraceDir.WrittenMeta | lib/xnu-trace/TraceLog.cpp:171-196 | write leaves `meta.bin` holding the counts and the records |
| TraceDir.WrittenBlob | lib/xnu-trace/TraceLog.cpp:198-231 | after write, a region's blob is the old one when reusable and is written afresh otherwise |
| TraceDir.WrittenNoStale | lib/xnu-trace/TraceLog.cpp:213-219 | after write every blob in the directory belongs to a region written |
| TraceDir.WrittenThread | lib/xnu-trace/TraceLog.cpp:233-244 | in buffered mode each thread's file holds its buffer under its id and count |
| TraceDir.WrittenOther | lib/xnu-trace/TraceLog.cpp:151-250 | any other file is left as it was |
| TraceRecorder.CloseStamped | lib/xnu-trace/TraceLog.cpp:245-249 | streams opened for their threads and stamped close into the files the buffered mode writes from the same records |
| TraceRecorder.StreamsClose | lib/xnu-trace/TraceLog.cpp:137-149 | a streaming write, once its streams are closed, leaves the directory a buffered write of the same records leaves |
| TraceRecorder.TraceLog.Write | lib/xnu-trace/TraceLog.cpp:151-250 | the directory after write, the streams stamped, and, after closing, the same directory in both modes |
| TraceParse.WrittenReadable | lib/xnu-trace/TraceLog.cpp:43-98 | what write leaves from counted buffers can be read by the parsing constructor |
| TraceParse.WriteThenParseThreads | lib/xnu-trace/TraceLog.cpp:75-97 | reading back what write left gives each thread exactly the records of its buffer |
| TraceParse.WriteThenParseInsts | lib/xnu-trace/TraceLog.cpp:95 | the total the thread loop adds up from what write leaves is the sum of the threads' counts, whatever the listing order |
| TraceParse.ThreadInstsByKeys | lib/xnu-trace/TraceLog.cpp:75-97 | over a listing of distinct names the total is the sum over its thread files taken in any order |
| TraceParse.RegionBlobsFrom | lib/xnu-trace/TraceLog.cpp:48-58 | the bytes under a digest in the blob map come from a listed blob carrying that digest |
| TraceParse.WrittenBlobBytes | lib/xnu-trace/TraceLog.cpp:48-58 | with distinct digests, the bytes collected under a region's digest from what write leaves are that region's bytes |
| TraceParse.WrittenRegionsReadBack | lib/xnu-trace/MachORegions.cpp:15-35 | with distinct digests, the records of `meta.bin` given the bytes collected from the written blobs are exactly the regions written, bytes included |
| TraceParse.WrittenMetaReadable | lib/xnu-trace/MachORegions.cpp:15-35 | with distinct digests, page-aligned regions holding bytes of their size and a perfect hash of their pages, what write leaves satisfies everything the parsing constructor and the record constructor assert |
| TraceParse.SharedDigestUnreadable | lib/xnu-trace/MachORegions.cpp:27-28 | two written regions with one digest leave the second with no bytes, so the directory write leaves fails the size assertion when that region has a size |
| TraceParse.WrittenMetaParses | lib/xnu-trace/TraceLog.cpp:60-73 | `meta.bin` as written reads back as the region records, then exactly the kept symbols |
| TraceRecorder.LoggedCounted | lib/xnu-trace/TraceLog.cpp:89-94 | the buffers of a recording log hold whole records, exactly as many as the thread's count |
| TraceRecorder.WriteThenParse | lib/xnu-trace/TraceLog.cpp:43-98 | a logged trace written and parsed back gives each thread exactly the pcs logged for it, in order, and gives no other thread a log; the total instruction count read back is the number of pcs logged, which the recording state keeps as `numInst` |
| LegacyTrace.LegacyTraceLog.constructor | lib/xnu-single-step-trace/TraceLog.cpp:31-33 | nothing logged, nothing parsed |
| LegacyTrace.LegacyTraceLog.Log | lib/xnu-single-step-trace/TraceLog.cpp:96-101 | the pc's 8 bytes at the end of the thread's buffer (created empty); one more instruction; nothing else changes |
| LegacyTrace.LegacyTraceLog.NumBytes | lib/xnu-single-step-trace/TraceLog.cpp:74-80 | the sum of buffer sizes; in a valid log, 8 bytes per logged instruction |
| LegacyTrace.WriteRegions | lib/xnu-single-step-trace/TraceLog.cpp:131-139 | each region's legacy record appended in order |
| LegacyTrace.WriteThreads | lib/xnu-single-step-trace/TraceLog.cpp:151-158 | a block per thread in ascending id order: id, byte size, then the buffer |
| LegacyTrace.LegacyTraceLog.WriteToFile | lib/xnu-single-step-trace/TraceLog.cpp:103-158 | the header, the region records, the kept symbols' records and the thread blocks |
| LegacyRecords.DecodeEncodeLegacyRegion | lib/xnu-single-step-trace/TraceLog.cpp:39-44 | a legacy region record reads back as the region's header without digest or JIT flag |
| LegacyRecords.DecodeEncodeThread | lib/xnu-single-step-trace/TraceLog.cpp:55-66 | a thread block reads back as its id and the records of its buffer |
| LegacyRecords.ThreadsOfEncode | lib/xnu-single-step-trace/TraceLog.cpp:53-67 | the blocks written for the buffers read back, thread by thread, up to the end of the file |
| LegacyRecords.FindEmplaceAll | lib/xnu-single-step-trace/TraceLog.cpp:65 | after the emplaces a thread holds the records of its first block |
| LegacyRecords.ParseTraceFile | lib/xnu-single-step-trace/TraceLog.cpp:35-68 | a written trace file parses as the regions' legacy headers, the symbols and each thread's records |
| LegacyTrace.ReadBlock | lib/xnu-single-step-trace/TraceLog.cpp:59-64 | the records of a block, in order |
| LegacyTrace.ReadThreads | lib/xnu-single-step-trace/TraceLog.cpp:53-67 | every block emplaced under its thread id |
| LegacyTrace.LegacyTraceLog.FromFile | lib/xnu-single-step-trace/TraceLog.cpp:35-68 | the regions, the symbols and the per-thread logs the file parses as |
| LegacyTrace.LegacyTraceLog.WriteParseRoundTrip | lib/xnu-single-step-trace/TraceLog.cpp:35-68 | writing a valid log and parsing the file gives each thread the pcs logged for it and gives none to the others |

## Left out

- I/O, compression and hashing are inputs, not computed.
  - `CompressedFile` framing, compression levels, magic numbers and file
    syncing are not modelled: a file is its header and its decompressed
    payload.
  - `read_target`, `get_dyld_image_infos`, `get_vm_regions`, CoreSymbolication
    UUIDs and `get_sha256` are parameters.
  - Task suspend and resume and all `fmt::print` output are left out.
- The minimal perfect hash (pthash) is a parameter map. It is required to be
  a bijection from the page keys onto [0, n).
- The page size is taken as 16 KiB. utils.h and common.h are not part of
  this model: `is_pow2`, `int_n`, `roundup_pow2_mul` and `PAGE_SZ` are
  written from their names and uses.
- log_structs.h is not part of this model. Every header field is taken as a
  little-endian 64-bit word, with the 16-byte UUID and 32-byte digest in
  place.
- A blob whose existing header is not a region header counts as not
  reusable. The magic check of `CompressedFile` is not modelled.
- Directory iteration order is a parameter (a listing of each file once).
- RegionCatalog.SortByBase: `image_info`'s `operator<` is not part of this
  model. The order is taken to be by base. Regions with equal bases keep a
  fixed order (insertion order), where `std::sort` leaves it unspecified.
  That order decides which region `lookup_idx` reports first when two
  regions share a base.
- `std::map` is an ordered association list. `m_thread_num_inst` (a hash map)
  is modelled as an ordered map too. Its order is never observed.
- `get_symbols_in_intervals` and the `Symbols` class are not part of this
  model. The selection is a parameter `select`, and `Symbols::syms()` is the
  symbol sequence it is given.
- Thread ids, counts and buffer lengths are unbounded. The 64-bit wrap of
  `m_num_inst` and of the per-thread counts is not modelled.
- The parsing constructors require a well-formed input (`Readable`,
  `MetaReadable`, `ParseTrace(buf).Some?`). The source reads raw memory
  with no checks, so a malformed file has no defined behaviour to model.
  `TraceParse.WrittenReadable` and `TraceParse.WrittenMetaReadable` show
  that a directory `write` leaves meets them, the latter under the
  hypotheses listed next.
  `lookup`, `lookup_idx` and `lookup(name)` likewise require the region to
  exist, where the source asserts. `lookup_inst` also requires the 4-byte
  word to lie inside the owner's bytes (`InstReadable`), which the source
  does not check. `extract_bbs_from_pc_trace` requires at least one pc,
  since the source reads `pcs[0]` unguarded.
- A thread file whose payload is not a whole number of records, or holds
  more records than its header's count, is outside `Readable`. The source
  would overrun the vector.
- BlobsOnly: the round trips start from a directory the recording
  constructor left, written once.
- DistinctPaths: every write and round-trip lemma assumes that no two
  regions share a blob name, that is, a file name and the first four
  digest bytes. Two such regions would share one blob file, which the
  source writes twice. The model does not cover that case.
- TraceParse.WrittenMetaReadable: the catalog round trip also assumes the
  following.
  - No two regions share a digest (`DistinctDigests`). Regions that do (two
    JIT regions with the same bytes, say) are written with a blob each. The
    record constructor then moves the bytes out of the map for the first
    one and leaves the second with none, so the source's size assertion
    (lib/xnu-trace/MachORegions.cpp:28) fails on a directory the program
    wrote itself. `TraceParse.SharedDigestUnreadable` states this case.
  - A reused blob holds its region's bytes (`BlobsMatch`): equal SHA-256
    digests are taken to mean equal bytes.
  - Each region's bytes have its size, as `reset` reads them. Its base and
    size are page-aligned, which the live catalog also requires.
  - The hash is a minimal perfect hash of the regions' pages. pthash is a
    parameter of the model.
- TraceRecorder.TraceLog.Write: in streaming mode the thread files appear
  only once the streams are closed. The model states that directory as
  `Closed()`, not as a change of `dir`.
- BitVector.NonAtomicBitVector.Set: `bit_mask` shifts the int literal 1 by
  `eb`, so the model requires `eb < 32` (`SetSafe`). A 31-bit end is left
  to wrap-around, which is not modelled. For a negative or oversized value
  the elements after idx are not described beyond the buffer itself, since
  the leaked bits can reach them (Findings).
- BitVector.NonAtomicBitVector.Get: get as written is modelled only where
  its shift counts are non-negative (`GetSafe`).
- BitVector.BitVector: the front end uses the corrected `GetFixed` and
  `SetFixed` of the packed vector (see Findings).
- The atomic vector's `std::atomic` quad words are not modelled: its
  get and set do nothing in the source.
- The members of `TraceLog.h` that no operation uses (`thread_ctx`,
  `m_thread_last_pc`, `m_thread_ctxs`) are left out. So are `dump`, the
  accessors `num_inst`, `macho_regions`, `symbols` and `parsed_logs` (the
  model reads the fields), and the `extract_*` helpers' span conversions.
- Concurrency is left out: `log` runs on one thread at a time.

## Findings

| source | as written | input that shows it | evidently intended | confidence | as-written member | corrected member |
|---|---|---|---|---|---|---|
| include/xnu-trace/BitVector.h:141-153 | `insert_bits` ORs `val << sb` without masking it to the field, so a negative value of a signed vector sets the bits above its field | a signed 4-bit vector with element 1 clear: `set(0, -1)` also sets bit 4, the first bit of element 1 | the value cut to nbits bits, other elements untouched | not executed | BitVector.SetAsWrittenLeaksExample (BitVector.SetAsWrittenLeaks) | BitVector.NonAtomicBitVector.SetFixed (BitVector.FieldStored) |
| include/xnu-trace/BitVector.h:121-130 | an element that crosses a word boundary is read from the aligned double word `sw_idx / 2` with bit range `start % DTBits` to `end % DTBits`, which wraps when the element crosses a double-word boundary | 12-bit vector (16-bit words), element 2 at bits 24..36: double word 0, range [24, 4) | the two words from `start_word_idx` as one double word: bytes 2..6, range [8, 20) | not executed | PackedLayout.WordAccessWraps | PackedLayout.FixedAccessLocates (BitVector.NonAtomicBitVector.GetFixed) |
