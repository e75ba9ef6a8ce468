# Inlined-frame decoding of HotSpot nmethods, as the gdb scripts do it

This project models the decoding and search engine of the OpenJDK gdb helper
scripts. Given a native pc and a memory snapshot, the engine finds the
compiled method (nmethod) holding that pc. It then maps the pc back to the
chain of inlined Java frames, each a Method, a bci and a source line. It has
five parts, one module each:

- `CompressedStreams`: HotSpot's UNSIGNED5 integer codec. Bytes below
  L = 192 end an integer, the 64 high codes continue it, and an integer
  has at most five bytes. It also covers zig-zag signed decoding, the pairs
  of the compressed line-number table, and the cursor classes
  `CompressedReadStream` and `CompressedLineNumberReadStream`, whose
  methods update their position and running totals in place.
- `LineNumbers`: `Method.line_number_from_bci` and the table flag it
  depends on.
- `CodeHeaps`: the code-heap blob locator. It walks the segment map back
  to a block start (`CodeHeap.find_start`), then `CodeCache.find_blob_unsafe`
  checks that the blob really contains the address.
- `PcDescs`: `match_desc`, the read-only `PcDescCache` and the nmethod's
  PcDesc search. The search splits at the last PcDesc found, takes steps
  of 512, 64 and 8 entries, and finishes with a linear walk.
- `Inlining`: the frame loop of `NM_print_inlining_at`, with
  `DebugInfoReadStream.read_bci` and `CodeBlob.oop_at`, plus the
  composition blob → nmethod → PcDesc → frames. The oops are read through
  `oop*`, as gdb/gdb_utilities.py does. The Python 3 variant's cast to
  `oopDesc*` is modelled separately (see Findings).

Memory is a `seq<Byte>`, and an address is an index into it. The PcDesc
records are a `seq<PcDesc>`, and every PcDesc reference is an index into that
sequence. A read that leaves the snapshot stands for the debugger's memory
error and is reported as `None` or `MemoryError`.

Each loop of the source is a method with loop invariants. Each is proved
against a specification function, and lemmas prove that function's meaning:
- the decoder reads back the writer's encoding;
- the line lookup returns the first exact pair, else the last greatest preceding pair;
- in a sorted table the geometric search and the cache give the same answer as a
  linear "first entry at or above the offset" reference;
- the frame walk yields exactly the scope chain.

Three places where the model follows the scripts' code rather than their
documentation:
- Oops index 0 is documented as "no method". Both scripts still build a
  Method from `NULL`. `NULL` is a `GdbValWrapper`, not a `gdb.Value`, so
  the `GdbValWrapper` constructor raises before any field is read
  (gdb/gdb_utilities.py:218-222, gdb/gdb_utilities_python3.py:301-303). The
  model reports this as the failure `NullMethod`. In gdb/gdb_utilities.py an
  oops element that is itself 0 is different: it is a `gdb.Value`, so
  `methodOop` accepts it, and its first field read (`_constants`) fails as
  a memory error. In gdb/gdb_utilities_python3.py no oops index reaches a
  field read at all: the wrapper refuses every index other than 0 at lines
  304-305 (see Findings).
- The comment at gdb/gdb_utilities_python3.py:1162 names steps 4096, 256
  and 16. The code steps by 512, 64 and 8, and the model follows the code.
- `find_pc_desc` returns `last_pc_desc` before any range check. A pc just
  below the code (offset -1) can yield the lower sentinel, and the pc at
  offset 0x7FFFFFFF can yield the upper one, when `last_pc_desc` is that
  sentinel (`PcDescs.EarlyHitOutOfRange`).

## Model

| member | source | states |
|---|---|---|
| CompressedStreams.ReadIntMbFrom | gdb/gdb_utilities_python3.py:1044-1061 | the rest of read_int_mb ends inside the image, after byte i and no further than byte MaxI = 4 of the integer |
| CompressedStreams.ReadIntMbFromStep | gdb/gdb_utilities_python3.py:1054-1060 | proof helper that unfolds ReadIntMbFrom by one step: one turn of the loop adds b_i shifted by 6i and stops exactly at a low code or at i == MAX_i |
| CompressedStreams.WeightIsPow2 | gdb/gdb_utilities_python3.py:1051-1060 | the weight 64^i of byte b_i is 1 shifted left by lg_H * i, the shift read_int_mb grows by lg_H each turn |
| CompressedStreams.ReadIntAt | gdb/gdb_utilities_python3.py:1062-1065 | read_int consumes one to five bytes, all inside the image |
| CompressedStreams.ReadIntMbFromSound | gdb/gdb_utilities_python3.py:1044-1061 | what the continuation loop returns is a complete encoding, and its value is Σ b_i·64^i |
| CompressedStreams.ReadIntMbFromComplete | gdb/gdb_utilities_python3.py:1044-1061 | the continuation loop finds every complete encoding that starts at the integer's first byte |
| CompressedStreams.ReadIntAtSpec | gdb/gdb_utilities_python3.py:1062-1065 | read_int yields a value iff the bytes at the address are a complete encoding, and the value is b0 + Σ b_i·64^i with the position just past the last byte |
| CompressedStreams.ReadIntAtBound | gdb/gdb_utilities_python3.py:1049-1056 | the sum read_int_mb collects lies in [0, 4346097855], wider than a jint |
| CompressedStreams.WriterEncodes | gdb/gdb_utilities_python3.py:1018-1023 | every 32-bit unsigned value has a complete encoding under H = 64, L = 192, MAX_i = 4 that stands for it |
| CompressedStreams.EncodeUnsignedRoundTrip | gdb/gdb_utilities_python3.py:1062-1065 | reading back the encoding of v gives v and stops right after it |
| CompressedStreams.ReadIntAsWritten | gdb/gdb_utilities_python3.py:1044-1065 | read_int as written: wherever it returns a value, that value agrees with the corrected reader |
| CompressedStreams.AsWrittenFailsOnLongIntegers | gdb/gdb_utilities_python3.py:1057-1060 | read_int as written raises NameError exactly when the first two bytes of the integer are high codes |
| CompressedStreams.AsWrittenCounterexample | gdb/gdb_utilities_python3.py:1060 | bytes C0 C0 00 encode 12480; the script raises NameError on them |
| CompressedStreams.AsWrittenFailsOnWriterOutput | gdb/gdb_utilities_python3.py:1060 | the script cannot read back any value of 12480 or more in the encoding the writer produces |
| CompressedStreams.DecodeSign | gdb/gdb_utilities_python3.py:1039-1042 | decode_sign takes its argument as a juint and always yields a jint; ZigZagRoundTrip and ZigZagOnto state that it inverts zig-zag encoding |
| CompressedStreams.ZigZagRoundTrip | gdb/gdb_utilities_python3.py:1039-1042 | decode_sign inverts zig-zag encoding on every jint |
| CompressedStreams.ZigZagOnto | gdb/gdb_utilities_python3.py:1039-1042 | decode_sign maps every 32-bit pattern to a jint that encodes back to that pattern |
| CompressedStreams.ZigZagExamples | gdb/gdb_utilities_python3.py:1039-1042 | decode_sign maps 0, 1, 2, 3 to 0, -1, 1, -2 |
| CompressedStreams.ReadPairAt | gdb/gdb_utilities_python3.py:1074-1086 | read_pair always consumes its tag byte and stays inside the image |
| CompressedStreams.EscapedPairStep | gdb/gdb_utilities_python3.py:1078-1082 | proof helper that unfolds ReadPairAt by one step: after tag 0xFF the totals advance by the two zig-zag-decoded ints that follow, bci first |
| CompressedStreams.ShortPairRoundTrip | gdb/gdb_utilities_python3.py:1083-1086 | a one-byte tag other than 0 and 0xFF adds tag >> 3 to bci and tag & 7 to line |
| CompressedStreams.EscapedPairRoundTrip | gdb/gdb_utilities_python3.py:1074-1086 | 0xFF followed by the encodings of two jint deltas reads back exactly those deltas |
| CompressedStreams.CompressedReadStream.constructor | gdb/gdb_utilities_python3.py:1024-1033 | a stream starts at the buffer and position given |
| CompressedStreams.CompressedReadStream.Read | gdb/gdb_utilities_python3.py:1034-1037 | read returns the byte at the cursor and advances the position by one |
| CompressedStreams.CompressedReadStream.ReadByte | gdb/gdb_utilities_python3.py:1038 | read_byte returns that byte as a signed jbyte |
| CompressedStreams.CompressedReadStream.ReadIntMb | gdb/gdb_utilities_python3.py:1044-1061 | read_int_mb returns the sum the reference reader gives and sets the position to start + i + 1 |
| CompressedStreams.CompressedReadStream.ReadInt | gdb/gdb_utilities_python3.py:1062-1065 | read_int returns ReadIntAt's value and leaves the cursor just past the integer |
| CompressedStreams.CompressedReadStream.ReadSignedInt | gdb/gdb_utilities_python3.py:1043 | read_signed_int is decode_sign of read_int |
| CompressedStreams.CompressedLineNumberReadStream.constructor | gdb/gdb_utilities_python3.py:1067-1071 | the line-number stream starts at the table with bci = line = 0 |
| CompressedStreams.CompressedLineNumberReadStream.ReadPair | gdb/gdb_utilities_python3.py:1074-1086 | read_pair returns false at tag 0 with the totals unchanged, otherwise true with the totals of the next pair |
| LineNumbers.HasLineNumberTable | gdb/gdb_utilities_python3.py:741-742 | definition: bit 0 of the ConstMethod flags is set; LineAtMeaning states the answer -1 when it is clear |
| LineNumbers.CompressedLineNumberTable | gdb/gdb_utilities_python3.py:743-747 | definition: the table starts at code_base + code_size, right after the bytecodes; read only when the flag is set |
| LineNumbers.LegalBci | gdb/gdb_utilities_python3.py:763 | definition: the assertion bci == 0 or 0 <= bci < code_size; LineNumberFromBci requires it and ScopeAt reports IllegalBci otherwise |
| LineNumbers.FirstExact | gdb/gdb_utilities_python3.py:770-772 | the index of the first pair in stream order whose bci is the target, or none when no pair has it |
| LineNumbers.BestPreceding | gdb/gdb_utilities_python3.py:773-776 | the pair with the greatest bci in [0, target), the later one on a tie, or none when no bci qualifies |
| LineNumbers.ScanFrom | gdb/gdb_utilities_python3.py:768-779 | definition of the read_pair loop with the best candidate in hand; its meaning is stated by ScanFromMeaning |
| LineNumbers.LineAt | gdb/gdb_utilities_python3.py:762-780 | definition of line_number_from_bci's answer; its meaning is stated by LineAtMeaning and LineNumberFromBci computes it |
| LineNumbers.ScanFromMeaning | gdb/gdb_utilities_python3.py:764-780 | the scan with the best candidate in hand ends with the line of the first exact pair, else of the best preceding pair, else -1 |
| LineNumbers.LineAtMeaning | gdb/gdb_utilities_python3.py:741-780 | without a table (flags & 1 == 0) the answer is -1; with a readable table it is the line the pairs assign |
| LineNumbers.LineNumberFromBci | gdb/gdb_utilities_python3.py:762-780 | line_number_from_bci: the loop returns the first exact line, else the best preceding line, else -1, or a memory error when the table leaves the image |
| CodeHeaps.Contains | gdb/gdb_utilities_python3.py:907-909 | definition: low <= p < high; StartOfMeaning states that find_start is NULL outside it |
| CodeHeaps.SegmentFor | gdb/gdb_utilities_python3.py:910-912 | definition: (p - low) >> log2_segment_size; its meaning is stated by SegmentForBlockAt and SegmentInMap |
| CodeHeaps.BlockAt | gdb/gdb_utilities_python3.py:913-915 | definition: low + (i << log2_segment_size); its meaning is stated by SegmentForBlockAt and BlockAtMonotonic |
| CodeHeaps.AllocatedSpace | gdb/gdb_utilities_python3.py:891-893 | definition: the address right after the HeapBlock header; StartOfMeaning states it is what find_start returns for a used block |
| CodeHeaps.SegmentForBlockAt | gdb/gdb_utilities_python3.py:910-915 | an address lies in the segment segment_for names: block_at(i) <= p < block_at(i + 1) |
| CodeHeaps.SegmentInMap | gdb/gdb_utilities_python3.py:907-912 | every address of the heap has a segment-map byte |
| CodeHeaps.BlockAtMonotonic | gdb/gdb_utilities_python3.py:913-915 | block_at grows with the segment index |
| CodeHeaps.WalkBack | gdb/gdb_utilities_python3.py:925-926 | the back-link walk ends at or before its start, on a 0 byte |
| CodeHeaps.WalkFindsBlockStart | gdb/gdb_utilities_python3.py:916-926 | in a well-formed map the walk from a segment that is not free reaches its block's first segment, the last 0 at or before it |
| CodeHeaps.StartOf | gdb/gdb_utilities_python3.py:916-933 | definition of find_start's result (0 for both the int 0 and NULL); its meaning is stated by StartOfMeaning and FindStart computes it |
| CodeHeaps.StartOfMeaning | gdb/gdb_utilities_python3.py:885-933 | find_start is NULL iff p is outside the heap, its segment is free (0xFF) or its block is free; otherwise it is the address past the HeapBlock header of the block holding p |
| CodeHeaps.FindStart | gdb/gdb_utilities_python3.py:916-933 | the loop i -= b[i] computes find_start |
| CodeHeaps.BlobContains | gdb/gdb_utilities_python3.py:949-951 | definition: header_begin <= addr < header_begin + size; FindBlobUnsafe keeps a blob only when it holds |
| CodeHeaps.BlobFor | gdb/gdb_utilities_python3.py:969-977 | the corrected find_blob_unsafe: a blob it returns starts where find_start points and contains the address |
| CodeHeaps.BlobForAsWritten | gdb/gdb_utilities_python3.py:969-977 | find_blob_unsafe as written raises exactly when find_start returns 0 or NULL; otherwise a blob that contains the address, or NULL |
| CodeHeaps.AsWrittenRaisesWithoutBlock | gdb/gdb_utilities_python3.py:916-931 | in a well-formed heap the script raises iff the address is outside the heap, on a free segment or in a free block |
| CodeHeaps.AsWrittenRaisesBelowHeap | gdb/gdb_utilities_python3.py:917-918 | an address below the heap makes the script raise, where the corrected lookup answers NULL |
| CodeHeaps.BlobForCorrectsAsWritten | gdb/gdb_utilities_python3.py:969-977 | the corrected lookup answers NULL where the script raises and agrees with it everywhere else |
| CodeHeaps.FindBlobUnsafe | gdb/gdb_utilities_python3.py:969-977 | find_blob_unsafe, corrected, is non-NULL iff find_start finds a blob and header_begin <= addr < header_begin + size |
| PcDescs.InstructionsBegin | gdb/gdb_utilities_python3.py:946-948 | definition: header_begin + instructions_offset, the base the pc offsets are taken from |
| PcDescs.MatchDesc | gdb/gdb_utilities_python3.py:1208-1212 | definition of match_desc: exact means equal offset, approximate means pred.pc_offset < target <= pc_offset; its meaning is stated by MatchUnique, ExactAnswer and ApproximateAnswer |
| PcDescs.FirstAtLeast | gdb/gdb_utilities_python3.py:1179-1186 | the reference the search is measured against: the first entry whose offset is at or above the target |
| PcDescs.MatchUnique | gdb/gdb_utilities_python3.py:1208-1212 | in a sorted table the only entry match_desc accepts, exact or approximate, is the first entry at or above the target |
| PcDescs.ExactAnswer | gdb/gdb_utilities_python3.py:1208-1210 | an exact lookup finds an entry iff some entry's pc_offset equals the target, and that entry has it |
| PcDescs.ApproximateAnswer | gdb/gdb_utilities_python3.py:1211-1212 | an approximate lookup in a non-empty table always finds the entry with pred.pc_offset < target <= entry.pc_offset |
| PcDescs.SlotScan | gdb/gdb_utilities_python3.py:1228-1239 | the slot scan returns only a matching slot with no negative slot before it, and NULL only when no slot before the first negative one matches |
| PcDescs.SlotScanHit | gdb/gdb_utilities_python3.py:1228-1239 | a hit of the slot scan is the first slot in index order that matches, with no slot of negative pc_offset at or before it |
| PcDescs.SlotScanFindsFirst | gdb/gdb_utilities_python3.py:1228-1239 | the slot scan returns the first matching slot whenever no slot before it is negative or matches |
| PcDescs.CacheLookup | gdb/gdb_utilities_python3.py:1221-1239 | PcDescCache.find_pc_desc is NULL without last_pc_desc, returns last when it matches, and otherwise returns only a matching slot |
| PcDescs.CacheLookupHit | gdb/gdb_utilities_python3.py:1221-1239 | when last_pc_desc misses, a cache hit is the first matching slot in index order before any negative one |
| PcDescs.CacheLookupFindsFirst | gdb/gdb_utilities_python3.py:1221-1239 | when last_pc_desc misses and some slot before the first negative one matches, the cache returns the first such slot, so NULL means none matches |
| PcDescs.FindInCache | gdb/gdb_utilities_python3.py:1221-1239 | the slot loop computes the cache's answer and never writes the cache |
| PcDescs.CacheHitInTable | gdb/gdb_utilities_python3.py:1221-1239 | a cache hit is an entry of the table |
| PcDescs.CacheCoherent | gdb/gdb_utilities_python3.py:1141-1145 | in a well-formed table a cache hit is the entry the table assigns to the pc, so the cache cannot change the answer |
| PcDescs.NeighboursFirstAtLeast | gdb/gdb_utilities_python3.py:1180-1186 | when the walk ends with two neighbours around the target, the upper one is the first entry at or above it |
| PcDescs.FallbackAnswer | gdb/gdb_utilities_python3.py:1189-1192 | match_desc on the final upper gives the table's answer |
| PcDescs.Narrow | gdb/gdb_utilities_python3.py:1162-1186 | steps 512, 64, 8 and the linear walk keep lower < target <= upper and end with upper == lower + 1 |
| PcDescs.SearchTable | gdb/gdb_utilities_python3.py:1147-1192 | the fallback returns only entries match_desc accepts, always finds one when approximate, and in a well-formed table returns the table's answer |
| PcDescs.FindPcDescInternal | gdb/gdb_utilities_python3.py:1133-1192 | NULL outside [base, base + 0x7FFFFFFF); otherwise the cache's or the search's matching entry; in a well-formed table the table's answer |
| PcDescs.EarlyHitAnswer | gdb/gdb_utilities_python3.py:1193-1197 | for a pc in range the last_pc_desc shortcut does not change the answer |
| PcDescs.EarlyHitOutOfRange | gdb/gdb_utilities_python3.py:1193-1197 | outside the range the shortcut can only return a sentinel: the first one at offset -1, the last one at 0x7FFFFFFF |
| PcDescs.FindPcDesc | gdb/gdb_utilities_python3.py:1193-1197 | find_pc_desc returns last_pc_desc when its offset is pc - instructions_begin, before any range check and whatever the flag; otherwise find_pc_desc_internal |
| PcDescs.PcDescAt | gdb/gdb_utilities_python3.py:1198-1203 | pc_desc_at with its approximate retry: in range it is the approximate answer, never NULL in a non-empty table |
| Inlining.OopAt | gdb/gdb_utilities.py:513-521 | oop_at(0) is NULL and oop_at(k) is element k-1 of the `oop*` array oops_begin yields; any other index is off the array |
| Inlining.ScopeAt | gdb/gdb_utilities.py:566-571 | a decoded scope is three unsigned ints read one after the other at scopes_data_begin + offset: the next offset, the oops index of its Method (non-NULL) and the stored bci, with bci = stored - 1 legal and the line line_number_from_bci gives for it; a first read off the image is a memory error |
| Inlining.ScopeRecordRoundTrip | gdb/gdb_utilities.py:566-571 | a record holding the encodings of next, k and bci + 1 reads back as the frame of oops[k-1] at bci with its line, and next |
| Inlining.MethodOfRecord | gdb/gdb_utilities.py:569 | oops index 0 makes methodOop(NULL), which GdbValWrapper refuses at lines 218-222 (NullMethod); an oops element that is 0 is a gdb.Value, and methodOop's read of `_constants` through it is a memory error |
| Inlining.ScopeAtAsWritten | gdb/gdb_utilities_python3.py:1006-1010 | the scope read as written never yields a frame: Method is handed NULL for oops index 0 and an oopDesc object for any other index, and refuses both |
| Inlining.WalkFromAsWritten | gdb/gdb_utilities_python3.py:1004-1012 | definition of the as-written loop's result: no frame at offset 0, otherwise the failure of its first scope; AsWrittenWalkFails states its meaning |
| Inlining.AsWrittenWalkFails | gdb/gdb_utilities_python3.py:1004-1010 | from every non-zero offset the as-written loop raises on its first scope; once that scope's first two ints read, the failure is NullMethod for oops index 0 and NotAnAddress for any other index |
| Inlining.AsWrittenRefusesEveryMethod | gdb/gdb_utilities_python3.py:1122 | on every record the compiler writes for a Method (oops index k >= 1) the as-written loop raises NotAnAddress, where the corrected reader yields the frame of oops[k-1] at that bci |
| Inlining.WalkFrom | gdb/gdb_utilities.py:565-573 | definition of the frame loop's result under a fuel bound; its meaning is stated by WalkIsChain and WalkScopes computes it |
| Inlining.WalkIsChain | gdb/gdb_utilities.py:565-571 | the walk yields exactly one frame per non-zero offset of the chain, in chain order, and stops at offset 0 |
| Inlining.WalkFuelMonotonic | gdb/gdb_utilities.py:566 | the fuel bound does not change a walk that fits in it |
| Inlining.DebugInfoReadStream.constructor | gdb/gdb_utilities_python3.py:1089-1092 | the stream reads the scopes data from the offset given |
| Inlining.DebugInfoReadStream.ReadBci | gdb/gdb_utilities_python3.py:1093-1094 | read_bci is the unsigned int read plus InvocationEntryBci (-1) |
| Inlining.ReadScope | gdb/gdb_utilities.py:567-571 | one turn of the frame loop computes the scope's frame and the enclosing offset |
| Inlining.WalkScopes | gdb/gdb_utilities.py:565-573 | the frame loop yields the chain's frames, or the first failure on the way |
| Inlining.NMethodFor | gdb/gdb_utilities.py:552-554 | definition: the blob find_blob_unsafe returns when is_nmethod holds, taken as_nmethod, and NULL otherwise; InliningAt's ensures state its use |
| Inlining.InliningAt | gdb/gdb_utilities.py:550-575 | NULL without an nmethod at pc, including where the script as written raises in find_blob_unsafe; otherwise the frames of a PcDesc that is an entry of the nmethod's table; for a pc in range of a well-formed table that PcDesc is the approximate one for pc (the first entry at or above its offset) |

## Findings

| source | as written | input that shows it | evidently intended | confidence | as-written member | corrected member |
|---|---|---|---|---|---|---|
| gdb/gdb_utilities_python3.py:1060 (also gdb/gdb_utilities.py:621) | `lg_H_i += lg_H` uses a bare name that only exists as the class attribute `CompressedStream.lg_H`, so read_int_mb raises NameError once b_1 is a high code | bytes C0 C0 00 (the integer 12480, or any value of 12480 or more) | `lg_H_i += CompressedStream.lg_H`: the shift grows by 6 per byte | high, not executed | CompressedStreams.AsWrittenCounterexample | CompressedStreams.EncodeUnsignedRoundTrip |
| gdb/gdb_utilities_python3.py:972 (also gdb/gdb_utilities.py:533) | `CodeBlob(_heap.find_start(start))` wraps find_start's result. On failure that result is the int 0 (line 918) or the `NULL` wrapper (lines 924, 931), and `GdbValWrapper.__init__` (lines 301-303) raises for anything that is not a `gdb.Value`. So the `result != NULL` test at line 974 and the `blob == NULL` test at line 992 are never reached for them | any pc outside the code heap, e.g. address 0x800 below a heap at 0x1000 | find_blob_unsafe and NM_print_inlining_at return NULL | high, not executed | CodeHeaps.BlobForAsWritten | CodeHeaps.FindBlobUnsafe |
| gdb/gdb_utilities_python3.py:1122 (type at line 189) | `oops_begin` casts to `oopDesc_tpp`, which line 189 looks up as `oopDesc*` although its comment says `oopDesc**`. So `oop_at(k)` for k other than 0 (lines 952-960) is an `oopDesc` object, not an address, and `Method(...)` at line 1008 raises at lines 304-305 before anything is read. Index 0 gives `Method(NULL)`, which lines 301-303 refuse. The frame loop raises on its first scope | any scope record whose oops index is k >= 1, i.e. every record the compiler writes for a Method | oops_begin yields `oop*`, as gdb/gdb_utilities.py:682-684 does, and the loop prints one frame per scope | high, not executed | Inlining.AsWrittenRefusesEveryMethod | Inlining.ScopeRecordRoundTrip |

The rest of the model uses the corrected reader `CompressedStreams.ReadIntAt`,
the corrected lookup `CodeHeaps.BlobFor` and the corrected scope read `Inlining.ScopeAt`.

## Left out

- gdb itself: the command and function wrappers, printing, `extended_str`, symbol and
  constant-pool rendering, and the type and field lookups. Struct fields are record
  fields, and the memory is a byte sequence.
- `is_nmethod`: it compares a name string in the target. Here a blob is an nmethod when
  `nmethods` has an entry at its address.
- CompressedStreams.ReadIntMbFrom: does not model the 32-bit wrap of the `jint` sum
  (mathematical integers). `ReadIntAtBound` bounds the sum instead.
- CompressedStreams.DecodeSign: takes its argument modulo 2^32, as the cast to `juint`
  does.
- The writer side is HotSpot's `CompressedWriteStream`, not code of the scripts. It is
  modelled only as a reference encoding for the round-trip lemmas: `EncodeUnsigned` for
  `write_int`, and zig-zag encoding for `encode_sign`. The line-number table writer's
  choice between the one-byte and the escaped pair form is not modelled. The round trip
  is proved for each form separately.
- LineNumbers.LineAtMeaning: characterises the answer only when the whole table can be
  read. A table that leaves the image after the exact pair still yields that pair's line
  (`ScanFrom`); one that leaves it before yields a memory error.
- PcDescs.FindPcDescInternal: for unsorted tables, states only that any result is an entry
  match_desc accepts, not which one.
- The `int_t` cast of the pc offset: the offset is below 0x7FFFFFFF after the range check,
  so the cast never wraps.
- Inlining.WalkScopes: the scope chain is assumed acyclic. A ghost fuel bounds it, and the
  source would loop forever on a cycle.
- Inlining.OopAt: an index past the oops array reads memory this model does not hold and
  is reported as a memory error.
- Concurrent mutation of the PcDesc cache by a live target: the model reads one snapshot.
