# NAeP core, modelled in Dafny

NAeP converts Wwise audio to Ogg Vorbis. It takes `.wem` streams, `.wsp` packs and `.bnk` banks. Before any Vorbis work starts, a wem is parsed as a RIFF tree and its `fmt `, `vorb` and `data` chunks become a `wwise_wem`. The packet headers are rebuilt from a codebook library, which is an offset table over serialized codebooks. Packs and banks are scanned for embedded RIFFs. A pack's scan can be narrowed by a stream filter such as `-white 1,3`. The command line is parsed into input files, libraries and per-file options. This project models that core and proves properties of it: the pure parts as functions and lemmas, the parts that update structures in place as classes and methods proved against those functions.

One module per source file:

| module | source |
|---|---|
| `TestMatrix` | `T.py`: walk listing → categories → command matrix |
| `CodebookLibrary` | `src/codebook_library.c` |
| `Riff` | `src/riff.c` |
| `RiffScan`, `RiffList`, `WspMeta` | `src/rifflist.c`, `src/wsp_meta.c` |
| `Wwise` | `src/wwise.c` |
| `ProcessWem` | `src/process_wem.c` |
| `BitStream` | `src/bitstream.c`, `src/bitstream.h` |
| `NeFilter` | `src/nefilter.c` |
| `Fcc` | `src/nefcc.c`, and `fcccmp` of `src/neutil.c` |
| `NumUtil`, `LibUtil` | `src/lib.c`, `src/common_lib.c`, `src/common.c` |
| `CommonInput` | `src/common_input.c` |
| `NePathModel` | `src/nepath.c` |
| `InputArgs` | `src/input.c` |
| `NeInputState` | `src/neinput.c` |
| `ProcessArgs` | `src/process.c` |
| `MainArgs` | `src/main.c` |
| `NeArgDetect`, `NeMisc`, `NeLibrary`, `NeStr`, `NeLogging` | `src/NeArg.c` and `src/common/Ne*.c` |
| `Bytes`, `Wrappers`, `Errors` | shared byte and word helpers, `Option`/`Result`, error constants |

The repository has several copies of some logic. Each is modelled once, and the table below cites every copy:
- The stream filter of `nefilter.c` also appears in `neutil.c` (lines 105-167).
- `count_ones`, `count_bits`, `lookup1_values`, `replace_ext`, `cstr_compare` and `strerr` appear in `lib.c`, `common_lib.c` and `common.c`.
- The library loading of `common.c` also appears in `common_input.c`.
- The fourcc helpers of `nefcc.c` also appear as `neutil.c`'s `fcccmp`.
- The option tables of `input.c`, `neinput.c` and `process.c` share lookup and sign-folding code.
- `main.c`'s `getargbyarg` is the same loop as `NeArg.c`'s `NeFindArg`.

Where the headers and the `.c` files disagree, the model follows the `.c` files. This covers the field names in `riff.h`, the comments in `wwise.h`, the enum names in `NeLogging.h`, and `nepath.h`'s claim that the first match is returned: `nepath.c` returns the last one. Behaviour that the C leaves undefined is excluded by a `requires`, which names the condition. C's fixed-width arithmetic is written out explicitly: 32-bit size words, 64-bit bit counters, the 32-bit `NeSz` and the 14-bit `load_error` field.

## Model

| member | source | states |
|---|---|---|
| TestMatrix.PathOf | T.py:22 | the path of a walked name is "test/" followed by the name, whatever directory the walk found it in |
| TestMatrix.Sort | T.py:20 | `sorted(fs)` yields a permutation of the directory's names |
| TestMatrix.SortSorted | T.py:20 | `sorted(fs)` yields the names in lexicographic order |
| TestMatrix.InsertSorted | T.py:20 | inserting a name into a sorted list keeps it sorted (the step of the sort) |
| TestMatrix.Visited | T.py:19-20 | the names in visiting order are exactly the walked names, as a multiset |
| TestMatrix.FilterPartition | T.py:24-29 | the five lists together hold every walked path once: the if/elif chain is a partition |
| TestMatrix.KindsCover | T.py:24-29 | exactly one of the five kinds is the kind of a name |
| TestMatrix.BucketsPartitionWalk | T.py:19-29 | the five lists' lengths add up to the number of walked files, and their union is the walked paths |
| TestMatrix.FilterMembers | T.py:21-29 | every entry of a list is "test/<name>" for a walked name of that list's kind |
| TestMatrix.UnknownGoesToAuto | T.py:21-24 | a name starting with "unknown" in any ASCII letter case goes to the auto list, whatever its suffix |
| TestMatrix.Invocations | T.py:31-78 | one invocation per path of a list |
| TestMatrix.FlagsNotFromTable | T.py:34-75 | a flag list only holds flags of its own table |
| TestMatrix.FlagsBit | T.py:41-75 | table entry n is among the flags of file i exactly when bit n of i is set |
| TestMatrix.FlagsPeriodic | T.py:41-75 | the flag pattern of a list repeats every 2^(table size) files |
| TestMatrix.BitsDiffer | T.py:41-75 | two different indices below 2^w differ in some bit below w |
| TestMatrix.FlagsDistinct | T.py:41-75 | the first 2^(table size) files of a list get pairwise different flag lists: every combination occurs |
| TestMatrix.FlagsSnoc | T.py:41-75 | reading the table front to back appends entry m exactly when bit m is set |
| TestMatrix.OverlayCycle | T.py:80-88 | odd positions get (i/2) mod 6 "-q"; even positions cycle through "-d -c", "-Q", "-d", "-Q -c" with period 8, starting with "-d -c" because Python's -1 has every bit set |
| TestMatrix.CommandWithoutFiles | T.py:94 | with no files the command is the program name and a space |
| TestMatrix.InvocationCount | T.py:31-78 | one invocation per walked file |
| TestMatrix.InvocationShape | T.py:31-78 | every invocation is a type token, its flags and a walked path, the path last |
| TestMatrix.InvocationsNonEmpty | T.py:31-78 | every invocation holds at least its type token |
| TestMatrix.Place | T.py:21-29 | appending a name's path to the list its name, folded in ASCII letter case, selects, the other lists unchanged |
| TestMatrix.PlaceAll | T.py:20-29 | placing a directory's names extends every list by the names of its kind, in order |
| TestMatrix.Classify | T.py:19-29 | the lists after the walk are the walked names of each kind (names folded in ASCII letter case), directory by directory in sorted order |
| TestMatrix.BucketFields | T.py:8-13 | the five lists of the tuple, field by field |
| TestMatrix.OggFlags | T.py:34 | the flags of the i-th ogg are "-ri" when i is odd |
| TestMatrix.WeemFlags | T.py:41-43 | the flags of the i-th weem are the table entries whose bit is set in i |
| TestMatrix.WispFlags | T.py:50-53 | the flags of the i-th wisp are the table entries whose bit is set in i |
| TestMatrix.BankFlags | T.py:60-75 | the flags of the i-th bank or auto file are the table entries whose bit is set in i |
| TestMatrix.AppendInvocations | T.py:31-78 | the list of invocations grows by one invocation per path of a list |
| TestMatrix.OverlayArgs | T.py:81-88 | the overlay tokens of global position i, as OverlayCycle describes them |
| TestMatrix.InsertAfterType | T.py:90 | the overlay tokens go right after the type token, before the file flags |
| TestMatrix.ApplyOverlay | T.py:80-90 | every invocation gets the overlay tokens of its position |
| TestMatrix.JoinCommand | T.py:92-94 | the command is "./NAeP " and the space-joined invocations |
| TestMatrix.BuildInvocations | T.py:19-78 | the invocations are the lists' files in the order oggs, weems, wisps, banks, autos |
| TestMatrix.Generate | T.py:19-94 | the command the script builds from a walk |
| TestMatrix.LowerChar | T.py:21 | folding one character as `str.lower()` folds ASCII: only capitals change, no capital is left, and a character is a letter afterwards exactly when it was one before |
| TestMatrix.Lower | T.py:21 | `f.lower()` on ASCII letters: the name folded character by character, length kept |
| TestMatrix.KindOf | T.py:21-29 | a bucket other than auto means the name ends in that bucket's extension (".ogg", ".wem", ".wsp", ".bnk") in any ASCII letter case, so its fourth-last character is a dot, and does not start with "unknown" |
| TestMatrix.Flags | T.py:41-75 | the flags picked from a table are no more than the table; index 0 picks none and index 2^n - 1 picks the whole table of n entries |
| TestMatrix.LexLeqTotal | T.py:20 | any two names are ordered one way or the other by Python's string order |
| TestMatrix.LexLeqTrans | T.py:20 | Python's string order is transitive |
| CodebookLibrary.Serialized | src/codebook_library.c:118-142 | the current layout is 4 bytes per codebook of offset table followed by all codebook bytes |
| CodebookLibrary.SerializedDeprecated | src/codebook_library.c:93-117 | the deprecated layout is all codebook bytes followed by 4 bytes per codebook of end offsets |
| CodebookLibrary.OffsetTable | src/codebook_library.c:133-137 | the offset table holds one 32-bit word per codebook |
| CodebookLibrary.EndTable | src/codebook_library.c:108-113 | the end table holds one 32-bit word per codebook |
| CodebookLibrary.FillBack | src/codebook_library.c:78-90 | the backward copy loop keeps the number of codebooks |
| CodebookLibrary.FillFront | src/codebook_library.c:44-58 | the forward copy loop keeps the number of codebooks and counts the ones it copied |
| CodebookLibrary.TrailerCount | src/codebook_library.c:38 | (data_size - last_end) / 4 fits in 32 bits and its table fits after last_end |
| CodebookLibrary.TrailerCountExact | src/codebook_library.c:38 | a trailer of exactly n words gives count n |
| CodebookLibrary.FillFrontStep | src/codebook_library.c:44-58 | one pass of the forward loop copies data[start..end] into codebook i |
| CodebookLibrary.Grown | src/codebook_library.c:44 | codebook_count grows modulo 2^32 |
| CodebookLibrary.GrownSucc | src/codebook_library.c:44 | each `++codebook_count` adds one modulo 2^32 |
| CodebookLibrary.EmptyLibraryNotReadable | src/codebook_library.c:33-68 | an empty library serializes to no bytes, which neither reader accepts (fewer than 4 bytes is an error) |
| CodebookLibrary.OffsetTableAt | src/codebook_library.c:133-137 | word i of the offset table is 4*count plus the sizes of the codebooks before i, modulo 2^32 |
| CodebookLibrary.EndTableAt | src/codebook_library.c:108-113 | word i of the end table is the sizes of codebooks 0..i, modulo 2^32 |
| CodebookLibrary.OffsetTableAtSmall | src/codebook_library.c:133-137 | below 2^32 the offset words are exact |
| CodebookLibrary.EndTableAtSmall | src/codebook_library.c:108-113 | below 2^32 the end words are exact |
| CodebookLibrary.SerializedEntry | src/codebook_library.c:118-142 | each codebook's offset word and bytes sit where the reader looks for them |
| CodebookLibrary.SerializedWord | src/codebook_library.c:133-137 | offset word j of a serialized library is the start of codebook j |
| CodebookLibrary.SerializedSlice | src/codebook_library.c:136 | the bytes of codebook j follow the offset table at its offset |
| CodebookLibrary.FillBackSerialized | src/codebook_library.c:78-90 | the backward loop over a serialized library rebuilds codebooks i.. from the end |
| CodebookLibrary.FillBackStep | src/codebook_library.c:79-89 | one backward pass copies data[start..end] into codebook i-1 |
| CodebookLibrary.DeserializedFits | src/codebook_library.c:61-92 | when the first word is 4n and the loop succeeds, the reader succeeds with n codebooks |
| CodebookLibrary.FillBackAll | src/codebook_library.c:78-90 | the backward loop over a serialized library rebuilds every codebook |
| CodebookLibrary.RoundTrip | src/codebook_library.c:61-142 | reading back a serialized library (below 4 GiB, at least one codebook) gives the same codebooks and count |
| CodebookLibrary.SerializedDeprecatedEntry | src/codebook_library.c:93-117 | each codebook's end word and bytes sit where the deprecated reader looks for them |
| CodebookLibrary.SerializedDeprecatedWord | src/codebook_library.c:108-113 | end word j of a deprecated library is the end of codebook j |
| CodebookLibrary.SerializedDeprecatedSlice | src/codebook_library.c:110 | the bytes of codebook j sit at the sum of the sizes before it |
| CodebookLibrary.FillFrontSerialized | src/codebook_library.c:44-58 | the forward loop over a deprecated library rebuilds codebooks ..i |
| CodebookLibrary.DeprecatedTrailerFits | src/codebook_library.c:26-60 | when the last word points at a table of n words and the loop succeeds, the deprecated reader succeeds |
| CodebookLibrary.FillFrontAll | src/codebook_library.c:44-58 | the forward loop over a deprecated library rebuilds every codebook |
| CodebookLibrary.LastTrailerWord | src/codebook_library.c:35 | the last word of a deprecated library is the total codebook size, where the end table starts |
| CodebookLibrary.SerializedDeprecatedTrailer | src/codebook_library.c:35-112 | the last word of a serialized deprecated library is the start of its end table |
| CodebookLibrary.SerializedDeprecatedFills | src/codebook_library.c:44-58 | the forward loop rebuilds every codebook of a serialized deprecated library |
| CodebookLibrary.RoundTripDeprecated | src/codebook_library.c:26-117 | reading back a deprecated library gives the same codebooks; the count grows from its old value modulo 2^32, since the reader never resets it |
| CodebookLibrary.FirstOffsetBeyondData | src/codebook_library.c:71-72 | a first offset past the data is reported as corrupt and changes nothing |
| CodebookLibrary.DecreasingOffsetIsCorrupt | src/codebook_library.c:81-82 | an offset that goes backwards is reported as corrupt |
| CodebookLibrary.Library.constructor | src/codebook_library.h:33-36 | a zeroed library: no codebooks |
| CodebookLibrary.Library.Clear | src/codebook_library.c:143-157 | clearing leaves no codebooks and a zero count |
| CodebookLibrary.Library.Deserialize | src/codebook_library.c:61-92 | the reader's result and new state are Deserialized of the data and the old state |
| CodebookLibrary.Library.DeserializeDeprecated | src/codebook_library.c:26-60 | the deprecated reader's result and new state are DeserializedDeprecated of the data and the old state |
| CodebookLibrary.Library.CopyForward | src/codebook_library.c:44-58 | the forward copy loop's result, codebooks and count are FillFront's |
| CodebookLibrary.Library.Serialize | src/codebook_library.c:118-142 | a missing output is an error; otherwise the bytes are Serialized of the held codebooks |
| CodebookLibrary.Library.SerializeDeprecated | src/codebook_library.c:93-117 | a missing output is an error; otherwise the bytes are SerializedDeprecated of the held codebooks |
| CodebookLibrary.Deserialized | src/codebook_library.c:61-92 | missing data or fewer than 4 bytes is the error, which leaves the codebooks and count unchanged; success leaves first-word / 4 codebooks |
| CodebookLibrary.DeserializedDeprecated | src/codebook_library.c:26-60 | missing data or fewer than 4 bytes is the error, which leaves the library unchanged; success grows the count by the codebooks read, modulo 2^32 |
| Riff.Fcc | src/riff.c:33-36 | a four-character code is four bytes |
| Riff.FirstMatch | src/riff.c:86-121 | the 1-based position of the first table entry equal to the code, 0 exactly when the code is not in the table |
| Riff.GetType | src/riff.c:86-121 | the four table lookups answer FirstMatch of their table |
| Riff.FirstMatchIs | src/riff.c:86-121 | a matching position with no match before it is the lookup's answer |
| Riff.DetermineByteOrder | src/riff.c:71-85 | the byte order is the position of the root code among RIFF, RIFX, XFIR, FFIR, or unrecognised |
| Riff.RootsFirstMatch | src/riff.c:71-85 | each of the four root codes names its own byte order and any other code none |
| Riff.Oriented | src/riff.c:52-65 | the copy keeps the length, reversed for reversing byte orders |
| Riff.OrientedTwice | src/riff.c:52-65 | reversing twice restores the bytes |
| Riff.Word | src/riff.c:241-343 | a 32-bit word read in the riff's byte order is below 2^32 |
| Riff.CcAt | src/riff.c:242-342 | a code read in the riff's byte order is four bytes |
| Riff.ShrinkListEnd | src/riff.c:272 | `list_end -= size + 8` stays a 64-bit value: the sum wraps at 32 bits, the difference at 64 |
| Riff.WordOfWordBytes | src/riff.c:241-343 | a word written in byte order o is read back in byte order o |
| Riff.CcOfCcBytes | src/riff.c:242-342 | a code written in byte order o is read back in byte order o |
| Riff.AddBasicKeepsConsistent | src/riff.c:247-280 | appending a basic chunk keeps the LIST bookkeeping and buffer bounds consistent |
| Riff.AddListKeepsConsistent | src/riff.c:281-302 | opening a LIST keeps the bookkeeping consistent |
| Riff.SetupKeepsConsistent | src/riff.c:214-246 | the root step keeps the bookkeeping consistent |
| Riff.ReadHeaderKeepsConsistent | src/riff.c:336-358 | the chunk-header step keeps the bookkeeping consistent |
| Riff.ConsumeKeepsConsistent | src/riff.c:303-359 | every step keeps the buffer and the LIST bookkeeping consistent |
| Riff.IncompleteChangesNothing | src/riff.c:303-359 | a step that answers INCOMPLETE changes no state |
| Riff.ConsumeCodes | src/riff.c:303-359 | a step answers one of UNRECOGNIZED, CONSUMED, INCOMPLETE, CONSUME_MORE, NOT_RIFF; NOT_RIFF clears the riff and the buffer |
| Riff.FirstStepIsSetup | src/riff.c:214-312 | without a byte order: INCOMPLETE exactly under 4 bytes, NOT_RIFF exactly for an unknown root, otherwise 12 bytes consumed and a byte order set |
| Riff.HeaderRoundTrip | src/riff.c:336-358 | a chunk header written in the riff's byte order is read back as the same code and size; a basic code arms the basic state, a list code the list state, any other code skips header and payload |
| Riff.SetupRoundTrip | src/riff.c:214-246 | a root header written in byte order o sets that byte order, the total size and the form type |
| Riff.BasicAppended | src/riff.c:247-280 | a basic chunk with enough data is appended with its payload and becomes the chunk's index; inside a LIST it is the LIST's newest child |
| Riff.ListOpened | src/riff.c:281-335 | a LIST outside a LIST opens an empty LIST with size - 4 bytes of children to come; a LIST inside a LIST is NOT_RIFF |
| Riff.DataSync.constructor | src/riff.c:138-146 | a new sync is the cleared sync |
| Riff.DataSync.Clear | src/riff.c:138-146 | clearing gives the cleared sync |
| Riff.DataSync.Buffer | src/riff.c:147-173 | drops the consumed prefix, keeps the pending bytes, makes room for size more bytes (growing by BUFF_EXTRA) or clears the sync and answers None when the request is too large |
| Riff.DataSync.Apply | src/riff.c:174-183 | marks size more bytes stored, or answers an error and changes nothing when they would overflow the storage |
| Riff.DataSync.Write | src/process_wem.c:133-135 | the caller's copy replaces exactly the written bytes |
| Riff.DataSync.Feed | src/process_wem.c:129-137 | buffer, read and apply: success appends exactly the bytes read to the pending bytes; failure clears the sync |
| Riff.ChunkInfo.constructor | src/riff.c:123-129 | a new chunk info is the cleared info |
| Riff.ChunkInfo.Clear | src/riff.c:123-129 | clearing gives the cleared info |
| Riff.Riff.constructor | src/riff.c:185-191 | riff_init gives the cleared riff |
| Riff.Riff.Clear | src/riff.c:192-205 | riff_clear gives the cleared riff |
| Riff.Riff.SetupRiff | src/riff.c:214-246 | the code and new states are those of the root step Setup |
| Riff.Riff.AddBasicType | src/riff.c:247-280 | the code and new states are those of AddBasic |
| Riff.Riff.AddListType | src/riff.c:281-302 | the code and new states are those of AddList |
| Riff.Riff.ReadChunkHeader | src/riff.c:336-358 | the code and new states are those of ReadHeader |
| Riff.Riff.ConsumeChunk | src/riff.c:303-359 | the code and new states are those of one Consume step |
| Riff.Setup | src/riff.c:214-246 | the root step answers INCOMPLETE, NOT_RIFF or CONSUME_MORE; CONSUME_MORE consumes the 12 header bytes, sets a byte order and leaves the chunks alone |
| Riff.AddBasic | src/riff.c:247-280 | a basic chunk is CONSUMED: its data bytes are used up, one basic is appended after the old ones and becomes the chunk's index, and the number of LISTs is unchanged |
| Riff.AddList | src/riff.c:281-302 | a LIST chunk is CONSUMED: its 4-byte sub-type is used up, the basics are unchanged, one LIST is appended and becomes the chunk's index |
| Riff.ReadHeader | src/riff.c:336-358 | the header step leaves the chunks alone; INCOMPLETE exactly below 8 stored bytes; CONSUME_MORE uses up 8 bytes and arms exactly one of basic and list; UNRECOGNIZED uses up at least 8 |
| Riff.Consume | src/riff.c:303-359 | a CONSUMED step needs a byte order and an armed chunk and adds exactly one basic or LIST; no step but NOT_RIFF drops a chunk |
| Riff.UnknownChunkOverrunsStore | src/riff.c:353-356 | an unrecognised chunk announcing more bytes than are stored is skipped past them: `consumed` ends beyond `stored` |
| Riff.ReadHeaderIntended | src/riff.c:336-358 | the corrected header step waits until an unrecognised chunk is stored whole, so `consumed` never passes `stored`; every other answer is the header step's |
| RiffList.RiffList.constructor | src/rifflist.c:34 | a new list holds no RIFFs |
| RiffList.RiffList.Clear | src/rifflist.c:75-83 | clearing leaves no RIFFs |
| RiffList.Scan | src/rifflist.c:28-74 | a missing list or buffer, or fewer than 4 bytes, answers -1 and leaves the list alone; otherwise the answer is 0 and the list becomes the RIFFs the scan finds |
| RiffList.ScanBuffer | src/rifflist.c:35-69 | the offset loop collects exactly ScanFrom of the buffer |
| RiffList.ScanWellFormed | src/rifflist.c:36-69 | the RIFFs found are in increasing offset order, lie inside the buffer without overlapping, each starts with a root code and announces its own length, and no root code was passed over between them |
| RiffList.KeptMembers | src/rifflist.c:107-115 | an index is let through exactly when it is below the RIFF count and the filter does not leave it out; an empty filter lets through all of them |
| RiffList.OutcomesSplit | src/rifflist.c:107-160 | every index let through is counted once, as a success or as a failure |
| RiffList.Stat.constructor | src/rifflist.c:117-157 | the assigned, succeeded and failed counters start at zero |
| RiffList.Tally | src/rifflist.c:107-160 | the counters grow by the number of indices let through, and by how many of them succeeded and failed |
| RiffList.Extract | src/rifflist.c:162-212 | a missing argument answers -1 and counts nothing; otherwise every RIFF let through is assigned and counted as extracted or failed, and the answer is 0 |
| RiffList.Convert | src/rifflist.c:92-161 | a missing argument answers -1 and counts nothing; otherwise every RIFF let through is assigned and counted as converted or failed, and the answer is 0 |
| WspMeta.WspMeta.constructor | src/wsp_meta.c:72-78 | a new WSP lists no WEMs |
| WspMeta.WspMeta.Clear | src/wsp_meta.c:72-78 | clearing lists no WEMs |
| WspMeta.Init | src/wsp_meta.c:33-71 | a missing WSP answers I_GENERIC_ERROR; a missing buffer or fewer than 4 bytes I_INSUFFICIENT_DATA; otherwise the WEMs found are appended to those listed and the answer is I_SUCCESS, also when the scan stopped at an overrunning WEM |
| WspMeta.InitWellFormed | src/wsp_meta.c:42-69 | every WEM listed lies inside the buffer behind its own root code, announces its own length, and the WEMs follow each other in offset order without overlap |
| WspMeta.State.constructor | src/wsp_meta.c:82-164 | the four WEM counters start at zero |
| WspMeta.SuccessesBounds | src/wsp_meta.c:82-164 | there are no more successes than attempts, none exactly when every attempt failed, all exactly when every attempt succeeded |
| WspMeta.WalkStatus | src/wsp_meta.c:123-125 | the walks answer I_GENERIC_ERROR exactly when nothing succeeded |
| WspMeta.ConvertWems | src/wsp_meta.c:82-126 | a missing buffer answers I_INSUFFICIENT_DATA, any other missing argument I_GENERIC_ERROR, counting nothing; otherwise every WEM is due for conversion, the converted ones are counted, and the answer is I_GENERIC_ERROR exactly when none was converted |
| WspMeta.ExtractWems | src/wsp_meta.c:127-164 | as ConvertWems, with the written WEMs counted as extracted |
| RiffScan.CcByteOrderAgrees | src/rifflist.c:40 | the scanners recognise the same root codes, with the same byte orders, as the RIFF reader |
| RiffScan.SizeAt | src/rifflist.c:46-51 | the size word after a root code is a 32-bit unsigned value, byte-swapped for RIFX and FFIR |
| RiffScan.SizeAtIsWord | src/rifflist.c:46-51 | the scanners' size word is the RIFF reader's word at the same place |
| RiffScan.RootBytes | src/riff.c:71-85 | the four bytes spelling a byte order's root code name that byte order |
| RiffScan.StepAt | src/rifflist.c:36-68 | one pass: no root code moves on by one byte, an announced length past the buffer stops the scan, anything else is an embedded RIFF |
| RiffScan.StepEntry | src/rifflist.c:53-64 | a RIFF found at p starts with a root code and fits in the buffer |
| RiffScan.ScanFound | src/rifflist.c:64-68 | after a RIFF found at p the scan goes on at its end |
| RiffScan.ScanSkip | src/rifflist.c:40-43 | past a position without a root code the scan goes on at the next byte |
| RiffScan.ScanIntoFoundStep | src/rifflist.c:59-68 | the loop's view of a RIFF found at p |
| RiffScan.ScanAppendStop | src/rifflist.c:54-57 | a scan that stops adds nothing |
| RiffScan.ScanIntoAppends | src/rifflist.c:36-69 | collecting as the loop does yields the collected prefix followed by the scan from p |
| RiffScan.ScanIntoSkip | src/rifflist.c:40-43 | the skip step of the collecting loop |
| RiffScan.ScanIntoFound | src/rifflist.c:59-68 | the record step of the collecting loop |
| RiffScan.ScanOne | src/rifflist.c:37-68 | one pass of the scan loop skips a byte, records a RIFF and jumps over it, or stops, as StepAt says |
| RiffScan.LayoutSkip | src/rifflist.c:40-43 | a position without a root code extends the stretch before the next RIFF |
| RiffScan.LayoutFound | src/rifflist.c:59-68 | a RIFF at p heads the layout from p |
| RiffScan.ScanLayout | src/rifflist.c:36-69 | every RIFF the scan reports is real and no root code is missed in the stretches walked over |
| RiffScan.ScanLayoutSkip | src/rifflist.c:40-43 | the skip step of ScanLayout |
| RiffScan.ScanLayoutFound | src/rifflist.c:59-68 | the record step of ScanLayout |
| RiffScan.LayoutOrdered | src/rifflist.c:36-69 | a layout is in increasing offset order, without overlap, starting at or after p |
| RiffScan.ScanBelowLimit | src/rifflist.c:36 | every RIFF reported starts below the loop bound |
| RiffScan.SingleRiff | src/rifflist.c:36-69 | a buffer holding one RIFF of any byte order and nothing else scans back to that one RIFF |
| RiffScan.RiffListSizeWraps | src/rifflist.c:53-68 | a size word of 0xFFFFFFF8 wraps the 32-bit length to 0: the as-written pass records an empty RIFF and stays where it is; the pass without wrap-around stops |
| RiffScan.RiffListStepsAgree | src/rifflist.c:53-68 | below 0xFFFFFFF8 the as-written pass and the pass without wrap-around agree |
| RiffScan.WspOffsetWraps | src/wsp_meta.c:55-67 | a RIFF at offset 4 announcing 0xFFFFFFF4 bytes passes the wrapped bound check and is recorded; the as-written loop sets its 32-bit offset back to 0 while the read pointer moves past the end of the buffer (undefined); the pass without wrap-around stops |
| RiffScan.WspStepsAgree | src/wsp_meta.c:55-67 | while offset plus length stays below 2^32 the as-written pass and the pass without wrap-around agree |
| RiffScan.ScanFromBounds | src/rifflist.c:36-69 | the scan reports RIFFs at or after its start, and no more of them than one per 8 bytes from there to the end |
| RiffScan.RiffListStepAsWritten | src/rifflist.c:40-68 | one as-written pass: a position without a root code is skipped; a reported RIFF starts there and ends inside the buffer, its length a 32-bit value |
| RiffScan.WspStepAsWritten | src/wsp_meta.c:43-60 | one as-written pass: a position without a root code is skipped; a reported WEM starts there, but only its end reduced modulo 2^32 is checked against the buffer |
| RiffScan.WspNextAsWritten | src/wsp_meta.c:44-67 | the next offset is a 32-bit value; a stop stays put, and a WEM whose end stays below 2^32 moves the offset to that end |
| Wwise.Padded | src/wwise.c:37-38 | the first n bytes of the data, completed with zeros, as memcpy into a zeroed structure leaves them |
| Wwise.InitVorb | src/wwise.c:23-46 | a vorb of any size but 42 keeps its earlier mod_signal |
| Wwise.ImplicitBytes | src/wwise.c:26-35 | a writer's 42-byte implicit vorb |
| Wwise.ExtraBytes | src/wwise.c:36-45 | a writer's 52-byte extra vorb |
| Wwise.WordAt | src/wwise.c:28-33 | a little-endian word written at `at` is read back there |
| Wwise.ImplicitRoundTrip | src/wwise.c:26-35 | reading back an implicit vorb gives every field |
| Wwise.ExtraRoundTrip | src/wwise.c:36-45 | reading back an extra vorb gives every field but mod_signal, which keeps its earlier value |
| Wwise.ExtraReadsPadded | src/wwise.c:37-38 | a vorb of any size but 42 is read as if zero-padded or cut to 52 bytes |
| Wwise.Overlay | src/wwise.c:47-51 | memcpy of min(size, sizeof fmt) bytes: the fmt takes the chunk's bytes where it has them and keeps the rest |
| Wwise.Visit | src/wwise.c:59-82 | one pass keeps the fmt 66 bytes long |
| Wwise.Walk | src/wwise.c:58-83 | the loop keeps the fmt 66 bytes long |
| Wwise.WwiseWem.constructor | src/wwise.c:88-94 | a new WEM is the zeroed WEM |
| Wwise.WwiseWem.Clear | src/wwise.c:88-94 | clearing gives the zeroed WEM |
| Wwise.WemInit | src/wwise.c:52-87 | WEM_ERROR for a missing argument; otherwise the answer and the WEM are those of the walk over the chunks |
| Wwise.DuplicateSticks | src/wwise.c:61-78 | once a header repeats, later chunks change nothing |
| Wwise.Count | src/wwise.c:58-83 | a chunk count is at most the number of chunks |
| Wwise.VorbSources | src/wwise.c:65-75 | the vorb sources (vorb chunks and fmt chunks of at least 66 bytes) are at most the number of chunks |
| Wwise.WalkCounts | src/wwise.c:52-87 | the walk finds a duplicate exactly when an fmt, a data chunk or a vorb source appears twice; otherwise each flag says its header appeared exactly once |
| Wwise.WemInitClassified | src/wwise.c:52-87 | WEM_DUPLICATE exactly when a header repeats, WEM_SUCCESS exactly when fmt, vorb source and data each appear once, WEM_INCOMPLETE otherwise |
| Wwise.WalkData | src/wwise.c:76-82 | without a duplicate the WEM's data is a data chunk's, or unchanged when there is none |
| ProcessWem.VorbTypeOf | src/process_wem.c:179-184 | 42 bytes is implicit, fewer than 50 basic, otherwise extra |
| ProcessWem.FmtVorb | src/process_wem.c:167 | the vorb union inside the fmt is 52 bytes |
| ProcessWem.Take | src/process_wem.c:161-200 | one pass keeps the WEM's sizes valid |
| ProcessWem.Intakes | src/process_wem.c:160-201 | the loop keeps the WEM's sizes valid |
| ProcessWem.InitWem | src/process_wem.c:156-203 | the WEM becomes that of the walk; the answer is always I_SUCCESS |
| ProcessWem.First | src/process_wem.c:163-194 | the position of the first chunk of a kind, with no chunk of that kind before it |
| ProcessWem.Expected | src/process_wem.c:156-203 | the first fmt over the fmt; the fmt's vorb (implicit) when that fmt is at least 66 bytes, else the first vorb chunk typed by its size; the first data chunk |
| ProcessWem.IntakesFirst | src/process_wem.c:160-201 | whatever the order of chunks, the walk ends in the order-free description Expected: later fmt, vorb and data chunks only warn |
| ProcessWem.TakeExpected | src/process_wem.c:161-200 | one more chunk moves the description along |
| ProcessWem.AgreesWithWwise | src/process_wem.c:156-203 | where wwise_wem_init finds no duplicate, i_init_wem sets the same flags and keeps the same fmt bytes and data chunk |
| ProcessWem.AgreesStep | src/process_wem.c:161-200 | one chunk keeps the two walks in step |
| ProcessWem.Decide | src/process_wem.c:110-128 | CONSUMED ends with I_SUCCESS, CONSUME_MORE and UNRECOGNIZED go on, INCOMPLETE at end of file ends with I_SUCCESS or I_FILE_TRUNCATED as the chunk size is zero or not |
| ProcessWem.ConsumeNextChunk | src/process_wem.c:104-140 | the answer of the first deciding turn |
| ProcessWem.ConsumeNextChunkSucceeds | src/process_wem.c:104-140 | the loop reports success exactly when its deciding turn is a consumed chunk or end of file between chunks; every other deciding turn is a negative code |
| ProcessWem.FirstDecidedAt | src/process_wem.c:110-138 | the first deciding turn gives the answer |
| BitStream.New | src/bitstream.h:37 | a bit count splits into whole bytes and a bit below 8 |
| BitStream.Bits | src/bitstream.h:38 | a position stands for 8 bits per byte plus its bit |
| BitStream.BitplotRoundTrip | src/bitstream.h:37-38 | a bit count survives the trip through a bitplot, and a bitplot through its bit count |
| BitStream.Wrap64 | src/bitstream.h:39-40 | unsigned 64-bit arithmetic keeps a value below 2^64 |
| BitStream.Add | src/bitstream.h:39 | the sum of two positions in unsigned 64-bit arithmetic |
| BitStream.Sub | src/bitstream.h:40 | the difference of two positions in unsigned 64-bit arithmetic |
| BitStream.SubAdd | src/bitstream.h:39-40 | subtracting a smaller position and adding it back is the identity |
| BitStream.BitOf | src/bitstream.c:26-27 | bit n of a byte is 0 or 1 |
| BitStream.SetBitBits | src/bitstream.c:28 | setting bit n gives it the new value and keeps the other bits |
| BitStream.BitAt | src/bitstream.c:107-149 | bit j of a byte stream is bit j mod 8 of byte j / 8 |
| BitStream.BitAtByte | src/bitstream.c:107-149 | bit p of byte b is stream bit 8b + p |
| BitStream.BitAtSet | src/bitstream.c:107-149 | setting one bit of one byte changes that bit of the stream only |
| BitStream.CopyOneOut | src/bitstream.c:107-115 | copying one more bit out extends the copied prefix by one |
| BitStream.CopyOneIn | src/bitstream.c:149-157 | copying one more bit in extends the copied prefix by one |
| BitStream.State.constructor | src/bitstream.c:64-71 | a new state has zero length and position |
| BitStream.Check | src/bitstream.c:46-63 | -1 for a missing state or stream or a stream at its end, 0 otherwise |
| BitStream.Init | src/bitstream.c:64-71 | the length becomes bits; the position is left |
| BitStream.Clear | src/bitstream.c:72-78 | clearing zeroes length and position |
| BitStream.Resize | src/bitstream.c:197-204 | as bitstream_init |
| BitStream.Grow | src/bitstream.c:205-216 | -1 and no change when the length would pass 2^64 - 1; otherwise the length grows by bits |
| BitStream.Shrink | src/bitstream.c:217-228 | -1 and no change when bits exceeds the length; otherwise the length shrinks by bits |
| BitStream.Seek | src/bitstream.c:230-244 | past the end clamps to the end and answers 1; otherwise the position becomes bits and the answer is 0 |
| BitStream.SeekUp | src/bitstream.c:245-260 | moves forward by bits, clamped to the end with answer 1; the room is computed in unsigned 64-bit arithmetic, so a position past the end is not clamped |
| BitStream.SeekDown | src/bitstream.c:261-276 | moves back by bits, clamped to the start with answer 1 |
| BitStream.CopyOut | src/bitstream.c:82-123 | ERROR for a missing argument or a stream at its end; 0 bits succeed at once; too few bits left answers INCOMPLETE with the shortfall and changes nothing; otherwise the buffer's first bits become the stream's bits from the position on, its other bits stay, and the position moves by bits |
| BitStream.ShiftOut | src/bitstream.c:104-119 | the byte loop leaves exactly the stream's bits from the position in the buffer's first bits and keeps its other bits |
| BitStream.RunOut | src/bitstream.c:106-116 | one inner loop copies bits until the stream byte, the buffer byte or the request ends |
| BitStream.CopyIn | src/bitstream.c:124-165 | as CopyOut with the stream written: too little room answers TRUNCATED with the shortfall and changes nothing; otherwise the stream's bits from the position on become the buffer's first bits, its other bits stay, and the position moves |
| BitStream.ShiftIn | src/bitstream.c:146-161 | the byte loop writes exactly the buffer's first bits into the stream from the position and keeps its other bits |
| BitStream.RunIn | src/bitstream.c:148-158 | one inner loop copies bits until the stream byte, the buffer byte or the request ends |
| BitStream.OutThenIn | src/bitstream.c:186-189 | a copy out into a buffer followed by a copy in from it transfers the bits from one stream to the other |
| BitStream.Copy | src/bitstream.c:166-195 | ERROR for a missing argument or a stream at its end; 0 bits succeed; otherwise copy_out then copy_in through a zeroed buffer, the first failing answer returned; a TRUNCATED answer leaves the output unchanged but the input position already moved |
| BitStream.Through | src/bitstream.c:181-194 | the copy once the arguments are checked |
| BitStream.FromBuffer | src/bitstream.c:188 | copy_in on arguments known to be present |
| BitStream.CopyChecked | src/bitstream.h:73-81 | every answer other than SUCCESS leaves both streams unchanged, as the header documents; on success the bits are transferred |
| Fcc.Chr | src/nefcc.h:47 | a code built forward holds the characters from byte 0 on |
| Fcc.ChrB | src/nefcc.h:48 | a code built in reverse holds its first character in byte 3 |
| Fcc.Chars | src/nefcc.h:47-48 | the characters a code stands for, in the order it was built |
| Fcc.MemCmp | src/nefcc.c:41-42 | memcmp's sign: the first differing byte decides, compared as unsigned |
| Fcc.Swapped | src/nefcc.c:32-39 | swapping bytes 0/3 and 1/2 reverses the four bytes |
| Fcc.Compare | src/nefcc.c:25-43 | different lengths answer a.n - b.n; differing reversal flags swap b's bytes first; a forward a compares the first n bytes, a reversed a the last n; the same code, without its log line, is at src/neutil.c:87-103 |
| Fcc.CompareZero | src/nefcc.c:25-43 | two codes compare equal exactly when they have the same length and stand for the same characters, whichever way each was built |
| Fcc.CompareReflexive | src/nefcc.c:25-43 | fcccmp(x, x) == 0 |
| Fcc.CompareZeroSymmetric | src/nefcc.c:25-43 | equality under fcccmp does not depend on the order of the arguments |
| Fcc.CharsOfBuilt | src/nefcc.h:47-48 | a code stands for the characters it was built from, forward or in reverse |
| Fcc.ForwardMatchesReverse | src/nefcc.c:32-42 | a forward "RIFF" and a reverse-built "RIFF" compare equal in either order, as do any two codes built from the same characters |
| NumUtil.BitLength | src/lib.c:70-79 | the number of binary digits, 0 for 0 |
| NumUtil.BitLengthBounds | src/lib.c:70-79 | 2^(n-1) <= x < 2^n for the bit length n of x > 0: ilog of section 9.2.1 of the Vorbis I specification |
| NumUtil.BitLengthUnique | src/lib.c:70-79 | the bounds pin the bit length down |
| NumUtil.PopCountAtMostLength | src/lib.c:60-69 | there are no more set bits than binary digits |
| NumUtil.PopCountPowers | src/lib.c:60-69 | 2^k - 1 has k set bits and 2^k has one |
| NumUtil.CountSet | src/lib.c:60-69 | the loop answers the number of set bits; the same code is at src/common_lib.c:56-65 and src/neutil.c:205-214 |
| NumUtil.CountBits | src/lib.c:70-79 | the loop answers the bit length, 0 for a number at most 0; the same loop is at src/common_lib.c:66-75, and at src/neutil.c:216-225 on an unsigned argument |
| NumUtil.PowMonotone | src/lib.c:91-94 | raising to a fixed power keeps order |
| NumUtil.PowAtLeastBase | src/lib.c:91-94 | v <= v^d for d >= 1 |
| NumUtil.RootFrom | src/lib.c:87-104 | the largest v from a start on with v^d <= entries |
| NumUtil.Root | src/lib.c:80-105 | the v with v^d <= entries < (v+1)^d, as section 9.2.3 of the Vorbis I specification defines lookup1_values |
| NumUtil.RootUnique | src/lib.c:95-96 | only one v meets those bounds |
| NumUtil.RootSide | src/lib.c:98-102 | v^d above entries puts v above the root; (v+1)^d at most entries puts v below it |
| NumUtil.Powers | src/lib.c:88-94 | the inner loop gives vals^d and (vals+1)^d |
| NumUtil.Lookup1 | src/lib.c:80-105 | for entries and dimensions at least 1 the answer v has v^d <= entries < (v+1)^d; the same code is at src/common_lib.c:76-101 and src/neutil.c:227-248 |
| LibUtil.LibStrErr | src/lib.c:36-58 | a fixed text per named code; I_BAD_ERROR and unknown codes print themselves after a prefix; the same code is at src/common_lib.c:32-54 |
| LibUtil.CommonStrErr | src/common.c:36-53 | the older table, without I_INSUFFICIENT_DATA and without the code in the text |
| LibUtil.LibStrErrIdentifies | src/lib.c:36-58 | no two codes get the same message |
| LibUtil.StrErrCopies | src/common.c:36-53 | the two tables agree on every code except I_CORRUPT and I_INSUFFICIENT_DATA; where lib_strerr prints the code its prefix is i_strerr's text and a space |
| LibUtil.Back | src/lib.c:214-215 | the backward scan stops at the last c in (lo, hi], or at lo |
| LibUtil.Kept | src/lib.c:216-217 | the kept length is the found dot when it lies past the character after the found separator, else 0 |
| LibUtil.Renamed | src/lib.c:218 | the printed name is the kept part followed by the replacement |
| LibUtil.ReplaceExt | src/lib.c:205-222 | a null input or output writes nothing; otherwise the output is Renamed cut to BRRPATH_MAX_PATH characters; the answer is always 0 and outlen, when asked for, is the full length; the same code is at src/common_lib.c:223-240 and src/common.c:188-205 |
| LibUtil.Print | src/lib.c:218 | snprintf writes at most max characters and reports the full length |
| LibUtil.LastIndex | src/lib.c:214-215 | the last position of c, with no c after it |
| LibUtil.NameStart | src/lib.c:214 | where the last path component starts |
| LibUtil.StemLength | src/lib.c:215-217 | where the extension of the last component starts, or the length when there is none |
| LibUtil.RenamedIntended | src/lib.c:214-218 | the path without its extension, then the replacement |
| LibUtil.RenamedAgrees | src/lib.c:214-218 | where the as-written rule keeps anything it keeps what the intended rule keeps |
| LibUtil.ShortStemDropped | src/lib.c:216 | "a.wem" becomes ".ogg" as written, where "a.ogg" is meant |
| LibUtil.NoExtensionDropsName | src/lib.c:215-217 | "dir/name" becomes ".ogg" as written, where "dir/name.ogg" is meant |
| LibUtil.IntendedReplacesOwnExtension | src/lib.c:214-218 | under the intended rule a second rename replaces exactly the extension the first one wrote |
| LibUtil.LastIndexIs | src/lib.c:214-215 | the last position of c is the one the description picks |
| LibUtil.Fold | src/lib.c:235 | tolower in the C locale folds only A-Z |
| LibUtil.FoldAll | src/lib.c:235 | every character folded, length kept |
| LibUtil.Cut | src/lib.c:230 | a bounded comparison looks at most at max_length characters up to the terminator |
| LibUtil.Order | src/lib.c:223-244 | the sign of the four C comparisons: the first differing folded character decides, a terminator counting as 0 |
| LibUtil.CstrCompare | src/lib.c:223-244 | max_length 0 compares whole strings, otherwise at most max_length characters; case_sensitive 0 folds case; the same code is at src/common_lib.c:241-262 and src/common.c:206-226 |
| LibUtil.Bound | src/lib.c:227-241 | max_length 0 means no bound |
| LibUtil.OrderZeroIff | src/lib.c:223-244 | the comparison is 0 exactly when the compared parts agree once folded |
| LibUtil.ZeroStep | src/lib.c:223-244 | equal first characters: the parts agree when the rests do |
| LibUtil.HeadsDiffer | src/lib.c:223-244 | different first characters make the compared parts differ |
| LibUtil.FoldCutStep | src/lib.c:223-244 | the compared part is the first character and the compared part of the rest |
| LibUtil.OrderAntisymmetric | src/lib.c:223-244 | swapping the strings flips the sign |
| LibUtil.Verdict | src/lib.c:141-158 | CONSUMED is I_SUCCESS, CONSUME_MORE and UNRECOGNIZED ask again, INCOMPLETE is I_INSUFFICIENT_DATA, RIFF_ERROR, NOT_RIFF and CORRUPTED their I_* codes, other codes I_BAD_ERROR - err |
| LibUtil.Decisive | src/lib.c:141-159 | the first deciding answer at or after lo, with none deciding before it |
| LibUtil.ConsumeNextBufferChunk | src/lib.c:137-161 | the verdict of the first deciding answer; None when the answers run out; one one-byte seek per unrecognised chunk on the way; the same code is at src/common_lib.c:169-193 |
| LibUtil.Stop | src/lib.c:171-176 | the first answer at or after lo that ends the read |
| LibUtil.ParseBufferAsRiff | src/lib.c:162-180 | a refused buffer is I_INIT_ERROR; otherwise the result of the answer ending the read, I_INSUFFICIENT_DATA turned into I_SUCCESS; chunks counts the chunks read; the same code is at src/common_lib.c:194-209 |
| LibUtil.QuietChunks | src/lib.c:141-146 | answers that only ask again read no chunk |
| LibUtil.ReadSucceeds | src/lib.c:162-180 | the read succeeds exactly when the answer that ends it is INCOMPLETE; the other endings are the buffer, not-RIFF and corruption errors |
| CommonInput.TryLoad | src/common_input.c:30-53 | deserialise with the layout old names; on corruption clear, flip old and try once more; corrupt again clears and answers I_UNRECOGNIZED_DATA; CODEBOOK_ERROR becomes I_BUFFER_ERROR; the same code is at src/common.c:55-78 |
| CommonInput.LoadOutcome | src/common_input.c:80-95 | a loaded library answers 0 and a failed one its first error, both without reading again; otherwise the result is kept and loaded says whether it is 0 |
| CommonInput.LoadIsRemembered | src/common_input.c:80-95 | a second load answers what the first did and changes nothing, whatever the file now holds |
| CommonInput.FallBackRecovers | src/common_input.c:30-53 | a library serialised in the other layout is loaded through the fall-back |
| CommonInput.OtherLayoutReads | src/common_input.c:42-47 | a serialised library reads back into an empty one |
| CommonInput.RetrySucceeds | src/common_input.c:38-47 | a corrupt first try and a good second one load the library |
| CommonInput.SameLayoutLoads | src/common_input.c:30-53 | a library in the layout old names loads on the first try |
| CommonInput.InputLibrary.constructor | src/common_input.c:96-104 | a new library is the zeroed library |
| CommonInput.InputLibrary.TryLoadLib | src/common_input.c:30-53 | the answer and new state are those of TryLoad |
| CommonInput.InputLibrary.Load | src/common_input.c:80-95 | the answer and new state are those of LoadOutcome; the same code is at src/common.c:105-120, with `load_error` named `failed` |
| CommonInput.ClearLibrary | src/common_input.c:96-104 | a null library is left alone; otherwise the codebooks are released, the path deleted and every field zeroed; the same code is at src/common.c:121-129 |
| CommonInput.Input.constructor | src/common_input.c:106-113 | a new input is the zeroed input |
| CommonInput.ClearInput | src/common_input.c:106-113 | a null input is left alone; otherwise its path is deleted and its options zeroed; the same code is at src/common.c:131-138 |
| NumUtil.PopCount | src/lib.c:60-69 | the number of set bits is 0 exactly for 0 |
| NeFilter.HexValue | src/nefilter.c:46 | a hexadecimal digit strtoull accepts stands for a value below 16 |
| NeFilter.ToIndex | src/nefilter.c:46-53 | the value strtoull gives is stored as a 32-bit index |
| NeFilter.NextComma | src/nefilter.c:36-37 | the end of a segment is the first comma at or after its start, or the end of the argument; no comma lies before it |
| NeFilter.FirstDigit | src/nefilter.c:39-40 | the first decimal digit of a segment, with no digit before it, or the segment's end |
| NeFilter.SegmentValue | src/nefilter.c:38-48 | a segment contributes at most one index, and it fits in 32 bits |
| NeFilter.Segments | src/nefilter.c:35-60 | every index the segments of an argument contribute fits in 32 bits |
| NeFilter.Somes | src/nefilter.c:41-48 | the indices collected are exactly values some segment contributed |
| NeFilter.ValuesBound | src/nefilter.c:46-53 | every index an argument gives is a 32-bit value |
| NeFilter.SegmentStep | src/nefilter.c:35-59 | one pass of the segment loop absorbs the segment up to the next comma and resumes after it |
| NeFilter.IndicesSpec | src/nefilter.c:35-60 | the filter's list holds each accepted index exactly once, every accepted index, all 32-bit, and nothing else |
| NeFilter.DecimalRoundTrip | src/nefilter.c:46 | a decimal index written without leading zeros parses back to itself |
| NeFilter.DigitsOnly | src/nefilter.c:35-60 | an argument made only of digits is one segment and gives exactly the index it spells |
| NeFilter.SingleIndex | src/nefilter.c:35-60 | "-w N" for a 32-bit N filters exactly N |
| NeFilter.AbsorbAllDedups | src/nefilter.c:49-55 | appending a segment's index only when the list lacks it builds the distinct indices in order of first appearance |
| NeFilter.AbsorbFirst | src/nefilter.c:49-55 | absorbing one segment then the rest deduplicates the segment and the rest together |
| NeFilter.Filter.constructor | src/nefilter.c:32 | a fresh filter is an empty white list |
| NeFilter.Filter.Clear | src/nefilter.c:65-73 | clearing leaves an empty white list; the same code is at src/neutil.c:147-155 |
| NeFilter.ListContains | src/nefilter.c:80-84 | the scan answers yes exactly when the index is in the list |
| NeFilter.Contains | src/nefilter.c:75-85 | a missing filter contains nothing; otherwise the 32-bit truncation of the index is looked up, both directions; the same code is at src/neutil.c:157-167 |
| NeFilter.Init | src/nefilter.c:23-63 | a missing filter answers -1; an empty argument changes nothing; otherwise the list becomes the argument's distinct indices and the type white, answer 0; the same code is at src/neutil.c:105-145 |
| NeFilter.Parse | src/nefilter.c:32-60 | the segment loop builds exactly the argument's index list |
| NeFilter.ParseOne | src/nefilter.c:36-59 | one pass moves forward and leaves the rest of the parse's outcome unchanged |
| NeFilter.FindComma | src/nefilter.c:37 | the comma loop stops at the segment's end |
| NeFilter.ParseSegment | src/nefilter.c:38-48 | the digit skip and the complete-parse test give the segment's index |
| NeFilter.AddSegment | src/nefilter.c:49-55 | the index is appended only when the list lacks it |
| NePathModel.Init | src/nepath.c:7-22 | a failed stat is an error; otherwise the path keeps the argument and its length is the argument's, capped at BRRPATH_MAX_PATH |
| NePathModel.InitValid | src/nepath.c:13 | a path made from an argument never measures past its characters |
| NePathModel.ExtScan | src/nepath.c:72-84 | the backward walk stops at a dot with no dot or separator after it, or answers the length when a separator or the start comes first |
| NePathModel.ExtIndexOf | src/nepath.c:68-88 | the extension starts within the measured length |
| NePathModel.ExtIndex | src/nepath.c:68-88 | the loop answers where the extension of the last path component starts |
| NePathModel.LastMatch | src/nepath.c:107-114 | the last candidate equal to the extension, -1 exactly when none is |
| NePathModel.FirstMatch | src/nepath.h:36-38 | the first candidate equal to the extension, -1 exactly when none is |
| NePathModel.MatchOut.constructor | src/nepath.c:91 | the match slot starts empty |
| NePathModel.ExtensionCmpResult | src/nepath.c:90-120 | the answer is -1 or a candidate's index |
| NePathModel.ExtensionCmp | src/nepath.c:90-120 | the answer and the stored match: the matched candidate, none when nothing matched, untouched when the path has no extension |
| NePathModel.UndottedNeverMatches | src/nepath.c:96-108 | the extension compared starts with its dot, so no candidate without a leading dot ever matches |
| NePathModel.LastIsFirstWhenDistinct | src/nepath.c:107-114 | with distinct candidates the last match is the first one |
| NePathModel.RepeatedCandidate | src/nepath.c:107-114 | with a repeated candidate the last match is answered, not the first |
| NePathModel.Replaced | src/nepath.c:134-138 | the result is the path up to its extension followed by extlen characters |
| NePathModel.ExtensionReplace | src/nepath.c:122-140 | a missing path answers -1 and writes nothing; otherwise the answer is 0 and dst holds the stem, then extlen characters of the new extension (the old ones when it is null), then a terminator, with everything after it untouched |
| NePathModel.NoExtensionAppends | src/nepath.c:134-138 | a path without an extension gets the new one appended to all of it |
| NePathModel.EmptyExtensionStrips | src/nepath.c:134-138 | extlen 0 strips the extension and nothing else |
| NePathModel.ReplacedExtensionFound | src/nepath.c:134-138 | the extension written is the one the next lookup finds, where the old one started |
| NePathModel.ScanFindsLastDot | src/nepath.c:72-77 | the walk stops at the last dot of the last component |
| NePathModel.OcblNeedsItsDot | src/nepath.c:96-108 | "lib.ocbl" matches ".ocbl" but not "ocbl" |
| NeFilter.ParseNumber | src/nefilter.c:46-48 | a segment parses only when all its characters are digits of its base (the "x" of a hex prefix aside); a segment of octal digits always parses; a single digit is its own value |
| InputArgs.FindScan | src/input.c:184-197 | the backward walk ends at a dot or at "no dot" |
| InputArgs.FindExtOf | src/input.c:179-201 | the answer is -1 or a position inside the argument |
| InputArgs.FindExt | src/input.c:179-201 | the loop answers what the lookup specifies |
| InputArgs.FindExtIsFirstDotOfName | src/input.c:179-201 | i_find_ext answers the first dot after the last separator, and -1 exactly when the last component has no dot |
| InputArgs.ScanFindsFirst | src/input.c:184-197 | each pass of the walk keeps the first dot of the stretch back to the last separator |
| InputArgs.FirstDotOfArchive | src/input.c:184-197 | "a.tar.gz" answers 1, the first dot, not the last |
| InputArgs.FirstEqual | src/input.c:334-340 | the first candidate the argument equals (case-folded unless case-sensitive), no earlier one equal; -1 exactly when none is |
| InputArgs.CheckExtensionOf | src/input.c:311-343 | -1, or an answer at least the dot's index |
| InputArgs.CheckExtension | src/input.c:311-343 | the loop answers what the check specifies |
| InputArgs.UndottedCandidateNeverMatches | src/input.c:320-340 | no argument can match a candidate without a dot, so the "ocbl" test of i_add_library never succeeds |
| InputArgs.ExtensionOf | src/input.c:320-322 | the characters after the dot i_find_ext finds, none exactly when it finds none |
| InputArgs.CheckExtensionIntended | src/input.c:320-342 | the intended check: the extension equals the answered candidate, and none when no candidate equals it |
| InputArgs.OcblMissedAsWritten | src/input.c:282-335 | "lib.OCBL" is missed by the check as written |
| InputArgs.OcblFoundIntended | src/input.c:282-335 | the intended check finds "lib.OCBL" |
| InputArgs.ModPriority | src/input.c:203-217 | only the priority and the logging switch change |
| InputArgs.QuieterStaysInRange | src/input.c:206-210 | "-q" lowers the priority by one but not below 0, keeps it in range, and turns logging off at 0 unless debugging |
| InputArgs.LouderStaysInRange | src/input.c:211-214 | "+q" raises the priority by one but not past the top, keeps it in range, and always turns logging on |
| InputArgs.Lookup | src/input.c:231-268 | the action of the first table line naming the argument; the fallback exactly when no line does |
| InputArgs.ParseGuards | src/input.c:221-230 | an empty argument is consumed; forced files and pending libraries are left for the lists; "-!" is spent on one argument |
| InputArgs.FlagToggleTwiceRestores | src/input.c:252-263 | a state toggle changes the state flags alone, and giving it twice restores them |
| InputArgs.InputToggleTwiceRestores | src/input.c:242-262 | an input toggle changes the current input alone, and giving it twice restores it |
| InputArgs.SetTypeOnlySetsType | src/input.c:236-268 | type options change only the type; anything else outside the table is left for the lists unchanged |
| InputArgs.UnsignedMissesTable | src/input.c:231-268 | an argument with no leading '-' or '+' matches no signed table line |
| InputArgs.OptionTableSigned | src/input.c:235-263 | every spelling in the table except "too-quiet" starts with '-' or '+' |
| InputArgs.PlainArgumentIsNotAnOption | src/input.c:231-268 | a plain file name is not an option |
| InputArgs.FirstIndex | src/input.c:275-278 | the first listed path equal to the argument, none exactly when it is not listed |
| InputArgs.AddedLibrary | src/input.c:270-286 | the library index names the argument's entry, and listed paths stay distinct |
| InputArgs.NewLibraryNeverOld | src/input.c:282-283 | a newly added library is never marked as the old layout |
| InputArgs.AsWrittenAgrees | src/input.c:275-278 | wherever the as-written lookup is defined it gives the intended answer |
| InputArgs.ThirdLibraryOverruns | src/input.c:276 | a third library makes the as-written lookup read past its pointer |
| InputArgs.AddedInput | src/input.c:287-309 | a listed path is replaced by the new entry, otherwise it is appended; other entries stay and paths stay distinct |
| InputArgs.Widest | src/input.c:303-307 | the widest path length covers the new path and is one of the two |
| InputArgs.TakenOneMore | src/input.c:350-368 | the loop over one more argument is one more step |
| InputArgs.TakenStopsAtHelp | src/input.c:235 | once help has ended the run, later arguments change nothing |
| InputArgs.TakenKeepsWf | src/input.c:345-371 | after any arguments input paths are distinct and the widest length covers them |
| InputArgs.StepKeepsWf | src/input.c:350-368 | one argument keeps input paths distinct and the widest length covering them |
| InputArgs.InputAddedWf | src/input.c:287-309 | adding an input keeps its paths distinct and the widest length covering them |
| InputArgs.PlainArgumentBecomesInput | src/input.c:360-365 | a plain file name becomes an input with the current options, and the widest length accounts for it |
| InputArgs.LibraryArgumentIsSelected | src/input.c:354-359 | after "-cbl" the next argument names a library and the current input uses it |
| InputArgs.State.constructor | src/input.c:345-349 | parsing starts with no inputs, no libraries and width 0 |
| InputArgs.State.ParseArgument | src/input.c:218-269 | the verdict, flags and current input are the table's; lists unchanged |
| InputArgs.State.ApplyOption | src/input.c:231-268 | the option's effect on flags and current input; lists unchanged |
| InputArgs.State.AddLibrary | src/input.c:270-286 | the library list and index are the lookup-or-append; nothing else of the input changes |
| InputArgs.State.AddInput | src/input.c:287-309 | the input list is the replace-or-append and the width grows only on append |
| InputArgs.State.TakeOne | src/input.c:350-368 | one pass is one step of the loop's specification |
| InputArgs.State.TakeInputs | src/input.c:345-371 | the final state and whether help ended the run are those of the specification over all arguments |
| InputArgs.Step | src/input.c:350-368 | help ends the run exactly when the option parser answers help; an option changes no list; a pass adds at most one input and one library, keeps the listed libraries and never narrows the widest path |
| InputArgs.Taken | src/input.c:345-371 | after n arguments at most n inputs and n libraries were added, the listed libraries are kept and the widest path never narrows |
| InputArgs.ExitedStays | src/input.c:350-368 | once help has ended the run, one more argument changes nothing |
| NeInputState.ModPriority | src/neinput.c:37-43 | only the priority and the logging switch change |
| NeInputState.QuieterStaysInRange | src/neinput.c:38-84 | "-q" lowers the priority by one but not below 0, keeps it in range, and logging is on exactly when debugging or the priority is above 0 |
| NeInputState.LouderStaysInRange | src/neinput.c:40-85 | "+q" raises the priority by one but not past the top, keeps it in range, and logging is then on whenever there is more than one priority |
| NeInputState.SettingToggleTwiceRestores | src/neinput.c:76-88 | a settings toggle changes the settings alone, and giving it twice restores them |
| NeInputState.InputToggleTwiceRestores | src/neinput.c:56-86 | an input toggle ("-rubrum" included) changes the current input alone, and giving it twice restores it |
| NeInputState.FilterOptionAnnouncesList | src/neinput.c:64-73 | "-white" and "-black" set the filter type and announce a filter list; nothing else changes |
| NeInputState.PendingConsumesNothing | src/neinput.c:30-35 | while a filter, a library or a file is pending, or "--" is in force, an argument is left for the loop and nothing changes |
| NeInputState.OptionTableSigned | src/neinput.c:49-88 | every spelling in the table except "too-quiet" starts with '-' or '+' |
| NeInputState.PlainArgumentIsNotAnOption | src/neinput.c:45-93 | a plain file name is not an option |
| NeInputState.Bits14 | src/neinput.c:148-149 | a 14-bit load_error keeps values below 16384 as they are and is 0 exactly when the value is a multiple of 16384 |
| NeInputState.ReadAndParse | src/neinput.c:105-149 | reading and parsing answer 0 or -1, and 0 exactly when the file is a library that deserialises |
| NeInputState.LibraryLoad | src/neinput.c:137-154 | a missing library answers -1; a recorded error is answered again and a loaded library answers 0, both unchanged; the path never changes |
| NeInputState.FirstLoadAnswers | src/neinput.c:147-153 | a first load answers 0 exactly when it leaves the library loaded and the data deserialises, and a failure answers 16383 |
| NeInputState.LoadIsRemembered | src/neinput.c:142-145 | a second load answers what the first did and changes nothing, whatever the file now holds |
| NeInputState.CodebooksOut.constructor | src/neinput.c:171 | the codebook slot starts empty |
| NeInputState.FindLibrary | src/neinput.c:186-189 | the first library whose path is the argument, none exactly when no library has it |
| NeInputState.FindInput | src/neinput.c:223-228 | the first input whose path is the argument, none exactly when no input has it |
| NeInputState.NewLibraryNeverAlternate | src/neinput.c:203-204 | the "ocbl" comparison never matches, so a new library is never marked alternate |
| NeInputState.FilterAfter | src/neinput.c:253-260 | the filter installed holds the argument's index list |
| NeInputState.FilterIntended | src/neinput.c:64-260 | the intended filter holds the argument's index list and keeps the type the options chose |
| NeInputState.BlackListBecomesWhite | src/neinput.c:69-255 | "-black 1" installs a white list of stream 1 where the intended filter is a black one |
| NeInputState.FilterVersionsDifferOnlyInType | src/neinput.c:254-259 | the two versions agree except that the one as written is always white |
| NeInputState.AddedLibrary | src/neinput.c:183-209 | an unlisted path that cannot be stat-ed is the only error; otherwise the list only grows, by at most one entry, and the index names the argument |
| NeInputState.TakenOneMore | src/neinput.c:249-279 | the loop over one more argument is one more step |
| NeInputState.TakenStops | src/neinput.c:256-271 | once the loop has stopped, later arguments change nothing |
| NeInputState.TakenKeepsWf | src/neinput.c:244-282 | every pass keeps the lists free of repeats, the widest path covering the inputs and the libraries' status consistent |
| NeInputState.LibraryAppendedOk | src/neinput.c:206 | appending a new library with a consistent status keeps the list consistent |
| NeInputState.InputAddedOk | src/neinput.c:223-240 | adding an input keeps the list free of repeats and the widest path covering it, and the entry is in the list |
| NeInputState.PlainFileBecomesInput | src/neinput.c:268-273 | a plain name of a regular file becomes an input with the current options, and the widest path accounts for it |
| NeInputState.LibraryArgumentIsSelected | src/neinput.c:262-267 | after "-cbl" the next argument names a library the current input uses, or a failed stat clears the state |
| NeInputState.FilterArgumentInstalled | src/neinput.c:253-260 | after "-white" or "-black" the next argument becomes the current filter, a white list, and the lists are untouched |
| NeInputState.FailureClears | src/neinput.c:256-271 | a loop that fails leaves the state cleared |
| NeInputState.State.constructor | src/neinput.c:247 | the state starts with its default input and settings and empty lists |
| NeInputState.State.ParseArgument | src/neinput.c:24-94 | the verdict, settings and current input are the table's; the lists are unchanged |
| NeInputState.State.ApplyOption | src/neinput.c:45-93 | the option's effect on settings and current input; the lists are unchanged |
| NeInputState.State.AddLibrary | src/neinput.c:183-209 | the list and index are the lookup-or-append, -1 exactly when a new path cannot be stat-ed |
| NeInputState.State.AddInput | src/neinput.c:211-242 | -1 exactly when the stat fails; a non-file is skipped; otherwise the list and width are the replace-or-append |
| NeInputState.State.Clear | src/neinput.c:284-300 | the lists, settings and default input are emptied and the statistics kept |
| NeInputState.State.Dispatch | src/neinput.c:253-277 | the rest of one pass after the option parse is one step of the specification |
| NeInputState.State.TakeOne | src/neinput.c:250-278 | one pass is one step of the loop's specification |
| NeInputState.State.Init | src/neinput.c:244-282 | the outcome and the final state are those of the specification over all arguments; -1 exactly when it failed |
| NeInputState.State.LoadLibrary | src/neinput.c:137-154 | the library at the index is loaded as specified and nothing else changes |
| NeInputState.State.LoadCodebooks | src/neinput.c:165-181 | a null out-parameter answers -1; no libraries or INLINE hand out none; otherwise the library is loaded and handed out exactly when it loads |
| NeInputState.LibraryStep | src/neinput.c:183-209 | a new library whose path cannot be stat-ed fails and clears the lists; otherwise next_is_library is cleared, the inputs are unchanged, the old libraries kept, and the current input's index names the argument |
| NeInputState.InputStep | src/neinput.c:211-242 | a path that cannot be stat-ed fails and clears the lists; otherwise next_is_file is cleared, the libraries are unchanged, at most one input is added and the widest path never narrows |
| NeInputState.Continued | src/neinput.c:251-278 | help ends the loop exactly when the parser answers it; a consumed option only takes the parser's settings; a failure clears the lists; a pass adds at most one input and keeps the listed libraries |
| NeInputState.Step | src/neinput.c:249-279 | help ends the loop exactly when i_parse_argument answers it; a failure clears the lists; a pass adds at most one input and keeps the listed libraries |
| NeInputState.Taken | src/neinput.c:244-282 | a failure leaves the lists cleared; a loop that goes on adds at most one input per argument and keeps the listed libraries |
| NeInputState.AddedInput | src/neinput.c:211-242 | adding an input grows the list by at most one entry and never narrows the widest path |
| NeInputState.ContinuedKeepsWf | src/neinput.c:251-278 | one pass keeps the lists free of repeats, the widest path covering the inputs and the libraries' status consistent |
| NeInputState.LibraryStepKeepsWf | src/neinput.c:183-209 | adding a library keeps the library list free of repeats and its status consistent |
| NeInputState.InputStepKeepsWf | src/neinput.c:211-242 | adding an input keeps the input list free of repeats and the widest path covering it |
| NeInputState.ContinuedFailureClears | src/neinput.c:263-271 | a failed pass leaves the state as nestate_clear does: no lists, no settings, a zeroed default input |
| NeInputState.StoppedStays | src/neinput.c:249-279 | once the loop has returned, one more argument changes nothing |
| ProcessArgs.Deleted | src/process.c:18-25 | a present input keeps existing with an empty name and zeroed options; a NULL one stays NULL |
| ProcessArgs.ListOf | src/process.c:72-73 | the first `count` inputs, absent exactly when the array is NULL |
| ProcessArgs.Paths | src/process.c:79 | the names of the inputs, in order |
| ProcessArgs.Found | src/process.c:72-84 | the first input whose name is the argument; nothing exactly when the list or argument is NULL or no name equals it |
| ProcessArgs.FindArgument | src/process.c:72-84 | the loop answers what the lookup specifies |
| ProcessArgs.Current.constructor | src/process.c:87-88 | parsing starts from the given options with reset off |
| ProcessArgs.Current.ParseArgument | src/process.c:85-141 | the answer, help call, reset flag, options and inputs are the table's: a seen file takes the current options, which return to the defaults |
| ProcessArgs.Current.Apply | src/process.c:92-140 | the same, once the table has named the action |
| ProcessArgs.TypeOptionsSetType | src/process.c:94-103 | a type option sets the type alone and answers 1; of several, the last wins |
| ProcessArgs.DebugForcesLogging | src/process.c:118-122 | "-d" flips debugging and turns logging on when debugging comes on; nothing else changes |
| ProcessArgs.QuieterStaysInRange | src/process.c:123-128 | "-q" lowers the priority by one but not below 0, keeps it in range, and turns logging off at 0 unless debugging |
| ProcessArgs.LouderStaysInRange | src/process.c:129-132 | "+q" raises the priority by one but not past the top, keeps it in range, and turns logging on |
| ProcessArgs.ToggleTwiceRestores | src/process.c:104-136 | a toggle changes the options, and giving it twice restores them |
| ProcessArgs.LouderAnswersZero | src/process.c:129-140 | "+q" answers 0, like an argument that is not an option, where the intended answer is 1 |
| ProcessArgs.IntendedAnswersUse | src/process.c:92-140 | with the intended answer an argument is used exactly when it is an option other than help or names a seen file; only "+q" differs |
| ProcessArgs.OptionTableSigned | src/process.c:92-136 | every spelling in the table starts with '-' or '+' |
| ProcessArgs.PlainArgumentIsNotAnOption | src/process.c:92-137 | a plain file name always reaches the lookup of seen files |
| ProcessArgs.DeletedIsNotFound | src/process.c:18-79 | a deleted input is never found again by a non-empty name |
| ProcessArgs.Padded | src/process.c:147-152 | the zero-initialised fourcc keeps the bytes read and zeros after them |
| ProcessArgs.DetermineTypeClassifies | src/process.c:143-175 | a complete read classifies by the fourcc: OggS is Ogg, BKHD a bank, RIFF a wem or wsp by its extension (case ignored), anything else a type error that leaves the type unchanged |
| ProcessArgs.ExtensionIgnoresCase | src/process.c:162 | "WEM" and "wem" both make a RIFF file a wem |
| ProcessArgs.ShortReadIsTypeError | src/process.c:152-173 | a short read always ends as a type error: the read error is overwritten |
| ProcessArgs.ShortReadReported | src/process.c:152-154 | the corrected version reports a short read as a read error, exactly then, and agrees with the original otherwise |
| ProcessArgs.Answer | src/process.c:85-141 | as written the answer is 0 exactly for help, "+q" and a plain argument naming no seen file; 1 otherwise |
| ProcessArgs.AnswerIntended | src/process.c:85-141 | the corrected answer is 1 exactly for an option other than help or a plain argument naming a seen file; it differs from the original only for "+q" |
| ProcessArgs.DetermineType | src/process.c:143-175 | an unopenable file and only that is the input error; a read error means fewer than 4 bytes; on an input or type error the type is unchanged; any other outcome assigns a type |
| MainArgs.NamesTerminated | src/main.c:141-165 | every spelling list the loop passes ends in NULL |
| MainArgs.Classify | src/main.c:141-166 | the chain of comparisons names the action the option table gives |
| MainArgs.TypeOptionsLeaveOne | src/main.c:131-159 | the default and each type option leave exactly one type bit, their own, and touch no other bit |
| MainArgs.TogglesFlipOwnBit | src/main.c:143-165 | each flag option flips its own bit alone, keeps a single type bit single, and twice restores the bits |
| MainArgs.ListedAlone | src/main.c:57 | comparing with a single name is exact equality, except that an empty name never matches; NeFindArg makes the same call at src/NeArg.c:9 |
| MainArgs.FoundArg | src/main.c:55-62 | the first entry whose name is the argument, none exactly when the argument is empty or no entry has it |
| MainArgs.FindArg | src/main.c:55-62 | the loop answers what the lookup specifies; NeFindArg at src/NeArg.c:6-15 is the same loop |
| MainArgs.TakenOneMore | src/main.c:139-187 | the loop over one more argument is one more step |
| MainArgs.TakenStops | src/main.c:141-181 | once help or the file limit stops the loop, later arguments change nothing |
| MainArgs.FileArgument | src/main.c:168-186 | a recorded name takes the current bits with nothing added; a new one is appended with them and maxarg grows to its length, unless more than MAXFILES entries are listed, which stops the loop unchanged |
| MainArgs.StepKeepsWf | src/main.c:139-187 | one argument keeps names distinct and non-empty, one type bit per entry, and maxarg covering them |
| MainArgs.ReplacedKeepsWf | src/main.c:170-171 | updating a recorded file's bits keeps the list well formed |
| MainArgs.AppendedKeepsWf | src/main.c:176-186 | appending a new file keeps the list well formed |
| MainArgs.WidestAppended | src/main.c:182-183 | maxarg covers every recorded name after an append |
| MainArgs.TogglesOrTypes | src/main.c:143-165 | no option leaves the type bits other than single |
| MainArgs.TakenKeepsWf | src/main.c:139-187 | the whole loop keeps the list well formed |
| MainArgs.TakenHoldsOneTooMany | src/main.c:178 | as written the list can hold MAXFILES + 1 files, and no more |
| MainArgs.SteppedGrowsByOne | src/main.c:178-186 | one argument keeps the list within MAXFILES + 1 |
| MainArgs.ListReachesOneTooMany | src/main.c:178 | a new name reaching a list of MAXFILES files is still appended |
| MainArgs.StepIntendedBounded | src/main.c:178 | with the intended test the list never exceeds MAXFILES, and both versions agree until it is full |
| MainArgs.CommandLine.constructor | src/main.c:131-135 | the loop starts with the default bits, no files and maxarg 0 |
| MainArgs.CommandLine.TakeOne | src/main.c:140-186 | one pass is one step of the loop's specification |
| MainArgs.CommandLine.Apply | src/main.c:141-186 | the loop body for a classified argument is that step |
| MainArgs.CommandLine.Run | src/main.c:129-211 | the final state is the loop's over all arguments, and help is printed exactly when there are no arguments, a help option, or no file recorded with quiet off |
| MainArgs.OptName | src/main.c:63-72 | the name of the first set type bit, wisp before weem before bank, "UNKNOWN" when none is set |
| MainArgs.OneTypeNamesItsKind | src/main.c:63-204 | with one type bit the printed name is the kind the file is handled as; with wisp and weem both set they disagree |
| MainArgs.RecordedFilesHaveKind | src/main.c:188-205 | every recorded file is handled as a wisp, weem or bank and printed under that name |
| MainArgs.Step | src/main.c:139-187 | help ends the loop exactly for a help option; too many files stops it with nothing changed; a pass adds at most one file, never narrows maxarg and keeps the list within MAXFILES + 1 |
| MainArgs.Taken | src/main.c:139-187 | after n arguments at most n files were added, maxarg never narrows, the list stays within MAXFILES + 1, and the file limit stops only a list above MAXFILES |
| MainArgs.Helps | src/main.c:136-211 | no arguments, or a help option first, prints the help; otherwise help comes only from a help option or from an empty list |
| NeArgDetect.DetectedArg.constructor | src/NeArg.c:60 | an argument holds its text and option bits |
| NeArgDetect.DetectType | src/NeArg.c:59-82 | the option bits become those the fourcc read and the file name decide; the text is unchanged |
| NeArgDetect.RiffChoosesByName | src/NeArg.c:64-71 | a RIFF file sets the weem bit exactly when its name ends in ".wem", else the wisp bit; nothing else changes |
| NeArgDetect.BankAndOggSetTheirBit | src/NeArg.c:72-75 | BKHD sets the bank bit and OggS the ogg bit, and nothing else |
| NeArgDetect.UnknownClearsTypes | src/NeArg.c:76-81 | any other fourcc clears the four type bits and keeps the other options; a failed read clears every option |
| NeArgDetect.RecognisedTypeAccumulates | src/NeArg.c:64-75 | a recognised fourcc never clears a type bit and leaves at least one set |
| NeArgDetect.DetectionIdempotent | src/NeArg.c:59-82 | detecting twice gives what detecting once gave |
| NeMisc.CRem | src/common/NeMisc.c:13 | C's remainder is smaller in magnitude than the divisor and has the dividend's sign |
| NeMisc.FloorModUnique | src/common/NeMisc.c:13 | a decomposition x == m * q + r with 0 <= r < m is the floored quotient and remainder |
| NeMisc.DividesRem | src/common/NeMisc.c:11-15 | a divisor of b divides a exactly when it divides C's remainder of a by b, so each Euclid step keeps the common divisors |
| NeMisc.GCF | src/common/NeMisc.c:3-18 | equal arguments answer themselves, a zero argument 0, otherwise a non-zero common divisor that every other common divisor divides |
| NeMisc.NegResidue | src/common/NeMisc.c:28-29 | a negative input contributes a value below the modulus |
| NeMisc.SmartMod | src/common/NeMisc.c:19-32 | mod 0 answers 0; a non-negative input gives its 32-bit cut reduced mod `mod`; a negative one lands in [of, of + mod) |
| NeMisc.SmartModFloors | src/common/NeMisc.c:24-30 | while the input fits 32 bits, with of 0 it is the floored modulo |
| NeMisc.SmartModEnd | src/common/NeMisc.c:28-29 | with of 1, -1 stands for the length itself |
| NeMisc.SmartModCuts | src/common/NeMisc.c:25 | a non-negative input of 32 bits or more is cut before the modulo |
| NeMisc.DigitCount | src/common/NeMisc.c:34-44 | 1 for 0; otherwise the number of decimal digits of n, or of -(n + 1) for a negative n |
| NeLibrary.Reverse | src/common/NeLibrary.c:35-43 | the first buflen bytes end in the opposite order and the rest is untouched |
| NeLibrary.ElementsReversed | src/common/NeLibrary.c:45-56 | reversing the elements keeps the length |
| NeLibrary.ElementsReversedAppend | src/common/NeLibrary.c:45-56 | reversing x + y, x whole elements, puts y's reversed elements before x's |
| NeLibrary.ElementsReversedTwice | src/common/NeLibrary.c:45-56 | reversing whole elements twice gives the run back |
| NeLibrary.ElementsOfOneByte | src/common/NeLibrary.c:35-56 | with one-byte elements, reversing elements is NeReverse |
| NeLibrary.SwapRuns | src/common/NeLibrary.c:53-54 | the inner loop trades the two elements byte for byte |
| NeLibrary.FromEndsAgrees | src/common/NeLibrary.c:50-55 | trading the outer elements inward and reversing front to back agree on whole elements |
| NeLibrary.RevFromReverses | src/common/NeLibrary.c:50-55 | the outer loop from lo to hi reverses that stretch from the ends and leaves the rest alone |
| NeLibrary.ReverseElements | src/common/NeLibrary.c:45-56 | the first elcount elements end in the opposite order, each element's bytes kept, and the rest is untouched |
| NeLibrary.ReversePass | src/common/NeLibrary.c:51-54 | one pass of the outer loop trades element i with its mirror and leaves the remaining work the same |
| NeLibrary.Index | src/common/NeLibrary.c:51-52 | where element i starts |
| NeLibrary.SliceBytes | src/common/NeLibrary.c:76-82 | a slice names as many bytes as its ends are apart |
| NeLibrary.SliceIndex | src/common/NeLibrary.c:70-71 | a normalised slice end lies within the source |
| NeLibrary.Slice | src/common/NeLibrary.c:58-84 | a null or empty argument answers NeERGINVALID and writes nothing; equal ends answer NeERGNONE; otherwise the first bytes of the slice, as many as fit, are written and counted, and the rest of dst is untouched |
| NeLibrary.CopyForward | src/common/NeLibrary.c:79-82 | the forward loop copies min(dstlen, e - s) bytes from s on |
| NeLibrary.CopyBackward | src/common/NeLibrary.c:76-78 | the backward loop copies the first min(dstlen, s - e) bytes of the stretch reversed |
| NeLibrary.SliceWhole | src/common/NeLibrary.c:70-82 | a slice from 0 to -1 is the whole source |
| NeLibrary.SliceSwapped | src/common/NeLibrary.c:76-82 | swapping the ends gives the same bytes backward |
| NeLibrary.Copy | src/common/NeLibrary.c:86-95 | a null or empty argument copies nothing and answers 0; otherwise the first min(dstlen, srclen) bytes are copied and counted, the rest untouched |
| NeLibrary.CopyIsWholeSlice | src/common/NeLibrary.c:58-95 | NeCopy copies what the whole-source slice copies |
| NeLibrary.MatchesAt | src/common/NeLibrary.c:112-114 | the inner loop answers whether the needle occurs at the offset |
| NeLibrary.Find | src/common/NeLibrary.c:97-121 | a null pointer answers NeERGINVALID; degenerate sizes answer haysz; otherwise the first offset from iof on where the needle occurs, or haysz |
| NeLibrary.LastMatch | src/common/NeLibrary.c:136-142 | the largest offset in the range where the needle occurs, none exactly when it occurs nowhere in it |
| NeLibrary.SearchDown | src/common/NeLibrary.c:136-145 | the backward loop answers the largest matching offset down to its bound, or haysz |
| NeLibrary.Rfind | src/common/NeLibrary.c:123-146 | the checks of NeFind, then the largest matching offset from iof down to ndlsz - 1, or haysz |
| NeLibrary.RfindAll | src/common/NeLibrary.c:123-146 | the corrected search: the largest matching offset from iof down to 0, or haysz |
| NeLibrary.RfindMissesStart | src/common/NeLibrary.c:136 | a match at offset 0 of a two-byte needle is never tried as written, and found by the corrected search |
| NeStr.Str.constructor | src/common/NeStr.c:48 | a zeroed string has no buffer and length 0 |
| NeStr.Str.Val | src/common/NeStr.c:40 | a by-value copy holds the struct's fields |
| NeStr.Text | src/common/NeStr.c:140-143 | the text of a string is `length` bytes |
| NeStr.CLen | src/common/NeStr.c:21 | the count stops at the first NUL or at max, with no NUL before it |
| NeStr.Counted | src/common/NeStr.c:15-23 | the count never exceeds max |
| NeStr.Copied | src/common/NeStr.c:33-36 | the copied text is NUL-free and as long as the count |
| NeStr.Strlen | src/common/NeStr.c:15-23 | the loop answers the count specified, 0 for a null pointer or max 0 |
| NeStr.CLenOfHeld | src/common/NeStr.c:21-34 | counting a buffer NeStrNew built gives its text back |
| NeStr.AllocZeroed | src/common/NeLibrary.c:12-25 | size 0 answers NULL; otherwise a fresh zero-filled buffer |
| NeStr.Realloc | src/common/NeLibrary.c:26-32 | a fresh buffer of the size that keeps the old bytes it has room for |
| NeStr.StrNew | src/common/NeStr.c:25-37 | the string holds a fresh NUL-terminated copy of the counted bytes; a null string does nothing |
| NeStr.StrCopy | src/common/NeStr.c:39-43 | the string holds a fresh copy of the other's text |
| NeStr.CopiedWhole | src/common/NeStr.c:33-36 | copying a NUL-free text copies all of it |
| NeStr.CopiedOfHeld | src/common/NeStr.c:33-36 | a built string measures back to its text |
| NeStr.StrSlice | src/common/NeStr.c:95-126 | an empty source or equal ends leave out unchanged; otherwise out holds the bytes from start to end, backward when start is past end |
| NeStr.SliceUp | src/common/NeStr.c:123-124 | the forward loop fills the fresh buffer with the stretch and a NUL |
| NeStr.SliceDown | src/common/NeStr.c:119-121 | the backward loop fills it with the stretch reversed and a NUL |
| NeStr.SliceSplit | src/common/NeStr.c:95-126 | slicing from 0 to k and from k to -1 and joining gives the text back |
| NeStr.SliceBackward | src/common/NeStr.c:102-121 | slicing from -1 to 0 gives the text backward |
| NeStr.StrJoin | src/common/NeStr.c:128-144 | out holds a fresh terminated a ++ b, a copy of the non-empty side when one is empty |
| NeStr.JoinConcat | src/common/NeStr.c:128-144 | every branch gives the concatenation of NUL-free texts |
| NeStr.JoinThenSlice | src/common/NeStr.c:95-144 | slicing a joined string at the first text's length gives each text back |
| NeStr.StrMerge | src/common/NeStr.c:146-155 | the merged text is the old text followed by mg's, the length grows by mg's; the byte after it is whatever the reallocation left; an empty mg or null string changes nothing |
| NeStr.MergeLoop | src/common/NeStr.c:153-154 | the copy loop writes mg's text after the old text and nothing else |
| NeStr.MergeEndIsJunk | src/common/NeStr.c:152 | no buffer the other functions build reaches the new end, so the byte after a merged text is never a written NUL |
| NeStr.StrMergeTerminated | src/common/NeStr.c:146-155 | the corrected merge holds the old text followed by mg's, terminated |
| NeStr.StrDel | src/common/NeStr.c:157-164 | the buffer is released and the length 0 |
| NeStr.DeletedIsEmpty | src/common/NeStr.c:157-164 | a deleted string is a valid empty one |
| NeStr.FirstStop | src/common/NeStr.c:176-177 | the first NULL or empty argument, with none before it |
| NeStr.Lower | src/common/NeStr.c:181 | strcasecmp folds exactly A-Z to a-z |
| NeStr.Folded | src/common/NeStr.c:181 | folding is byte by byte |
| NeStr.StrCmp | src/common/NeStr.c:166-203 | 1 exactly when cmp equals an argument before the first terminator, case-insensitively when cse is non-zero; 0 otherwise |
| NeStr.FoldedEqual | src/common/NeStr.c:179-195 | a case-sensitive match is a case-insensitive one |
| NeStr.ListedIgnoresTail | src/common/NeStr.c:174-177 | arguments after the first terminator are never consulted |
| NeStr.CaseExample | src/common/NeStr.c:173-199 | "WEM" matches "wem" only when case is ignored |
| NeLogging.Light | src/common/NeLogging.c:111-118 | the light counterpart of a base colour is neither base, normal nor unnamed |
| NeLogging.ColorName | src/common/NeLogging.c:6-28 | "Invalid" exactly for an unnamed colour |
| NeLogging.StyleName | src/common/NeLogging.c:29-64 | "Invalid" exactly for an unnamed style |
| NeLogging.FontNumber | src/common/NeLogging.c:69-77 | an alternate font's number is 1 to 9, the primary's 0 |
| NeLogging.FontName | src/common/NeLogging.c:65-80 | "Invalid" exactly for an unnamed font; an alternate one is "Alternate " and its number |
| NeLogging.PriorityName | src/common/NeLogging.c:81-91 | "Invalid" exactly for an unnamed priority |
| NeLogging.ColorCode | src/common/NeLogging.c:101-120 | base colours are 30-37, light ones 90-97, normal and unnamed 39 |
| NeLogging.ForegroundIndex | src/common/NeLogging.c:100-121 | the parameter is a valid SGR foreground, 39 exactly for normal or unnamed |
| NeLogging.BackgroundIndex | src/common/NeLogging.c:122-125 | the parameter is a valid SGR background, 49 exactly for normal or unnamed |
| NeLogging.StyleIndex | src/common/NeLogging.c:126-160 | the parameter is a valid SGR style, 0 exactly for normal or unnamed |
| NeLogging.FontIndex | src/common/NeLogging.c:161-175 | 10 plus the font's number, 10 for an unnamed one |
| NeLogging.ColorCodeRoundTrip | src/common/NeLogging.c:100-121 | every named colour gets its own parameter |
| NeLogging.LightIsBasePlus60 | src/common/NeLogging.c:102-118 | a light colour's parameter is its base colour's plus 60 |
| NeLogging.BackgroundOfBase | src/common/NeLogging.c:122-125 | base background parameters are 40-47, ten above the foreground ones |
| NeLogging.StyleCodeRoundTrip | src/common/NeLogging.c:126-160 | every named style gets its own parameter |
| NeLogging.FontCodeRoundTrip | src/common/NeLogging.c:161-175 | two named fonts share a parameter exactly when they are the same font |
| NeLogging.ColorNamesDistinct | src/common/NeLogging.c:6-28 | two colours share a name exactly when they are the same colour |
| NeLogging.PriorityNamesDistinct | src/common/NeLogging.c:81-91 | two priorities share a name exactly when they are the same priority |
| NeLogging.FontNamesDistinct | src/common/NeLogging.c:65-80 | two fonts share a name exactly when they are the same font |

## Left out

File, process and library I/O. Each outcome the model needs is a parameter.
- `T.py`: `os.walk` arrives as the list of names it would yield, directory by directory; `TestMatrix.Generate` returns the command string in place of `print` and `os.system`.
- `nepath_init`'s `stat` arrives as a `NePathModel.Stat` value; `nepath_read` (src/nepath.c:24-66) reads a whole file and is not modelled.
- These read or write files, or call libogg/libvorbis, and are not modelled:
  - `lib_read_entire_file` (src/lib.c:107-136);
  - `lib_write_ogg_out` (src/lib.c:181-203, src/common_lib.c:103-125);
  - `neutil_write_ogg`, `neutil_buffer_to_riff` and `neutil_buffer_to_wwriff` (src/neutil.c:250-329);
  - the `nepack_*` functions (src/neutil.c:169-203).
- FILE-driven chunk loops:
  - `i_consume_next_chunk` of process_wem.c is modelled over a list of read outcomes (`ProcessWem.ConsumeNextChunk`).
  - Its copy in common_lib.c (126-168) and `lib_read_riff_chunks` (src/common_lib.c:210-221) make the same decisions as `LibUtil.ConsumeNextBufferChunk`, with the one-byte seek done on the FILE. They are not modelled separately.
- `i_try_read_lib` (src/common_input.c:54-79, src/common.c:79-104) reads the library file. Its outcome is a parameter of `CommonInput.InputLibrary.Load`.
- `determine_type`'s `fopen`/`fread` arrive as an `FccRead` value.
- `NeDetectType`'s `NeFileSegment` read arrives as a parameter.
- `riff_data_sync_from_buffer` is declared but not defined in the source. `LibUtil.ParseBufferAsRiff` takes its outcome (accepted or refused) as a parameter.

Printing, help and logging. None of these changes modelled state.
- Not modelled: `input_print` (src/process.c:26-70), `processed_input_print` (src/common.c:139-186), `input_print` (src/common_input.c:114-161), `NePrintArg` (src/NeArg.c:17-57), `NeLog` and `getlogprefix` (src/common/NeLogging.c:202-255).
- `print_usage` and `print_help` (src/neutil.c:63-75) and main.c's help call `exit`. The model only records that help was asked for.
- `NeStrPrint` (src/common/NeStr.c:66-93) is `vsnprintf`. `lib_strerr`'s "%d" branch for unknown codes is modelled as its prefix and the code, not as formatted text.
- The enum-name functions of NeLogging.c are modelled. The terminal escape sequences they feed are not.

Memory management:
- Allocation failures (`malloc`/`realloc`/`NeSafeAlloc` answering NULL) are not modelled. `NeSafeAlloc` is modelled by `NeStr.AllocZeroed` and `NeStr.Realloc`.
- `neinput_clear`, `neinput_library_clear` and `neinput_clear_all` (src/input.c:373-410) only free memory and are not modelled.
- `n_input_digits` (src/input.c:369, src/neinput.c:280) calls `brrlib_ndigits`/`brrnum_ndigits` from a library that is not part of this model. `NeMisc.DigitCount` models the same count for NeMisc.c.

Thin wrappers and copies:
- `NeStrShallow`, `NeStrIndexOf` and `NeStrRindex` (src/common/NeStr.c:45-64) only forward to `NeStrlen`, `NeFind` and `NeRfind`, which are modelled.
- `NeRevorbOgg`, `NeConvert` and `NeExtract` (src/NeArg.c:84-147) call the converters and are not modelled.
- Dead code is not modelled: src/input.c:32-176 (`#if 0`), src/main.c:215-273 (`#else`) and `NeLogData`.

Undefined behaviour in the C, excluded by preconditions:
- `Riff.Riff.SetupRiff`: riff.c checks for 4 bytes but reads 12, so fewer than 12 stored bytes above 4 are excluded.
- `RiffList.Scan`: a buffer of 4 to 7 bytes makes `buffer_size - 8` wrap, so such buffers are excluded.
- `WspMeta.Init`: the size word after a root code must lie inside the buffer.
- `NeLibrary.Find`, `NeLibrary.Rfind`: offsets `iof` that would leave `cmp` uninitialised or read past the hay are excluded.
- `InputArgs.AddedLibrary` models the intended `(*libraries)[i]`. The as-written `libraries[i]` is defined only for i = 0 (see Findings).
- `NeFilter.Init`: nefilter.c writes ',' over each segment end, including the string's terminator. The model reads the argument unchanged and treats its end as a segment end.
- Riff.DataSync.Buffer: `consumed` beyond `stored` is excluded. riff.c:152-155 would then wrap `stored -= consumed` and move bytes from outside the buffer. An unrecognised chunk announcing more bytes than are stored reaches that state (riff.c:354, see Findings).
- Riff.DataSync.Feed: the same exclusion, because it calls Buffer first.
- CodebookLibrary.Library.Serialize: the table size `4 * codebook_count` is a 32-bit product (src/codebook_library.c:126). From 2^30 codebooks on it wraps and the copies overrun the allocation, so such libraries are excluded.
- CodebookLibrary.Library.SerializeDeprecated: the same 32-bit product (src/codebook_library.c:104), excluded the same way.
- NumUtil.Lookup1: the dimension count must be at least 1. src/lib.c:85 divides by it, so 0 is undefined, and a negative count never ends the loop.
- NeStr.StrNew: the output buffer must differ from the input buffer. Only this function asserts it (src/common/NeStr.c:30).
- NeStr.StrCopy: the output buffer must differ from the source's, as for StrNew.
- NeStr.StrJoin: the output buffer must differ from the inputs it copies. NeSafeAlloc (src/common/NeStr.c:139) may free or move a shared buffer, which leaves the input dangling.
- NeStr.StrMerge: the merged string's buffer must differ from the appended one. NeSafeAlloc (src/common/NeStr.c:152) may move it, which leaves `mg` dangling.
- NeStr.StrMergeTerminated: the same exclusion as StrMerge.

Functions and constants the source uses but does not define. The model assumes these definitions:
- RiffScan.CcByteOrder: `riff_cc_byteorder` is only declared (src/riff.h:161). The model takes it to name the byte orders of the RIFF reader's four root codes (`RiffScan.CcByteOrderAgrees`).
- NeArgDetect.Detected: `WEEMCC`, `BANKCC`, `OGGSCC` and `NeStrEndswith` are used at src/NeArg.c:64-74 but not defined; src/common/NeStr.h:41 only declares `NeStrEndswith`. The model takes the codes as "RIFF", "BKHD" and "OggS" and the test as a plain suffix comparison.
- InputArgs.FirstEqual: `brrstg_cstr_compare` comes from a library that is not part of this model. Its second argument is taken as case sensitivity, so the 0 that src/process.c:92-136 and src/input.c:231 pass compares ignoring case.

ASCII case folding:
- TestMatrix.LowerChar: names are folded as ASCII only. Python 3's `str.lower()` also folds other letters, such as U+212A KELVIN SIGN to 'k'. Those mappings are not modelled.
- TestMatrix.KindOf: holds for ASCII folding only. A name such as "x.BN\u212A" is a bank to Python but goes to auto in the model.
- TestMatrix.UnknownGoesToAuto: "unknown" is matched in any ASCII letter case only, for the same reason.
- TestMatrix.Place: the list a name selects is decided with ASCII folding, for the same reason.
- TestMatrix.Classify: the buckets after the walk are decided with ASCII folding, for the same reason.

Widths and platform:
- Words are read as on a little-endian host.
- `BRRPATH_MAX_PATH`, `MAXFILES`, `brrlog_priority_count` and the error constants that are not defined in the shown headers are parameters or datatype constructors.
- `NeSz` is taken as 32 bits and `NeOf` as 64 bits.
- `strtoull` saturating at ERANGE is modelled by `NeFilter.ToIndex`.

Weaker contracts:
- LibUtil.CstrCompare: only the sign of `strcmp`/`strcasecmp`'s answer is modelled. The magnitude is the C library's.
- NumUtil.Lookup1: the products are unbounded integers. A `long` overflow for huge entry counts is not modelled; Vorbis entry counts are below 2^24.
- NumUtil.CountBits: the argument is a signed number, as in lib.c. neutil.c's unsigned copy agrees on the non-negative values it receives.
- RiffList.Scan: the contract states the scan without 32-bit wrap-around of the size word. The as-written step is stated beside it (see Findings).
- WspMeta.Init: the same as `RiffList.Scan`, for the offset plus size.
- NeLogging.StyleName: states only that "Invalid" names exactly the unnamed style. That the 31 display names (src/common/NeLogging.c:29-64) differ from each other is not proved, because comparing those literal strings character by character is beyond the solver budget.

## Findings

Each row is a behaviour of the source as written that its own header, comments or surrounding code show is not intended. For each row the model has two members. The first models the code as written, together with a lemma on a concrete input that exhibits the difference. The second is the corrected definition, with the intended property proved about it.

| source | as written | input that shows it | evidently intended | confidence | as-written member | corrected member |
|---|---|---|---|---|---|---|
| src/bitstream.c:166-195 | `bitstream_copy` runs copy_out before copy_in finds the output too small, so a TRUNCATED answer leaves the input position already moved | 8 bits copied from an input holding 8 into an output with room for 4 | bitstream.h:73-81: no stream changes on an answer other than SUCCESS | not executed | BitStream.Copy | BitStream.CopyChecked |
| src/common/NeLibrary.c:123-146 | `NeRfind` stops its downward search at offset ndlsz - 1 | needle [1, 2] in hay [1, 2, 0, 0], searching down from offset 2 | every offset down to 0 is tried: NeFind run backward | not executed | NeLibrary.RfindMissesStart | NeLibrary.RfindAll |
| src/common/NeStr.c:146-155 | `NeStrMerge` reallocates to length + 1 without writing a terminating NUL | merging "b" onto "a" | the merged text is NUL-terminated, like every other NeStr buffer | not executed | NeStr.MergeEndIsJunk | NeStr.StrMergeTerminated |
| src/lib.c:214-218 | `lib_replace_ext` keeps the stem only when the dot lies more than one character past the last separator, and otherwise writes the replacement alone | "a.wem" with ".ogg" gives ".ogg" | "a.ogg" | not executed | LibUtil.ShortStemDropped | LibUtil.IntendedReplacesOwnExtension |
| src/lib.c:215-217 | a name without an extension is dropped, not extended | "dir/name" with ".ogg" gives ".ogg" | "dir/name.ogg" | not executed | LibUtil.NoExtensionDropsName | LibUtil.IntendedReplacesOwnExtension |
| src/input.c:311-343 | `neinput_check_extension` copies the extension but compares the whole argument with each candidate | "lib.OCBL" against the candidate "ocbl" | the text after the dot is compared, so "ocbl" is found at position 0 | not executed | InputArgs.OcblMissedAsWritten | InputArgs.OcblFoundIntended |
| src/input.c:270-286 | `i_add_library` indexes `libraries[i]->` rather than `(*libraries)[i].` | adding a third library | the i-th entry of the array `*libraries` | not executed | InputArgs.ThirdLibraryOverruns | InputArgs.AsWrittenAgrees |
| src/neinput.c:254-255 | `nestate_init` stores a filter argument's list but always installs a white list, whatever "-black" chose | "-black 1" | a black list of stream 1 | not executed | NeInputState.BlackListBecomesWhite | NeInputState.FilterVersionsDifferOnlyInType |
| src/process.c:129-140 | "+q" falls through to the final `return 0` | "+q" | 1, like every other option | not executed | ProcessArgs.LouderAnswersZero | ProcessArgs.IntendedAnswersUse |
| src/process.c:152-173 | `determine_type`'s short-read error is overwritten by the type check of the zero-padded fourcc | a file of 2 bytes | TYPE_ERR_READ is returned | not executed | ProcessArgs.ShortReadIsTypeError | ProcessArgs.ShortReadReported |
| src/main.c:178 | the loop stops only once `argcount > MAXFILES` | MAXFILES + 1 distinct file names | at most MAXFILES files | not executed | MainArgs.ListReachesOneTooMany | MainArgs.StepIntendedBounded |
| src/rifflist.c:53-68 | `riff_size` is a 32-bit sum of the size word and 8 | a size word of 0xFFFFFFF8 | the scan never records an empty RIFF or stalls | not executed | RiffScan.RiffListSizeWraps | RiffScan.RiffListStepsAgree |
| src/wsp_meta.c:55-67 | the bound check adds offset and size in 32 bits | a RIFF at offset 4 announcing 0xFFFFFFF4 bytes: the WEM is recorded, the offset wraps to 0 and the read pointer leaves the buffer | the scan stops at a WEM overrunning the buffer | not executed | RiffScan.WspOffsetWraps | RiffScan.WspStepsAgree |
| src/riff.c:353-356 | an unrecognised chunk is skipped by adding its announced size to `consumed`, whether or not its bytes are stored | a "smpl" chunk announcing 8192 bytes with 4096 bytes buffered: `consumed` passes `stored`, and the next riff_data_sync_buffer wraps `stored -= consumed` (riff.c:152-155) | the chunk is skipped only once all of it is stored, as a basic chunk is copied only then | not executed | Riff.UnknownChunkOverrunsStore | Riff.ReadHeaderIntended |
