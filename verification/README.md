# Verified models of slang-rhi

This project models the stateful core of slang-rhi in Dafny and proves what its callers rely on. Each component of
the original has one or a few modules:

- `NodeList`, `StagingPage`, `StagingHeap` (`src/staging-heap.cpp`): a page is a list of nodes that tiles its
  capacity. Allocation is aligned first fit with prefix and suffix splitting, freeing coalesces. The heap adds pages,
  recycling of one empty page and locking of pages to threads. The node list is canonical: it is a function of the
  live blocks alone.
- `TransientPages`, `TransientHeap`, `TransientArena` (`src/transient-buffer-heap.cpp`): arenas lease chunks from
  pages and bump-allocate inside them. A ghost list of leases, each with its owner, ties the chunks that any number of
  arenas hold to the counters of pages and heap. `TransientArena.Interleave` runs an arbitrary interleaving.
- `StateTracking` (`src/state-tracking.h`): the compressed per-texture state agrees with a plain map from subresource
  to state, and the barrier log replays to it.
- `PipelineModel`, `PipelineDevice`, `ResolverSpec`, `ResolverSteps`, `PipelineResolver`
  (`src/pipeline-resolver.cpp`, `src/device.cpp`): the serial resolution of a command list and the batched one with
  deduplication, compile mutexes and tasks that run in any order. `PipelineModel.Resolved` says what either achieves,
  `PipelineModel.Succeeds` when; both paths meet both, and `PipelineModel.ResolutionsAgree` draws the consequence.
  Objects have serials; that every object in the tables or named by a command has been counted is kept by every path.
  `PipelineResolver.ResolveTwice` shows that resolving is idempotent.
- `TextureUpload` (`src/command-buffer.cpp`, `src/rhi-shared.cpp`): subresource layouts and the copy loops that fill
  a staging buffer.
- `QueryPool` (`src/rhi-shared.cpp`, `src/command-list.cpp`): slots packed in 64 bits, marks over ranges, and the
  coalescing of recorded writes.
- `Specialization` (`src/shader-object.cpp`): the collection of specialization arguments from a tree of objects.
- `StbMatch`, `StbZlib`, `StbCrc`, `StbPng`, `StbTga`, `StbHdr` (`external/stb/stb_image_write.h`): the image encoders,
  each against a reference decoder written from the format: `ZlibFormat` and `ZlibTokens` (RFC 1951 and RFC 1950),
  `PngFormat` (RFC 2083), and the packet decoders at the head of `StbTga` and `StbHdr`. What is written is also determined
  byte for byte: `StbMatch` says which tokens the match search yields, `StbZlib.CompressedOnce` and `StbPng.FileOnce` that
  there is one output.
- `Arithmetic`, `BitStrings`, `Sequences`, `Wrappers`: shared definitions.

Objects whose methods update their fields are classes, loops are loops, and each method is proved against a
specification function or a property stated outright. Foreign operations (buffer creation and mapping, the compiler,
pipeline creation) are outcomes passed as parameters or uninterpreted deterministic functions. Methods that the
original protects with a mutex are atomic steps. The iteration order of unordered containers and the completion order
of tasks are arbitrary.

`dafny verify dfyconfig.toml` checks the whole project.

Where code and intention part, the code is modelled and the exact condition is proved:

- A texture range of some layers is transitioned up to the texture's last layer (`StateTracking.VisitedIsRequested`,
  `StateTracking.LayerCountIgnored`).
- Compressing no data with the stored fallback writes no block, so no inflater accepts the result
  (`StbZlib.ZlibCompress`).
- A staging page whose mapping fails stays behind, empty and unmapped (`StagingHeap.Heap.RecycledAfterFailedMap`). Later
  requests may be served from it, and then have no address (`StagingHeap.Heap.AllocInternal`,
  `StagingHeap.UnmappedBlock`); removing it breaks the assertion that it is mapped (`StagingHeap.Heap.Free`).
- A transient arena can fail a small request because the larger chunk it asks for is too large after rounding
  (`TransientArena.RoundedChunkTooLarge`, `TransientArena.RoundingFits`). Sizes close to 2^64 are rounded to nothing, so
  the heap serves them with empty chunks (`TransientPages.AlignAllocationSize`, `TransientHeap.LargestRequest`).
- A coalesced query write that sticks out of its pool is dropped together with its valid part, and where 32-bit sums
  wrap, coalescing can lose or add a write (`QueryPool.MergeExact`, `QueryPool.WrapLosesWrite`,
  `QueryPool.WrapAddsWrite`).
- Specialization arguments that the user supplies for a later array element are appended, not joined
  (`Specialization.FoldIsJoin`, `Specialization.UserArgsTwice`).
- A TGA image larger than 65535 in a dimension does not decode to itself (`StbTga.WriteTga`, `StbTga.OversizeHeader`),
  and the search for the end of a raw packet compares a pixel with the one two before it (`StbTga.MeasurePacket`).
- The estimate that chooses a PNG filter overflows for lines of 16 MiB and more, and for every such length there is a row
  for which the choice is not the best one (`StbPng.LeastExactly`, `StbPng.WideRowMisjudged`); what is written decodes
  all the same.
- A program without entry points is marked as compiled by the serial path and not by the batched one; nothing else that
  is recorded differs (`ResolverSpec.ProgressAgrees`).
- With staging pages mapped on demand, two blocks of one page cannot be mapped at the same time
  (`StagingHeap.Heap.Map`, `StagingHeap.MapBoth`).

## Model

| member | source | states |
|---|---|---|
| `StbZlib.ZlibCompress` | external/stb/stb_image_write.h:895-1022 | A standard inflater gives the data back exactly when there is some (for no data the stored fallback writes no block); the output is at most n + 6 + 5*ceil(n/32767) bytes; its body is the bits of the tokens that the match search determines, or the stored blocks exactly if those bits take more bytes than the stored bound |
| `StbZlib.BitReverse` | external/stb/stb_image_write.h:849-857 | Sending the reversed code low bit first sends the code high bit first |
| `StbZlib.BitWriter.Flush` | external/stb/stb_image_write.h:839-847 | Moves whole bytes out; the bit stream (bytes and pending bits) is unchanged and fewer than eight bits stay |
| `StbZlib.BitWriter.Add` | external/stb/stb_image_write.h:880-881 | Appends exactly the low bits of the code to the stream; nothing is lost in 32 bits |
| `StbZlib.BitWriter.AddCode` | external/stb/stb_image_write.h:882 | Appends a Huffman code, most-significant bit first |
| `StbZlib.BitWriter.Huff` | external/stb/stb_image_write.h:884-888 | Appends the fixed code of any literal/length symbol, as section 3.2.6 of RFC 1951 tabulates it |
| `StbZlib.BitWriter.HuffByte` | external/stb/stb_image_write.h:889 | Appends the fixed code of a literal byte |
| `StbZlib.BitWriter.Pad` | external/stb/stb_image_write.h:976-978 | Pads with fewer than eight zero bits, after which the bytes are the whole stream |
| `StbMatch.CountMatching` | external/stb/stb_image_write.h:859-865 | Returns the length of the common prefix, capped at 258 and at the data |
| `StbMatch.FindBest` | external/stb/stb_image_write.h:924-933 | Finds the last of the longest usable matches among the bucket entries, or none exactly when none is usable |
| `StbMatch.PushPosition` | external/stb/stb_image_write.h:934-939 | The new bucket: the older half goes when it is full, then the position is added; it only holds passed positions |
| `StbMatch.NextIsBetter` | external/stb/stb_image_write.h:941-955 | True exactly when some entry in the next position's bucket has a strictly longer match |
| `StbMatch.ChooseMatch` | external/stb/stb_image_write.h:922-955 | The chosen token is the one that the positions recorded so far determine: the last longest usable match unless the next position has a longer one; the position is recorded in its bucket and no other bucket changes |
| `StbMatch.BucketLatest` | external/stb/stb_image_write.h:934-939 | A bucket holds the latest of all positions recorded with its hash: all of them up to twice the quality, then between quality + 1 and twice the quality by a stated count |
| `StbMatch.BucketOfBytes` | external/stb/stb_image_write.h:867-877 | Equal three bytes are hashed to equal buckets, wherever they stand |
| `StbMatch.ThreeOnce` | external/stb/stb_image_write.h:869 | What is hashed tells any three bytes from any others |
| `StbMatch.ZhashExamples` | external/stb/stb_image_write.h:870-875 | The hash of five inputs in 32-bit arithmetic, as numbers |
| `StbMatch.BucketExample` | external/stb/stb_image_write.h:922 | The bucket of three equal letters is the low fourteen bits of their hash |
| `StbMatch.SomeLongest` | external/stb/stb_image_write.h:924-933 | There is a longest usable match exactly when some entry is usable |
| `StbMatch.TokenUnique` | external/stb/stb_image_write.h:922-970 | At most one token is right at a position: the literal or one match, never both |
| `StbMatch.ParseUnique` | external/stb/stb_image_write.h:920-974 | The data and the quality determine all tokens up to the end |
| `StbZlib.TokensDecode` | external/stb/stb_image_write.h:957-970 | The bits of tokens that the search determines decode to the bytes they stand for |
| `StbZlib.CompressedOnce` | external/stb/stb_image_write.h:895-1022 | The data and the quality determine the output byte for byte, fallback and checksum included |
| `StbZlib.LengthTable` | external/stb/stb_image_write.h:901 | The length base table is that of section 3.2.5 of RFC 1951 |
| `StbZlib.LengthGap` | external/stb/stb_image_write.h:901-902 | The extra-bit counts are those of the RFC and neighbouring length codes leave no gap |
| `StbZlib.DistanceTable` | external/stb/stb_image_write.h:903 | The distance base table is that of section 3.2.5 of RFC 1951 |
| `StbZlib.DistanceGap` | external/stb/stb_image_write.h:903-904 | The extra-bit counts are those of the RFC and neighbouring distance codes leave no gap |
| `StbZlib.FindLengthCode` | external/stb/stb_image_write.h:960-962 | Every length from 3 to 258 gets a code and extra value that a decoder turns back into the length |
| `StbZlib.FindDistanceCode` | external/stb/stb_image_write.h:963-965 | Every distance from 1 to 32767 gets a code and extra value that a decoder turns back into the distance |
| `StbZlib.WriteLength` | external/stb/stb_image_write.h:960-962 | Appends exactly the length symbol and extra bits |
| `StbZlib.WriteDistance` | external/stb/stb_image_write.h:963-965 | Appends exactly the reversed five-bit distance code and extra bits |
| `StbZlib.WriteMatches` | external/stb/stb_image_write.h:921-971 | The bits are those of the one list of tokens that the recorded positions determine, turn by turn, and they decode to the bytes passed; at most three bytes are left |
| `StbZlib.WriteSymbols` | external/stb/stb_image_write.h:972-974 | All bytes are passed, and the bits decode to all of the data |
| `StbZlib.CompressFixed` | external/stb/stb_image_write.h:911-978 | Header, block bits of the determined tokens, end symbol and zero padding, and they inflate to the data |
| `ZlibTokens.TakeSymbolBits` | external/stb/stb_image_write.h:884-888 | The fixed codes are uniquely decodable: a decoder takes back the symbol whatever follows |
| `ZlibTokens.InflateMatch` | external/stb/stb_image_write.h:957-966 | A written match makes the inflater copy the right length from the right distance |
| `ZlibTokens.CopyBackRepeats` | external/stb/stb_image_write.h:957-966 | Copying byte by byte from a matching earlier position, overlapping or not, reproduces the data |
| `StbZlib.StoreUncompressed` | external/stb/stb_image_write.h:984-999 | Replaces the body by the stored blocks of all of the data; every block fits in the room of the longer output that it replaces |
| `StbZlib.StoredHeader` | external/stb/stb_image_write.h:990-994 | The five header bytes: final flag, length and its complement, low byte first |
| `StbZlib.StoredInflates` | external/stb/stb_image_write.h:984-999 | The stored blocks from any position inflate to the rest of the data and end there |
| `StbZlib.AdlerBlock` | external/stb/stb_image_write.h:1007 | The inner loop never wraps in 32 bits and keeps the residues of the sums |
| `StbZlib.MaxS2Fits` | external/stb/stb_image_write.h:1004-1010 | 5552 bytes are few enough for both sums to stay below 2^32 |
| `StbZlib.AdlerBlocks` | external/stb/stb_image_write.h:1002-1011 | Reducing once per block gives the Adler-32 sums of section 2.2 of RFC 1950 |
| `StbZlib.ChecksumBytes` | external/stb/stb_image_write.h:1012-1015 | The trailer reads back as s2 * 65536 + s1 |
| `StbPng.WritePng` | external/stb/stb_image_write.h:1128-1212 | A PNG decoder gives back width, height and every row, for any stride, negative ones included, and in flipped order if asked, exactly when there is a row; the data is the compression, at the given level, of the rows filtered as forced or chosen |
| `StbPng.EncodeLine` | external/stb/stb_image_write.h:1092-1126 | Unfiltering the line with the recorded filter type restores the row, for every filter, with the first row's mapping and with vertical flip, as long as offsets fit the int they are computed in |
| `StbPng.EncodeRow` | external/stb/stb_image_write.h:1102-1125 | The same for a row and the row above it at any place in the pixels |
| `StbPng.Paeth` | external/stb/stb_image_write.h:1083-1089 | Computes the predictor of section 6.6 of RFC 2083 |
| `StbPng.FirstMapPredicts` | external/stb/stb_image_write.h:1095 | With zeros above, the first row's substitute filters predict what the recorded filters predict |
| `StbPng.RowAbove` | external/stb/stb_image_write.h:1099-1100 | The row above in the output is one signed stride back in the pixels, flipped or not |
| `StbPng.UnfilterInjective` | external/stb/stb_image_write.h:1166-1169 | A row has one filtered line per filter, so encoding again with the best filter gives the estimated line |
| `StbPng.Estimate` | external/stb/stb_image_write.h:1156-1160 | Sums the magnitudes of the bytes as signed numbers in an int: the result is that sum exactly if it is below 2^31 |
| `StbPng.FilteredExactly` | external/stb/stb_image_write.h:1092-1126 | A line unfilters to a row exactly if it is the row less what the filter predicts from the row and the one above it |
| `StbPng.WideRowMisjudged` | external/stb/stb_image_write.h:1150-1165 | A first row of 16 MiB of the byte 128 goes out unfiltered: its estimate wraps around below the others, though another filter has a smaller magnitude |
| `StbPng.LeastExactly` | external/stb/stb_image_write.h:1150-1165 | Every row of a length is filtered with the first filter of least magnitude exactly if the length is below 16 MiB |
| `StbPng.FilterRow` | external/stb/stb_image_write.h:1146-1173 | Takes the forced filter, or the first whose line has the least estimate; the line buffer holds the line of that filter |
| `StbPng.FilterRows` | external/stb/stb_image_write.h:1144-1174 | The filtered image decodes to all output rows and has height * (row length + 1) bytes; each row begins with the forced filter, or with the chosen one if none of the five is forced |
| `StbPng.RightFilterOnce` | external/stb/stb_image_write.h:1146-1173 | Each row has one right filter |
| `StbPng.OutputByte` | external/stb/stb_image_write.h:1095-1101 | Every byte of an output row, flipped or not, is the one at origin plus rows times stride in memory |
| `StbPng.FileOnce` | external/stb/stb_image_write.h:1128-1212 | Pixels, forced filter and compression level determine the file byte for byte |
| `PngFormat.TypesSpell` | external/stb/stb_image_write.h:1187-1207 | The three chunk types spell IHDR, IDAT and IEND |
| `StbCrc.ByteLinear` | external/stb/stb_image_write.h:1024-1069 | The remainder of an exclusive or is the exclusive or of the remainders |
| `StbCrc.TableStep` | external/stb/stb_image_write.h:1065-1069 | One byte step through the table as it is listed is eight bit steps of the polynomial division |
| `StbCrc.EntryIsRemainder` | external/stb/stb_image_write.h:1024-1063 | Each of the 256 words of the table is the remainder of its index |
| `StbCrc.Crc` | external/stb/stb_image_write.h:1024-1072 | Computes the CRC of section 3.4 of RFC 2083, bit by bit, a byte at a time through the table |
| `StbPng.TakeChunkBack` | external/stb/stb_image_write.h:1073-1081 | A decoder takes a written chunk back, whatever follows |
| `StbPng.WriteChunk` | external/stb/stb_image_write.h:1187-1207 | Appends length, tag, data and the CRC over tag and data |
| `StbPng.DecodeFile` | external/stb/stb_image_write.h:1185-1207 | Signature and three chunks decode to the image behind the compressed rows |
| `StbTga.WriteTga` | external/stb/stb_image_write.h:532-609 | For images whose row offsets fit an int, a decoder gives back every row, bottom-up or flipped, exactly if both sizes fit the header's 16 bits; the file is the header and, row by row, exactly the packets that the row's pixels determine; negative sizes write nothing |
| `StbTga.OversizeHeader` | external/stb/stb_image_write.h:543-548 | A width of 65536 is written as a width of zero |
| `StbTga.FileSample` | external/stb/stb_image_write.h:561-566 | Every sample of the file rows is the one at (row * width + column) * components of the data |
| `StbTga.SamplesBack` | external/stb/stb_image_write.h:418-449 | Blue, green, red and alpha as stored are taken back as red, green, blue and alpha |
| `StbTga.WriteRow` | external/stb/stb_image_write.h:563-604 | The packets are those that the lengths determine, one after the other; whatever follows, a decoder consumes exactly these bytes and restores the row |
| `StbTga.MeasurePacket` | external/stb/stb_image_write.h:564-591 | Packet lengths are 1 to 128 within the row; a run is maximal and of equal pixels; a raw packet ends with the row, at 128 pixels, or one short of a pixel that equals the one two before it |
| `StbTga.RawPacket` | external/stb/stb_image_write.h:593-598 | A raw packet decodes to its pixels |
| `StbTga.RunPacket` | external/stb/stb_image_write.h:599-603 | A run packet decodes to its copies |
| `StbTga.Writer.Flush` | external/stb/stb_image_write.h:386-392 | Hands over what waits; the byte stream is unchanged |
| `StbTga.Writer.Write1` | external/stb/stb_image_write.h:399-404 | Appends one byte to the stream; what waits is handed over first exactly if the buffer is full |
| `StbTga.Writer.Write3` | external/stb/stb_image_write.h:406-416 | Appends three bytes to the stream; what waits is handed over first exactly if they do not fit behind it |
| `StbTga.Writer.WritePixel` | external/stb/stb_image_write.h:418-449 | Appends the pixel blue first and alpha last |
| `StbHdr.WriteScanline` | external/stb/stb_image_write.h:672-759 | Whatever follows, a decoder takes the same RGBE pixels back, for every width; the bytes are the flat pixels or the marker and the four coded planes |
| `StbHdr.WritePlane` | external/stb/stb_image_write.h:725-756 | The packets of a plane decode to the plane; every maximal run from the first three equal bytes on goes out as runs, and what lies between as dumps |
| `StbHdr.FindRun` | external/stb/stb_image_write.h:727-735 | Finds the first three equal bytes in a row, or the width |
| `StbHdr.WriteDumps` | external/stb/stb_image_write.h:736-742 | Dumps of at most 128 bytes decode to the bytes up to the run |
| `StbHdr.WriteRuns` | external/stb/stb_image_write.h:748-754 | Runs of at most 127 bytes decode to the run, and no count can be taken for a dump |
| `StbHdr.SplitPlanes` | external/stb/stb_image_write.h:700-717 | The scratch buffer holds the four planes side by side |
| `PipelineResolver.Resolve` | src/pipeline-resolver.cpp:97-113 | Serial and batched modes succeed on exactly the same inputs, each with its exact status; success gives every command its outcome in its own fields: for a program that takes arguments the object cached for pipeline and arguments or a new one specialized with them, otherwise the slot's object or a new one; a batched failure leaves caches, slots and commands naming virtual pipelines alone; each compile mutex is taken at most once, on success that of every needed program, and none is held at the end |
| `PipelineResolver.Resolver.RunPhases` | src/pipeline-resolver.cpp:97-113 | The batched status is a function of the inputs alone, whatever order tasks complete in |
| `PipelineDevice.ResolveSerial` | src/pipeline-resolver.cpp:187-202 | Succeeds exactly when every unresolved key can be served, and then gives every command its outcome with one new object per distinct key; otherwise the status is that of the first command that fails, and only the commands before it are resolved; success leaves exactly the specializations and compiled programs that the unresolved keys need |
| `PipelineDevice.SoundStatus` | src/pipeline-resolver.cpp:187-202 | What a key is answered does not depend on what has been specialized or compiled for earlier commands |
| `PipelineDevice.SerialStays` | src/pipeline-resolver.cpp:187-202 | Once a command has failed, the commands behind it do not change the status |
| `PipelineModel.ResolutionsAgree` | src/pipeline-resolver.cpp:187-464 | Any two resolutions of a list from the same state agree: same published keys, same number of objects created, commands name pipelines of the same origin and program, and two commands share an object in one exactly if they do in the other |
| `PipelineModel.SharingDecided` | src/pipeline-resolver.cpp:187-464 | Which commands share an object after resolution is decided by the commands and the state before: equal known pipelines, or equal keys without one |
| `PipelineModel.NewIsNew` | src/pipeline-resolver.cpp:386-462 | A command with an unresolved key comes to name an object that did not exist before |
| `PipelineModel.SharedByKey` | src/pipeline-resolver.cpp:204-254 | Two commands with unresolved keys share a pipeline exactly if their keys are equal |
| `PipelineModel.ResolvedOutcomes` | src/pipeline-resolver.cpp:204-254 | In a resolved list a command keeps its kind, loses its arguments and names the pipeline that its own pipeline, program and arguments call for; a new one is made from that pipeline, for its program specialized with those arguments |
| `PipelineModel.SharedByArguments` | src/pipeline-resolver.cpp:222-231 | Two commands with new pipelines of specializable programs share one exactly if pipeline and arguments are equal |
| `PipelineModel.ResolvedIsConcrete` | src/pipeline-resolver.cpp:443-462 | After resolution from any state that resolving can reach no command names a virtual pipeline |
| `PipelineModel.AgainSucceeds` | src/pipeline-resolver.cpp:187-464 | A resolved list can be resolved again whatever compiler and driver would answer |
| `PipelineModel.ResolvingAgain` | src/pipeline-resolver.cpp:187-464 | Any resolution of a resolved list leaves commands, caches and object count as they are |
| `PipelineResolver.ResolveTwice` | src/pipeline-resolver.cpp:187-464 | After a successful resolve a second one, in either mode, succeeds and changes neither the list nor what is published |
| `ResolverSpec.BatchedSucceeds` | src/pipeline-resolver.cpp:204-440 | The batched status is success exactly when the serial path succeeds |
| `ResolverSpec.PendingIsUnresolved` | src/pipeline-resolver.cpp:204-262 | The pending requests are the unresolved keys, each once |
| `ResolverSpec.ProgressAgrees` | src/pipeline-resolver.cpp:257-367 | After success both modes have cached the same specializations and marked the same programs as compiled, but for those without entry points, which only the serial mode marks |
| `PipelineResolver.Resolver.CollectRequests` | src/pipeline-resolver.cpp:204-254 | One request per distinct key with all its commands and its known pipeline; fails exactly if a specializable pipeline lacks arguments |
| `PipelineResolver.Resolver.PreparePrograms` | src/pipeline-resolver.cpp:257-293 | Locks and prepares every distinct program once, in order, and caches every specialization asked for; the status is the first failure in request order |
| `PipelineResolver.Resolver.RunCompileTasks` | src/pipeline-resolver.cpp:301-345 | Whatever order tasks run in, every entry point ends up with the result of its own compilation |
| `PipelineResolver.Resolver.FirstCompileFailure` | src/pipeline-resolver.cpp:347-357 | Returns the first failure by program and entry point |
| `PipelineResolver.Resolver.InstallPrograms` | src/pipeline-resolver.cpp:359-366 | Installs in order and releases every mutex; on success none is held and exactly the programs with entry points are marked as compiled |
| `PipelineResolver.Resolver.CompilePrograms` | src/pipeline-resolver.cpp:295-367 | The status does not depend on the schedule; after success no compile mutex is held |
| `PipelineResolver.Resolver.RunCreateTasks` | src/pipeline-resolver.cpp:400-433 | Whatever order tasks run in, each request has its own new object or its own failure |
| `PipelineResolver.Resolver.CreatePipelines` | src/pipeline-resolver.cpp:386-440 | Runs with no mutex held and publishes nothing; the status is the first failure in request order |
| `PipelineResolver.Resolver.Finalize` | src/pipeline-resolver.cpp:443-462 | Publishing and patching every request resolves the list |
| `PipelineDevice.Device.GetSpecializedProgram` | src/device.cpp:170-194 | Specializes once; later calls find the program again |
| `PipelineDevice.Device.CompileShaders` | src/shader.cpp:111-136 | Succeeds exactly when the program is compiled already or can be built; otherwise the status is the first failure of preparation, entry points and installation |
| `PipelineDevice.Device.GetConcretePipeline` | src/device.cpp:238-332 | Returns a known pipeline unchanged, or fails without publishing and with the status of the step that failed, or publishes one new object for the pipeline and exactly the given arguments |
| `StagingPage.Page.AllocNode` | src/staging-heap.cpp:286-343 | Complete and optimal first fit: succeeds exactly if an aligned free range of the size exists, returns the least such offset, and adds only that block to the live ones |
| `StagingPage.FirstFitIsLeast` | src/staging-heap.cpp:298-306 | The first node that fits yields the least aligned offset of any free range |
| `StagingPage.NoFitNoCandidate` | src/staging-heap.cpp:298-306 | If no node fits there is no aligned free range at all |
| `StagingPage.RangeInOneNode` | src/staging-heap.cpp:352-373 | Because free neighbours are merged, every free range lies inside one free node |
| `StagingPage.Page.FreeNode` | src/staging-heap.cpp:345-381 | Removes exactly that block from the live ones, keeps the tiling, and unlocks an empty page |
| `StagingPage.Page.Merge` | src/staging-heap.cpp:352-376 | The list surgery equals joining the node with its free neighbours |
| `StagingPage.FreedTiles` | src/staging-heap.cpp:345-381 | Freeing keeps the tiling without two adjacent free nodes |
| `NodeList.Canonical` | src/staging-heap.cpp:383-415 | The live ranges alone determine offsets, sizes and free flags of the node list: history does not matter |
| `NodeList.EmptyIsInitial` | src/staging-heap.cpp:277-284 | With nothing live the page is its single initial free node again, whatever the order of frees |
| `StagingPage.AllocFreeRestores` | src/staging-heap.cpp:286-381 | Two partitions with the same live ranges, one of them after a block came and went, have the same offsets, sizes and free flags |
| `StagingPage.Page.AllocThenFree` | src/staging-heap.cpp:286-381 | Allocating a block and freeing it restores the node list, the use count and, on an empty page, the lock |
| `StagingPage.Page.CheckConsistency` | src/staging-heap.cpp:383-415 | Passes exactly when every one of its assertions holds |
| `StagingPage.Page.ValidIsConsistent` | src/staging-heap.cpp:383-415 | Every page in a state that the operations keep passes the check |
| `StagingHeap.Heap.AllocInternal` | src/staging-heap.cpp:78-131 | The block takes the least offset of the first page in table order that offers a range, or begins a new page of the standard size or exactly its own; totals in step, other blocks untouched; a page is created exactly if the rounded size is the page size or more, or no page that the thread may use offers a range, and creation or mapping decide the outcome exactly then; at most one empty page of standard size is kept, except after a failed mapping under the stated condition; with pages kept mapped the block lies in a mapped page exactly if its page is not one that an earlier failed mapping left behind |
| `StagingHeap.Heap.ScanPages` | src/staging-heap.cpp:95-115 | For any order of the page table, fails exactly if no usable page offers a range, and otherwise takes the first that does |
| `StagingHeap.Heap.AllocNewPage` | src/staging-heap.cpp:117-130 | The new page has the standard size or that of the request, which begins it, and is mapped when pages are kept mapped; after a failed mapping exactly one page has joined, empty and unmapped, and the recycling bound holds exactly under the stated condition |
| `StagingHeap.Heap.RecycledAfterFailedMap` | src/staging-heap.cpp:237-247 | A page left behind by a failed mapping keeps the bound on empty pages exactly if it is the only empty page and of standard size |
| `StagingHeap.Heap.AllMappedExactly` | src/staging-heap.cpp:245-247 | With pages kept mapped all of them are mapped exactly if no mapping has failed for a page that is still there |
| `StagingHeap.Heap.Map` | src/staging-heap.cpp:175-183 | The block's place in the mapping of its page; with pages kept mapped it is an offset from the null pointer exactly if that page's mapping failed; on demand the assertion fails exactly if the page is mapped already |
| `StagingHeap.Heap.Unmap` | src/staging-heap.cpp:185-191 | Undoes map unless pages are kept mapped, and touches nothing else; the assertion fails exactly if the page is not mapped |
| `StagingHeap.AllocUnmapped` | src/staging-heap.cpp:95-115 | When only a page whose mapping failed is there, any request below the standard size gets a block of it, and an offset from the null pointer as its address |
| `StagingHeap.MapBoth` | src/staging-heap.cpp:175-191 | With pages mapped on demand, mapping a second block of a page while the first is mapped fails the assertion, and so does unmapping both |
| `StagingHeap.UnmappedBlock` | src/staging-heap.cpp:237-247 | The same at a concrete input: a failed mapping, then a request that succeeds without an address |
| `StagingHeap.Heap.Free` | src/staging-heap.cpp:193-221 | Removes exactly that block and keeps totals and thread locks; its page goes exactly if it holds no other block and has another size than the standard one or another page is empty already; the assertion that a removed page is mapped holds exactly if it was, and always while all pages are mapped |
| `StagingHeap.Heap.AllocPage` | src/staging-heap.cpp:223-251 | Adds an empty page and its capacity; fails before or after adding it, as creation or mapping does, and in the second case the page stays unmapped |
| `StagingHeap.Heap.FreePage` | src/staging-heap.cpp:253-263 | Removes an empty page and its capacity and nothing else; with pages kept mapped its assertion holds exactly if the page was mapped |
| `StagingHeap.Heap.Release` | src/staging-heap.cpp:24-43 | Removes exactly the empty pages; with nothing live no page is left; its assertions on mapping hold exactly if every removed page was mapped |
| `StagingHeap.Heap.AlignAllocationSize` | src/staging-heap.h:203-206 | Rounds a 64-bit size up to a multiple of the granularity by less than one granularity; to zero exactly if it is zero or the sum overflows |
| `StateTracking.Tracker.SetTextureState` | src/state-tracking.h:57-125 | Every subresource from the range's first layer on and of its mips gets the state with exactly one barrier where needed, all others are left alone; the barriers, in order, are one for an unexpanded texture that the range names as a whole, and otherwise one by one; the log replays to the tracked states |
| `StateTracking.Tracker.SetBufferState` | src/state-tracking.h:41-55 | The buffer gets the state; a barrier with its true previous state is emitted exactly if needed |
| `StateTracking.Tracker.GetBufferState` | src/state-tracking.h:168-175 | An untracked buffer starts out in its default state; nothing observable changes |
| `StateTracking.Tracker.RequireDefaultStates` | src/state-tracking.h:127-143 | Every tracked resource is back at its default by exactly the barriers this needs, in order; if all were there already nothing changes |
| `StateTracking.VisitedIsRequested` | src/state-tracking.h:86-90 | The subresources visited are those requested exactly if the range reaches the last layer or has no mips |
| `StateTracking.LayerCountIgnored` | src/state-tracking.h:86-90 | A range of one layer of two also transitions the second layer |
| `StateTracking.CanonicalUnique` | src/state-tracking.h:78-123 | Equal subresource states have equal compressed representations |
| `StateTracking.Tracker.Compress` | src/state-tracking.h:107-123 | Folding keeps every subresource state and leaves the canonical form |
| `StateTracking.Tracker.Expand` | src/state-tracking.h:80-84 | Spreading a single state over a vector changes no subresource state |
| `StateTracking.Tracker.TransitionSubresource` | src/state-tracking.h:90-104 | One subresource is set with one barrier if needed, all others are left alone |
| `StateTracking.BarrierTellsTruth` | src/state-tracking.h:91-101 | A subresource barrier states the true previous state and is not redundant |
| `StateTracking.EntireTruth` | src/state-tracking.h:70-77 | A whole-texture barrier states the true previous state of every subresource |
| `StateTracking.Resolve` | src/rhi-shared.cpp:165-173 | A resolved range lies inside the texture |
| `StateTracking.ResolvedRange` | src/rhi-shared.cpp:165-173 | A range that starts in the texture names after resolution what it named before and the texture has; one inside the texture stays as it is |
| `StateTracking.ResolvedBeyond` | src/rhi-shared.cpp:168-170 | A range that starts behind the last layer or mip starts at the last one |
| `StateTracking.EntireIsAll` | src/rhi-shared.cpp:176-186 | A resolved range counts as the entire texture exactly if it names every subresource |
| `StateTracking.SetByResolved` | src/state-tracking.h:57-125 | The subresources visited after resolution are those that the caller's range says |
| `StateTracking.IndexInjective` | src/state-tracking.h:90 | Distinct subresources have distinct vector indices |
| `StateTracking.IndexOnto` | src/state-tracking.h:90 | Every vector index belongs to a subresource |
| `StateTracking.Tracker.ClearBarriers` | src/state-tracking.h:149-153 | Hands the barriers over; states and the full log stay |
| `StateTracking.Tracker.Clear` | src/state-tracking.h:155-160 | Every resource counts as being in its default state again |
| `TransientHeap.Heap.Allocate` | src/transient-buffer-heap.cpp:107-162 | Fails exactly on zero size, on sizes too large after rounding in 64 bits, and when a needed page cannot be created; otherwise leases an aligned chunk of the rounded size from the current page, else the first best empty page, else a new one of the first size in the growing chain that holds it, and that page alone changes; the invariant holds |
| `TransientHeap.LargestRequest` | src/transient-buffer-heap.cpp:107-162 | The largest 64-bit size succeeds with an empty chunk, and the heap cannot be released as its assertions demand |
| `TransientHeap.EmptyPageFits` | src/transient-buffer-heap.cpp:160-161 | The last attempt never fails |
| `TransientHeap.Heap.TryAllocate` | src/transient-buffer-heap.cpp:118-135 | Succeeds exactly if the chunk fits after alignment, and updates page, counters and leases together |
| `TransientHeap.Heap.FindEmptyPage` | src/transient-buffer-heap.cpp:140-149 | Finds the first of the smallest empty pages that hold the chunk |
| `TransientHeap.Heap.AllocatePage` | src/transient-buffer-heap.cpp:78-105 | Adds one empty page with its capacity, or changes nothing |
| `TransientHeap.Heap.GetNewPageSize` | src/transient-buffer-heap.cpp:59-65 | Terminates with the first size in the chain of growing sizes that holds the request, within the largest page size if the request is, and less than twice the request unless the next size already holds it |
| `TransientPages.GrowPageSize` | src/transient-buffer-heap.cpp:52-57 | The smaller of twice the size and the largest page size; strictly grows until that is reached |
| `TransientPages.NextPageSizeIsMaximum` | src/transient-buffer-heap.cpp:67-76 | The next page size is the maximum of the initial size and what each page size grows to |
| `TransientPages.NextAfterLargest` | src/transient-buffer-heap.cpp:152-158 | After adding a page the incrementally kept next size equals the recomputation |
| `TransientHeap.Heap.UpdateNextPageSize` | src/transient-buffer-heap.cpp:67-76 | Recomputes the next page size from the pages |
| `TransientHeap.Heap.TrimRetainedPages` | src/transient-buffer-heap.cpp:197-229 | Terminates with empty capacity within the budget; oversize pages go; otherwise exactly a least-recently-used prefix goes, and no shorter one would do |
| `TransientHeap.Heap.FindCandidate` | src/transient-buffer-heap.cpp:208-224 | Finds the first oversize empty page or, without one, the least recently used empty page; there always is one over budget |
| `TransientHeap.Heap.FreePage` | src/transient-buffer-heap.cpp:231-252 | Removes an empty page, its capacity and a reference to it as the current page |
| `TransientHeap.Heap.Free` | src/transient-buffer-heap.cpp:164-195 | All chunks of the arena come back one after the other, then exactly the retention budget decides which empty pages go; every other arena keeps its own, and the invariant holds |
| `TransientHeap.Heap.FreeChunk` | src/transient-buffer-heap.cpp:171-190 | One lease ends; exactly its page changes, and one that becomes empty starts over and counts as used last; all counters stay the sums they cache |
| `TransientHeap.EmptiedUsedLast` | src/transient-buffer-heap.cpp:178-189 | A page that becomes empty comes to be the one used last of all, so the others go before it |
| `TransientHeap.Heap.Release` | src/transient-buffer-heap.cpp:34-44 | Does nothing while bytes are leased; its assertions hold exactly if no chunk is leased, and then every page goes |
| `TransientPages.OwnedApart` | src/transient-buffer-heap.cpp:107-162 | No two leased chunks overlap, of one arena or of two |
| `TransientPages.BumpKeeps` | src/transient-buffer-heap.cpp:118-135 | A bump allocation keeps alignment, disjointness and all page counters |
| `TransientPages.UnbumpKeeps` | src/transient-buffer-heap.cpp:171-190 | Returning a chunk keeps them too |
| `TransientPages.AlignAllocationSize` | src/transient-buffer-heap.cpp:46-50 | The least multiple of the granularity that is not below the size, or zero exactly if adding the granularity overflows 64 bits |
| `TransientArena.Arena.Allocate` | src/transient-buffer-heap.cpp:306-347 | Succeeds exactly under the stated condition; appends one allocation of the rounded size behind the last one or in a new chunk; other arenas are unaffected |
| `TransientArena.Arena.AddChunk` | src/transient-buffer-heap.cpp:324-335 | A new chunk that holds the request; the next chunk size stays within its bounds |
| `TransientArena.Arena.Reset` | src/transient-buffer-heap.cpp:296-304 | Returns every chunk and forgets every allocation |
| `TransientArena.AllocationInPage` | src/transient-buffer-heap.cpp:338-345 | Every live allocation is aligned and lies in the used part of a page |
| `TransientArena.AllocationsApart` | src/transient-buffer-heap.cpp:306-347 | No live allocation overlaps another of its own or of any other arena |
| `TransientArena.Interleave` | src/transient-buffer-heap.cpp:296-347 | After any interleaving of calls by any number of arenas all of this holds |
| `TransientArena.RoundingFits` | src/transient-buffer-heap.cpp:112-114 | Rounding makes no request up to the largest page too large exactly if the largest page is a multiple of the granularity |
| `TransientArena.RoundedChunkTooLarge` | src/transient-buffer-heap.cpp:324-326 | Otherwise a small request can fail: an arena on a fresh heap fails one byte because the chunk it asks for is too large after rounding |
| `TextureUpload.UploadTextureData` | src/command-buffer.cpp:578-682 | In the end every row of every subresource is in the staging buffer; each layer and mip has a layout whose blocks cover the region of that mip and no more, at an aligned start |
| `TextureUpload.GatherLayouts` | src/command-buffer.cpp:598-614 | The layouts layer by layer and mip by mip, and their aligned total size |
| `TextureUpload.CopySubresources` | src/command-buffer.cpp:626-668 | No later row overwrites an earlier one, across slices, mips and layers, and every write stays inside the total size |
| `TextureUpload.CopySubresource` | src/command-buffer.cpp:635-660 | Every row of one subresource holds the leading bytes of its source row; nothing outside its range changes |
| `TextureUpload.HeldByte` | src/command-buffer.cpp:643-660 | Byte k of a row is at start plus slice and row pitches of the layout, and comes from slice and row pitches of the source |
| `TextureUpload.RowEnds` | src/command-buffer.cpp:643-660 | A row ends before the next row and the next slice start, and before the end of the region |
| `TextureUpload.BaseAligned` | src/command-buffer.cpp:608-611 | Every subresource starts at a multiple of the offset alignment |
| `TextureUpload.MipHalves` | src/rhi-shared.cpp:108-126 | Each mip has half the size of the one before, rounded down, and never less than one |
| `TextureUpload.RoundedUpCovers` | src/rhi-shared.cpp:129-130 | The number of blocks is the least that covers the length |
| `TextureUpload.MipLayoutAt` | src/command-buffer.cpp:598-614 | The layout of each mip is that of its region, with a size rounded up to the offset alignment and no further |
| `TextureUpload.LayerLayoutAt` | src/command-buffer.cpp:598-614 | The layout of a mip in a layer stands behind those of all layers before and of the mips before |
| `TextureUpload.LayoutOfRegion` | src/rhi-shared.cpp:95-144 | Fails exactly for an open extent whose offset is outside the mip; otherwise the blocks are the fewest that cover the region, the row pitch is the least aligned one that holds the blocks of a row, slices and region are whole rows and slices, and an open extent ends with the mip |
| `QueryPool.RunIsHistory` | src/rhi-shared.cpp:382-441 | After any run of marks a slot is pending since its latest submission until a completion reaches that ID, and reset if reset since |
| `QueryPool.CompletingResolves` | src/rhi-shared.cpp:423-476 | Completing a range up to the ID it reports makes it resolved, unless part of it is reset |
| `QueryPool.Pool.GetQueryRangeInfo` | src/rhi-shared.cpp:443-476 | Reset if any slot is, else pending if any is, else resolved, with the largest ID; reset for an invalid range and resolved for an empty one |
| `QueryPool.Pool.MarkQueryRangeSubmitted` | src/rhi-shared.cpp:408-421 | Exactly the slots of a valid range become pending with the ID |
| `QueryPool.Pool.MarkQueryRangeResolved` | src/rhi-shared.cpp:423-441 | Exactly the pending slots of a valid range with an ID up to the completed one become resolved |
| `QueryPool.Pool.ResetRange` | src/rhi-shared.cpp:382-397 | Exactly the slots of a valid range are reset; an invalid range is an error |
| `QueryPool.PackBack` | src/rhi-shared.h:305-322 | A slot comes back as it was set exactly if its ID fits 62 bits |
| `QueryPool.CommandList.TrackQueryWrite` | src/command-list.cpp:425-443 | Coalesces exactly writes of the same pool that adjoin in 32-bit arithmetic; submitting the coalesced ranges does what submitting each in-range recorded write does |
| `QueryPool.MergeExact` | src/command-list.cpp:432-440 | Merging two ranges that adjoin in 32 bits is exact, for all slots, exactly if the whole lies in the pool or neither the two nor the merged range, with its wrapped count, covers a slot |
| `QueryPool.WrapLosesWrite` | src/command-list.cpp:432-440 | A range outside a pool of four, merged with the one at slot 0, takes that one with it |
| `QueryPool.WrapAddsWrite` | src/command-list.cpp:432-440 | Two ranges outside the pool whose merged count wraps to one mark a slot that neither marks |
| `Specialization.CollectSpecializationArgs` | src/shader-object.cpp:553-650 | Terminates and appends the arguments of the tree, wherever the original's assertion holds |
| `Specialization.OneBound` | src/shader-object.cpp:571-625 | The arguments of an object with one bound object, outright for each type of binding: its type, its type and then its arguments, its arguments, or nothing |
| `Specialization.RangesInOrder` | src/shader-object.cpp:559-571 | Ranges contribute one after the other; a container stands for its own arguments |
| `Specialization.FoldIsJoin` | src/shader-object.cpp:627-646 | For contributions of equal length a range's arguments are their pointwise join exactly if the user supplies none after the first element, or there are none |
| `Specialization.UserArgsTwice` | src/shader-object.cpp:627-646 | One argument that the user supplies for both elements of an array is collected twice where the join has it once |
| `Specialization.JoinAllAt` | src/shader-object.cpp:633-646 | A position keeps its type if all elements agree and becomes dynamic if any two differ |
| `Specialization.RangeOrderless` | src/shader-object.cpp:571-647 | Reordering or repeating elements of a range changes nothing |
| `Specialization.JoinOrderless` | src/shader-object.cpp:633-646 | The join depends on which lists there are only |
| `Specialization.JoinInto` | src/shader-object.cpp:637-645 | Writes the join over the arguments of the range and leaves those before it alone |
| `Specialization.GetSpecializedShaderObjectType` | src/shader-object.cpp:691-713 | The type of the object specialized by its own arguments |
| `Specialization.Container.SetSpecializationArgsForContainerElement` | src/shader-object.cpp:739-766 | Wherever the assertion holds, the container's arguments are the same join over every element that has been set and has arguments; the first such element is taken over |

## Left out

- Device, driver and queue calls, COM reference counting and `BreakableReference`: foreign or plumbing. Creation and
  mapping of buffers are outcomes passed to the methods that call them.
- The Slang compiler, reflection, shader module creation and backend pipeline creation are uninterpreted functions in
  `PipelineModel.World`; pushing and popping the CUDA context counts as part of creation.
- Failure of submitting a task to the task pool; the original asserts that it does not happen.
- The hash functions of the shader cache and the persistent shader cache.
- Real threads and mutexes: protected methods are atomic, and tasks touch nothing but their own entry point or request.
- Widths of `int` and `size_t` are unbounded except where 32- or 64-bit arithmetic is the point (the bit buffer, the
  hash, Adler-32, the CRC register, query slots and the ranges of query writes, rounding of staging and transient sizes,
  the estimate and the offsets of PNG lines).
- The definition of `math::calcAligned` is not part of this model; it is taken to be the least multiple of the alignment
  that is not below the value.
- `StagingHeap.Heap.AllocInternal`: requires a size that does not round to zero, which zero and sizes within 1024 bytes of
  2^64 do; the original then makes a node of no size. Iterators into the node list are positions or offsets.
- `StagingHeap.Heap.FreePage`: whether unmapping the buffer of a removed page succeeds, which the original ignores.
- The `Handle` and `stage` wrappers of the staging heap and copying through mapped memory outside `uploadTextureData`.
- Null chunks in the span given to `TransientBufferHeap::free`, and freeing only part of an arena's chunks: the arena
  does neither.
- `TransientPages.AlignAllocationSize`: requires, as do all members on transient pages, that the largest page size plus the
  granularity or the alignment fits 64 bits; sums over many pages are unbounded.
- Transient pages and tracked states are values in fields of the heap and the tracker; identity of page objects is their id.
- `Heap` in `src/heap.cpp`: the offset allocator it delegates to is not part of this model.
- `TextureUpload.UploadTextureData`: the staging allocation is a fresh buffer of the total size at an aligned offset;
  that the staging heap supplies one is `StagingHeap.Heap.AllocInternal`. Layout queries must succeed, because the
  original ignores their result. The column pitch and the block sizes that a layout also carries are copies of the
  format's and left out.
- `QueryPool.CommandList.TrackQueryWrite`: for whole runs the equality is stated for recorded ranges inside their
  pools only, because a slot dropped with one coalesced range may be covered by another; for one merge
  `QueryPool.MergeExact` is exact.
- Backend query result retrieval and waiting.
- `Specialization.CollectSpecializationArgs`: requires that joined lists have equal length, as the original asserts.
- `Specialization`: slang types beside their component IDs, and failure of the nested calls, which cannot fail by
  themselves.
- `StbPng.WritePng`: requires a positive width, and sizes, row offsets and positions that fit the original's `int`; what
  overflowing ones address is undefined. Allocation failure is not modelled.
- `StbPng.FilterRow`: C leaves the overflow of the estimate's `int` open; here it wraps around.
- `StbTga.WriteTga`: requires that row and pixel offsets fit the original's `int`; what overflowing offsets address is
  undefined.
- The reference inflater has no dynamic Huffman blocks and the reference PNG decoder no ancillary chunks, palettes or
  interlacing: the encoder writes none.
- The TGA path without run-length coding, BMP, JPEG, and the floating-point colour arithmetic of Radiance (the model
  starts at the RGBE bytes) with its text header.
- Format tables, descriptor structs, enum strings, examples, windowing, file output and timing reports: plumbing or
  easy members.
