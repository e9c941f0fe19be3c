# pelfs: a verified model of its core algorithms

pelfs publishes a directory tree as content-addressed packs and catalogs and serves it back through
mounts and a browser. This project models, in Dafny, the self-contained algorithms under that, as the
code performs them, and proves what the rest of the system relies on.

- **The static catalog.** `StaticWriter` collects records in any order, sorts seven arrays, interns
  strings and identities and lays out aligned sections (`StaticWriter`, `StaticEncoding`, `Arena`,
  `StaticFormat`, `LittleEndian`). `StaticReader` answers queries by binary search over the raw
  bytes. Three levels meet: bytes (`StaticLayout`, `StaticRoundTrip`, `StaticBytes`, `StaticOpen`),
  record sequences and linear scans of them (`StaticView`, `StaticQueries`, `Scanning`), and finite
  maps of what was added (`KeyedRecords`, `StaticMaps`, `StaticFiles`, `StaticCanonical`).
- **The split policy.** `SplitPolicy` states the greedy peel of a weighted tree and its optimality,
  conservation and stub substitution; `SplitWalk` is the recursive walk over mutable nodes, proved
  against it.
- **The chunker.** `Fingerprint` and `Chunking` give the pure recursion, `ChunkEnds` says where a chunk
  ends by sums over the bytes alone; `Chunker` is the growing window over a reader that may return as
  little as it likes, proved to produce exactly that.
- **External sort and table.** `ExtSort`, `MergeHeap`, `ExtMerge`, `ExtSorter` and `ExtTable` are the
  bounded buffer, the runs, the heap, the merge and the searchable table; `PackIndex` and `BitMarks`
  are the identity index and the bitset fsck builds on them.
- **fsck.** `FsckVolume` says when a directory and a file are sound, `FsckReport` what each look at
  something reports; `FsckContent` checks shards, contents and chunks and `FsckWalk` descends a possibly
  cyclic graph of catalogs. `FsckFindings` says that the report is complete and true, fault by fault, and
  `FsckCertificate` what a check without a finding means (`FsckFaults`, `FsckTrail`, `FsckSteps`,
  `FsckTally`, `FsckOrder` and `FsckQueue` hold the invariants). `FsckReach` says
  when that is the whole volume; `FsckSkipped`, `FsckTwoLandings` and `FsckSecondRow` are volumes of
  which it is not. `FsckFetches` adds fetches that are cut short or fail.
- **The catalog cache.** `CatLru` and `CatCache` are the critical sections; `CatCacheRuns` is every
  interleaving of them, and `CatRecency` what the order of the list means over one.
- **Idle sealing and the publish slot.** `BrowseServer`, `PublishSlot` and `IdleSealer` are the state
  and the decisions; `IdleRuns` is every run, and `IdleWaits` says when a seal is due by the positions
  and instants of a run's log alone.
- **The entry codec.** `EntryCodec`, over any compressor and AEAD that keep their promises.

Code that changes state in place is a class or a method with loops, proved against a function of its
old state; the properties are lemmas about those functions and invariants over runs.

Where the code does something other than its comments say, the model follows the code:

- An empty inline body is told apart from a missing row only while the blob arena is not empty
  (`StaticMaps.InlineIsMapExactly`, `StaticMaps.EmptyInlineBodyLost`).
- `Finish` is documented as a pure function of the records because its sort orders are total. They
  are total on keys only. The bytes are a function of the records exactly when records that share a
  key are equal (`StaticCanonical.CanonicalExactly`); otherwise two correct sorts of the same records
  give different bytes.
- The writer keeps node positions and identity slots in 32 bits without looking. Past 2^32 of either
  they wrap around: the order check then refuses the catalog (`StaticMaps.SlotsPointExactly`), or a
  locator names another identity (`StaticRoundTrip.NamedExactly`). `StaticMaps.RoundTrip` carries both
  conditions.
- The arena accessors compare in 64 bits and slice in 32, so only arenas under 4 GiB are safe
  (`StaticView.ArenaSafeExactly`).
- A reconnect is said to restart the quiet window. That holds of a tab that attaches before the sealer
  looks at the streams; one that attaches after the look is not seen, and the seal starts under it
  (`IdleRuns.ReconnectRestarts`, `IdleRuns.LateReconnectUnseen`).
- `AlgOfStored` reports the verbatim algorithm for a stored length equal to the plaintext's even when
  compression would have shortened it, although no encoding of that plaintext is that long, and
  answers for a key of the wrong length, under which nothing can be encoded
  (`EntryCodec.AlgOfStoredExactly`).
- fsck skips a second transition point into a catalog it has queued, since descending twice would only
  repeat the same work. That holds only when the second lands at or below where the first did. Otherwise
  whatever lies below the second alone is never looked at, be it an unsound directory or a catalog that
  is missing, and nothing is reported (`FsckReach.ReachedExactly`, `FsckTwoLandings.PassesOver`).
- fsck counts and checks a file inode where it is first reached. An inode counted first as something
  else is passed over, the root's always (`FsckCertificate.CertifiedFile`, `FsckSkipped.Passes`), and so
  is a second row of it in another catalog (`FsckCertificate.CertifiedRow`,
  `FsckSecondRow.PassesSecondRow`).
- Pinning a directory is said never to make its parent oversized, a transition row being the least a
  child can cost. A child may weigh less than a row, and pinning is safe exactly when it does not
  (`SplitPolicy.PinningSafeExactly`).
- The order check lets a node, inline, symlink or attribute row appear twice
  (`StaticMaps.PassesExactly`).

## Model

| member | source | states |
|---|---|---|
| StaticMaps.RoundTrip | internal/catalog/static_writer.go:168-391 | records added in any order under distinct keys, sorted by any correct sort and encoded, open again; the header says at fixed places what was added, bit 0 of its flags exactly whether any attribute was; the reader passes the order check exactly when the positions edges keep of their nodes fit 32 bits, and then every query answers as finite maps of what was added exactly when the slots of the locators' identities fit 32 bits too |
| StaticBytes.EncodedTells | internal/catalog/static_writer.go:330-349 | the header of the bytes, wherever its fields are looked for, holds the root inode, inline limit, edge, node and section counts of the records added, a code that tells the two algorithm names and any other apart, and bit 0 of the flags exactly if there is an attribute |
| StaticBytes.SectionsByNumber | internal/catalog/static_writer.go:340-391 | the table names each non-empty section by its number, in ascending order, and no other |
| StaticEncoding.CanonicalBytes | internal/catalog/static_writer.go:137-199 | two orders of the same distinctly keyed records encode to identical bytes, whatever the unstable sort did, and fail together |
| StaticCanonical.CanonicalExactly | internal/catalog/static_writer.go:137-199 | every correct sort of the records added gives the same bytes if and only if, in each array, records that share a key are equal |
| StaticCanonical.BytesShowOrder | internal/catalog/static_writer.go:137-199 | two correct sorts of the same records give the same bytes exactly when they left the records in one order, as distinct keys force them to |
| StaticCanonical.EncodeInjective | internal/catalog/static_writer.go:168-391 | equal bytes come only from equal catalogs, as long as no more than 2^32 identities have to be named |
| StaticCanonical.TiesShow | internal/catalog/static_writer.go:137-145 | an instance: two bodies for one inode, and two correct sorts of them whose bytes differ |
| SortKeys.SortsAgree | internal/catalog/static_writer.go:169-199 | distinct keys leave a sort one outcome: any two sorted arrangements of the same records are equal and strictly ascending |
| SortKeys.UnequalTies | internal/catalog/static_writer.go:169-199 | where two records share a key and differ, two such neighbours of a sort can be exchanged and it is as good a sort |
| CatalogRecords.SortedCatalogsAgree | internal/catalog/static_writer.go:169-199 | the same for all seven arrays of a catalog at once |
| CatalogRecords.TiedCatalogsAgree | internal/catalog/static_writer.go:169-199 | whenever records that share a key are equal any two sorts of them leave one catalog |
| StaticWriter.StaticWriter.constructor | internal/catalog/static_writer.go:67-69 | an empty writer with the given metadata; the inline limit keeps its low 32 bits |
| StaticWriter.StaticWriter.AddNode | internal/catalog/static_writer.go:71-74 | appends the node and changes nothing else |
| StaticWriter.StaticWriter.AddEdge | internal/catalog/static_writer.go:76-79 | appends the edge and changes nothing else |
| StaticWriter.StaticWriter.AddNested | internal/catalog/static_writer.go:81-87 | accepts a locator exactly when its identity is 32 bytes, and otherwise changes nothing |
| StaticWriter.StaticWriter.AddChunks | internal/catalog/static_writer.go:92-113 | records the extents up to the first that does not fit its fields, numbered from 0, and says whether there was one |
| StaticWriter.StaticWriter.SetInline | internal/catalog/static_writer.go:115-118 | appends the inline row |
| StaticWriter.StaticWriter.SetSymlink | internal/catalog/static_writer.go:120-123 | appends the symlink row |
| StaticWriter.StaticWriter.AddXattr | internal/catalog/static_writer.go:125-128 | appends the attribute row |
| StaticWriter.StaticWriter.SortAll | internal/catalog/static_writer.go:169-189 | every array becomes a sorted permutation of itself |
| StaticWriter.StaticWriter.Finish | internal/catalog/static_writer.go:168-391 | succeeds exactly when no name is too long, no edge lacks its node, no key is out of range and no arena passes 4 GiB; then the bytes are the encoding of the sorted records, whose header EncodedTells reads and whose content RoundTrip does |
| StaticWriter.IndexNodes | internal/catalog/static_writer.go:201-207 | inode to node position, the last one winning when an inode repeats |
| StaticWriter.EncodeEdges | internal/catalog/static_writer.go:213-233 | fails exactly on a long name, a missing node or a full arena; otherwise each edge record holds its interned name and node position |
| StaticWriter.EncodeNodes | internal/catalog/static_writer.go:235-253 | fails exactly on a key id outside 32 bits |
| StaticWriter.EncodeBlobs | internal/catalog/static_writer.go:393-406 | blob records referring into the arena, or failure of the arena |
| StaticWriter.EncodeXattrs | internal/catalog/static_writer.go:276-295 | attribute records with names and values interned in that order |
| StaticWriter.EncodeNested | internal/catalog/static_writer.go:297-311 | locator records with interned names and identity slots |
| StaticWriter.EncodeMeta | internal/catalog/static_writer.go:318-327 | the metadata record referring into the blob arena |
| StaticWriter.EncodeSections | internal/catalog/static_writer.go:204-349 | all sections exactly when the catalog is encodable, each as the specification encodes it |
| StaticWriter.LayOut | internal/catalog/static_writer.go:353-391 | header, table, then each section at an 8-byte boundary with zeros between |
| Arena.Builder.Add | internal/catalog/static_writer.go:141-166 | refuses exactly the string that would take the arena past 4 GiB; otherwise hands back the offset deterministic interning gives it |
| Arena.InternSound | internal/catalog/static_writer.go:148-166 | every interned string is found at its recorded offset |
| Arena.InternExtends | internal/catalog/static_writer.go:148-166 | strings interned later move nothing interned before |
| Arena.IdentityTable.Add | internal/catalog/static_writer.go:420-437 | an identity slot is the number of distinct identities before its first appearance |
| Arena.InternWhole | internal/catalog/static_writer.go:418-437 | identity offsets are whole multiples of 32 |
| SortKeys.SortSlice | internal/catalog/static_writer.go:169-199 | stands for the standard library sort: a sorted permutation, ties in any order |
| Bytes.LessExactly | internal/catalog/static_writer.go:178-178 | the byte order is that of bytes.Compare: some first i bytes are the same, and there either a has ended and b has not or a's byte is the smaller |
| SortKeys.BeforeExactly | internal/catalog/static_writer.go:169-199 | sort keys go by inode, then index, then name by its bytes |
| StaticFormat.HeaderRoundTrip | internal/catalog/static_format.go:97-143 | decoding an encoded header gives it back, whatever bytes follow |
| StaticFormat.HeaderLies | internal/catalog/static_format.go:97-143 | where in the 64 bytes each header field lies |
| StaticFormat.NodeRoundTrip | internal/catalog/static_reader.go:320-336 | a node record decodes to the node, signed fields included |
| StaticFormat.NodeLies | internal/catalog/static_writer.go:235-253 | where in the 64 bytes each node field lies |
| StaticFormat.EdgeRoundTrip | internal/catalog/static_reader.go:181-191 | every field of an edge record is where the reader looks for it |
| StaticFormat.ChunkRoundTrip | internal/catalog/static_reader.go:381-411 | a chunk record decodes to the chunk |
| StaticFormat.NestedRoundTrip | internal/catalog/static_reader.go:245-280 | every field of a nested record is where the reader looks for it |
| StaticFormat.XattrRoundTrip | internal/catalog/static_reader.go:460-481 | every field of an attribute record is where the reader looks for it |
| StaticFormat.EntryRoundTrip | internal/catalog/static_reader.go:46-62 | a section table entry decodes to id, offset and length |
| LittleEndian.PackField | internal/catalog/static_format.go:97-111 | a packed field reads back wherever it starts in the record |
| LittleEndian.LeastFirst | internal/catalog/static_format.go:97-111 | a number is read with its least byte first, each byte worth 256 times the one before |
| LittleEndian.SignsAgree | internal/catalog/static_reader.go:320-336 | signed and unsigned readings of eight bytes differ by a multiple of 2^64 |
| StaticLayout.TableFound | internal/catalog/static_writer.go:353-391 | reading the table of an assembled blob gives back the sections that went in, aligned and in bounds |
| StaticLayout.AllAttached | internal/catalog/static_reader.go:74-135 | attaching the written sections restores each arena and record array, empty ones included |
| StaticRoundTrip.EncodedParses | internal/catalog/static_reader.go:36-72 | what was written opens, with the header, sections and metadata that went in; what that header holds is EncodedTells |
| StaticRoundTrip.EncodedShows | internal/catalog/static_reader.go:181-191 | every record of a written catalog reads back as it was written, names, values and identities resolved, except that a locator shows the identity its slot names; that is the one written, for every locator, exactly when at most 2^32 identities had to be named |
| StaticRoundTrip.IdentityFound | internal/catalog/static_reader.go:274-280 | an identity slot leads back to its identity while there are at most 2^32 of them |
| StaticRoundTrip.IdentityFoundExactly | internal/catalog/static_writer.go:429-437 | exactly when it is one of the first 2^32; past that the 32-bit slot wraps around to another |
| StaticRoundTrip.NamedExactly | internal/catalog/static_writer.go:429-437 | so some locator reads back with another identity exactly when more than 2^32 had to be named |
| StaticMaps.LookupIsMap | internal/catalog/static_reader.go:214-243 | lookup reports the dirent half and the nested half of a name exactly as the maps hold them |
| StaticMaps.ReaddirIsMap | internal/catalog/static_reader.go:282-297 | both listings of a directory are the map entries under it, each once, in ascending name order: of two names the one that ends first or has the smaller byte where they first differ |
| StaticMaps.ReaddirPlusIsMap | internal/catalog/static_reader.go:356-377 | every entry of a directory comes with the node of its inode |
| StaticMaps.NestedIsMap | internal/catalog/static_reader.go:299-316 | the locators under a directory in ascending name order |
| StaticMaps.StatIsMap | internal/catalog/static_reader.go:338-354 | the node under an inode, or not-exist |
| StaticMaps.ChunksIsMap | internal/catalog/static_reader.go:381-411 | an inode's chunks in index order, refused when their lengths do not fill its node |
| StaticFiles.RefsComeBack | internal/catalog/static_reader.go:379-411 | the extents added for a file come back in order, each with its own identity, lengths, algorithm and key, at the sum of the lengths before it, if they fill its node |
| StaticQueries.ExtentsAre | internal/catalog/static_reader.go:381-411 | each extent's logical offset is the sum of the lengths before it |
| StaticMaps.InlineIsMapExactly | internal/catalog/static_reader.go:417-447 | inline data answers as a map exactly unless the inode has a row and the catalog stores no non-empty blob string at all; then it reads as no row |
| StaticMaps.EmptyInlineBodyLost | internal/catalog/static_reader.go:438-447 | the exception is real: a one-file catalog with an empty body, whose inline row is lost |
| StaticMaps.SymlinkIsMap | internal/catalog/static_reader.go:449-458 | the target under an inode, or not-exist |
| StaticMaps.XattrsIsMap | internal/catalog/static_reader.go:460-481 | the attributes of an inode in ascending name order |
| KeyedRecords.ListingUnique | internal/catalog/static_reader.go:282-316 | such a listing is unique: order and content are both fixed by the map |
| StaticMaps.PassesExactly | internal/catalog/static_reader.go:485-585 | a written catalog passes the order check exactly when no edge, chunk or nested key was added twice and what each edge keeps of its node's position leads to a node of its inode |
| StaticMaps.SlotsPointExactly | internal/catalog/static_writer.go:201-233 | with distinct nodes that is so exactly when each such position is below 2^32; past that the 32 bits wrap around |
| StaticReader.OpenStatic | internal/catalog/static_reader.go:36-72 | opens or refuses any blob whose arenas are under 4 GiB exactly as the pure parse of its bytes does |
| StaticOpen.OpensExactly | internal/catalog/static_reader.go:36-135 | exactly which blobs open, by their bytes: magic, major version 1, a table inside, every section it names inside, aligned and of a length its records fit, the metadata's strings inside the arena; any other is corrupt but for a foreign major version, and what opens is the last section under each number |
| StaticReader.Static.Attach | internal/catalog/static_reader.go:74-135 | records one section, skips an unknown id, refuses a partial record array |
| StaticView.SmallBlobsFit | internal/catalog/static_reader.go:27-35 | every blob under 4 GiB, sorted or corrupt, may be given to the reader |
| StaticView.ArenaSafeExactly | internal/catalog/static_reader.go:163-179 | exactly the arenas under 4 GiB can be sliced by every span that passes the bounds check; in a longer one the end of a span can wrap to before its start |
| StaticView.UnknownSectionsIgnored | internal/catalog/static_reader.go:74-135 | sections with unknown ids, anywhere in the table, change nothing |
| StaticView.SameKnownSectionsReadSame | internal/catalog/static_reader.go:36-72 | two blobs whose tables name the same known sections read the same, whatever their header lengths |
| BinarySearch.Search | internal/catalog/static_reader.go:193-208 | the first index from which a monotone predicate holds |
| StaticReader.Static.LowerBoundEdge | internal/catalog/static_reader.go:192-208 | terminates in bounds on any array; on an ordered one it is the first edge at or after the name |
| StaticReader.Static.LowerBoundNested | internal/catalog/static_reader.go:254-272 | the same for nested locators |
| StaticQueries.MatchAtLowerBound | internal/catalog/static_reader.go:214-243 | on an ordered array the lower bound is the only place a match can be |
| StaticQueries.RunAtLowerBound | internal/catalog/static_reader.go:282-297 | the entries of a directory lie together from its lower bound on |
| StaticReader.Static.Lookup | internal/catalog/static_reader.go:214-243 | on a catalog that passes the order check, what a linear scan of the records finds |
| StaticReader.Static.Readdir | internal/catalog/static_reader.go:282-297 | the same for a directory's entries and locators; their order is ReaddirIsMap's |
| StaticReader.Static.NestedOf | internal/catalog/static_reader.go:299-316 | the same for locators alone |
| StaticReader.Static.ReaddirPlus | internal/catalog/static_reader.go:356-377 | the same for entries joined with their nodes |
| StaticReader.Static.Stat | internal/catalog/static_reader.go:348-354 | the same for a node; on any catalog, in order or not, what the binary search finds, a node of that inode |
| StaticReader.Static.Chunks | internal/catalog/static_reader.go:379-411 | the same for chunks; on any catalog, in order or not, extents at running offsets that sum to the length of the node the search finds |
| StaticReader.Static.BlobFor | internal/catalog/static_reader.go:416-431 | the same for inline and symlink rows |
| StaticReader.Static.Inline | internal/catalog/static_reader.go:438-447 | the same for inline data, where an absent arena reads as no row |
| StaticReader.Static.Symlink | internal/catalog/static_reader.go:449-458 | the same for a symlink target |
| StaticReader.Static.Xattrs | internal/catalog/static_reader.go:460-481 | the same for attributes |
| StaticReader.Static.CheckOrder | internal/catalog/static_reader.go:485-585 | accepts exactly the catalogs whose neighbouring records are in order and whose edges index nodes of their own inodes; while it accepts, every search answers as a scan |
| StaticReader.Static.CheckAscending | internal/catalog/static_reader.go:525-550 | inodes never decrease, exactly |
| SplitWalk.Split | internal/catalog/split.go:64-115 | the roots in discovery order, the tree root last, and every directory weighed as the policy weighs it |
| SplitWalk.Splitter.Walk | internal/catalog/split.go:68-112 | one directory: its subtree's roots appended in order, its weight recorded |
| SplitWalk.Splitter.PeelPinned | internal/catalog/split.go:83-94 | every pinned child becomes a root before anything is weighed against smax |
| SplitWalk.Splitter.PeelHeaviest | internal/catalog/split.go:95-109 | the heaviest attached child is peeled while the directory is over smax and the child is worth a row |
| SplitWalk.Heaviest | internal/catalog/split.go:96-101 | the heaviest attached child, ties to the first |
| SplitPolicy.GreedyIsFewest | internal/catalog/split.go:95-109 | no set of unpinned children that brings the directory within smax is smaller than the set peeled |
| SplitPolicy.GreedyIsBestOfSize | internal/catalog/split.go:95-109 | of all peels of at most that many children none leaves less weight |
| SplitPolicy.PeelsFewest | internal/catalog/split.go:95-109 | so when any set of unpinned children would make a directory fit, it fits, and no fewer would have done |
| SplitPolicy.GreedyIsLightest | internal/catalog/split.go:95-109 | a directory left over smax is as light as any set of its unpinned children could make it |
| SplitPolicy.EveryPickIsNeeded | internal/catalog/split.go:95-109 | without its last pick the directory would still be over smax |
| SplitPolicy.GreedyOrder | internal/catalog/split.go:95-109 | of two children peeled the first is the heavier, or as heavy and earlier |
| SplitPolicy.GreedyStops | internal/catalog/split.go:95-109 | the peel stops because the directory fits or no child left is worth a row |
| SplitPolicy.WeightIsReference | internal/catalog/split.go:24-46 | the recorded weight is what a fresh count of rows, subtrees and transitions gives for the roots chosen |
| SplitPolicy.OversizedIsMinimal | internal/catalog/split.go:48-63 | a directory left over smax is as light as any choice of roots in its whole subtree could make it |
| SplitPolicy.Conservation | internal/catalog/split.go:24-46 | the root weights sum to all own weights plus one transition row for each root but the tree's own |
| SplitPolicy.RootsBelowSound | internal/catalog/split.go:64-115 | every root reported is the tree root or a peeled child of a walked directory |
| SplitPolicy.RootsBelowComplete | internal/catalog/split.go:64-115 | and every peeled child of a walked directory is reported |
| SplitPolicy.StubKeepsWeight | internal/catalog/split.go:24-46 | replacing children that would be peeled by pinned stubs of their recorded weight changes no ancestor's weight or peeled set |
| SplitPolicy.StubKeepsRoots | internal/catalog/split.go:24-46 | so the roots are unchanged but for those strictly inside stubs |
| SplitPolicy.PinningSafeExactly | internal/catalog/split.go:36-47 | pinning a child never makes a parent that fits oversized if and only if the child weighs at least 200, a transition row |
| SplitPolicy.PinningKeepsFit | internal/catalog/split.go:36-47 | the safe half, for every parent, whatever weight the stub records: it fits still, with the stub and what it peels |
| SplitPolicy.GreedyAfterPrepeel | internal/catalog/split.go:83-109 | peeling some of the greedy's own picks first leaves it picking exactly the rest |
| SplitPolicy.MergeFits | internal/catalog/split.go:117-123 | merging a child that ShouldMerge approves leaves the parent within smax with no more of its other children peeled |
| SplitPolicy.MergesExactly | internal/catalog/split.go:117-123 | a nested catalog is merged back exactly when it weighs less than smin and the parent, with the children peeled that are peeled now and no others, would weigh at most smax |
| Chunking.ConfigureExactly | internal/chunkid/chunker.go:66-99 | which options are legal, with 1, 4 and 16 MiB for those not given, and the masks they give |
| Chunking.ConfigureNeedsPow2 | internal/chunkid/chunker.go:66-99 | an average size that is not a power of two is always refused |
| Fingerprint.MasksNest | internal/chunkid/chunker.go:92-117 | the strict mask implies the loose one |
| Fingerprint.HashIsLocal | internal/chunkid/chunker.go:196-212 | the fingerprint modulo 2^64 depends on the last 64 hashed bytes alone |
| ChunkEnds.HashClosedForm | internal/chunkid/chunker.go:196-212 | the fingerprint of n bytes is the sum of the gear values of the bytes, that of byte k times 2^(n-1-k), modulo 2^64 |
| ChunkEnds.TopBitsExactly | internal/chunkid/chunker.go:101-117 | the mask test is that the fingerprint has no bit in common with the mask of the top k of 64 bits |
| ChunkEnds.CutsExactly | internal/chunkid/chunker.go:196-212 | a place cuts exactly when that sum over the bytes from min on has no bit in common with the mask in force there, strict before avg and loose from it |
| ChunkEnds.FirstCutEnds | internal/chunkid/chunker.go:183-214 | a chunk ends past min at the first place that cuts so, at max bytes, or with the stream |
| ChunkEnds.OneEnd | internal/chunkid/chunker.go:183-214 | and only one length does |
| Chunking.CutFromIsFirst | internal/chunkid/chunker.go:183-214 | the cut is the first place past min where the mask in force is met |
| Chunking.CutIsLocal | internal/chunkid/chunker.go:183-214 | whether a place cuts depends on the 64 bytes before it once 64 have been hashed |
| Chunker.Cut | internal/chunkid/chunker.go:183-214 | the loop finds that cut, which FirstCutEnds and CutsExactly give by the bytes and the table alone |
| Chunker.ReadFull | internal/chunkid/chunker.go:127-152 | fills the request or reports how a short-reading stream ended |
| Chunker.Chunker.Fill | internal/chunkid/chunker.go:127-152 | tops the window up to max bytes or the end of the stream, losing nothing, however short the reads |
| Chunker.Chunker.Next | internal/chunkid/chunker.go:154-185 | emits the first cut of what is pending and advances by it, or stops with the stream's ending and leaves everything in place |
| Chunker.ChunkStream | internal/publish/publish.go:1085-1120 | a whole run over any stream, legal options and schedule of short reads yields chunks each of which ends where the sums over its bytes say, at the offset the lengths before it add up to, and which cover the stream, or what was read before it failed but for less than max bytes |
| Chunking.ChunksConcat | internal/chunkid/chunker.go:154-185 | the chunks of a stream concatenate to it |
| Chunking.ChunkSizes | internal/chunkid/chunker.go:183-214 | every chunk but the last is longer than min and at most max |
| Chunking.FailurePrefix | internal/chunkid/chunker.go:150-171 | chunks emitted before a read error are a prefix of the chunking of every extension of what was read |
| Chunking.AppendKeepsChunks | internal/chunkid/chunker.go:154-214 | appending to a stream keeps every chunk cut from a full window |
| Chunking.RestartAtBoundary | internal/chunkid/chunker.go:154-214 | from a chunk boundary on the chunks are those of the rest of the stream by itself |
| Chunking.Resynchronise | internal/chunkid/chunker.go:92-96 | two streams that both cut where a common suffix starts have identical chunks from there on |
| ExtSorter.Sorter.constructor | internal/extsort/extsort.go:84-98 | 64 MiB for no budget, at least one record, and then the largest multiple of the record length within that |
| ExtSorter.Sorter.Add | internal/extsort/extsort.go:104-133 | accepts whole records until merging begins, keeps every one, and never buffers the budget |
| ExtSorter.Sorter.Flush | internal/extsort/extsort.go:136-158 | the buffer becomes one sorted run |
| ExtSort.SortBytes | internal/extsort/extsort.go:160-162 | stands for the standard library sort over packed records: a sorted permutation of them |
| ExtSorter.Sorter.Sorted | internal/extsort/extsort.go:175-207 | a merge holding exactly the records accepted, from memory or over the runs; sure to be had from memory, and over runs whose devices do not fail |
| ExtSort.Cursor.Next | internal/extsort/extsort.go:255-265 | steps through a run record by record, failing exactly when the device does or a partial record is left |
| ExtSort.SiftDown | internal/extsort/extsort.go:270-283 | restores heap order below one place by swaps |
| ExtSort.Heapify | internal/extsort/extsort.go:190-207 | any cursors become a heap |
| MergeHeap.RootHeadIsLeast | internal/extsort/extsort.go:270-283 | the head of a heap's root is the least record of all |
| ExtMerge.AdvanceRoot | internal/extsort/extsort.go:302-333 | taking the root's record takes the least of all and nothing else, and succeeds over whole runs whose devices do not fail |
| ExtMerge.Restore | internal/extsort/extsort.go:302-333 | a root that moved on is sifted, one that ran dry is replaced by the last and dropped |
| ExtMerge.Merged.Next | internal/extsort/extsort.go:302-333 | hands out a least pending record each time until none is left or a read fails, which it does not over whole runs whose devices do not |
| ExtSorter.Sorter.Close | internal/extsort/extsort.go:212-222 | drops what is held |
| ExtTable.FlushWriter.Write | internal/extsort/table.go:186-197 | bytes arrive in order whatever the buffer does |
| ExtTable.Drain | internal/extsort/table.go:46-120 | draining a merge writes a key-sorted permutation of what was pending, unless a device fails |
| ExtTable.Materialise | internal/extsort/table.go:46-120 | the table is a permutation of every record ever added, ascending by the bytes of their keys; it is sure to be made when nothing spilled or no device fails |
| ExtTable.Table.Lookup | internal/extsort/table.go:139-150 | the first position of a key and exactly how many records share it |
| ExtTable.Table.At | internal/extsort/table.go:127-133 | the i-th record in key order |
| Records.SplitJoin | internal/extsort/table.go:46-120 | joined fixed-width records split back into themselves |
| Records.SortedExactly | internal/extsort/extsort.go:237-239 | sorted by key is: of any two records the earlier has the same key bytes or those that come first in byte order |
| PackIndex.LocRoundTrip | internal/fsck/fsck.go:335-340 | an index record decodes to the identity, pack name, offset and length that were put |
| PackIndex.CheckPacks | internal/fsck/fsck.go:504-579 | every entry of every pack that can be read and verified is indexed under its ordinal, and nothing else; the packs are reported as PacksReported says, and the index is sure to be built when no device fails |
| PackIndex.PacksReported | internal/fsck/fsck.go:528-569 | a pack is reported as missing, resized or with a bad trailer exactly when it is that, by its name |
| PackIndex.KeyFindingsAre | internal/fsck/fsck.go:553-561 | once for every trailer key that is no identity |
| PackIndex.PlacedExactly | internal/fsck/fsck.go:504-579 | the index places an identity at a stored length exactly when some readable pack does |
| PackIndex.RecordsComeFromPacks | internal/fsck/fsck.go:604-615 | every index record leads back to its pack and entry |
| PackIndex.Index.Locate | internal/fsck/fsck.go:591-602 | finds an identity exactly when it is indexed, at the wanted length exactly when there is such a placement, and names it by its first position |
| BitMarks.MarkSetsOne | internal/fsck/walk.go:291-301 | marking one position marks that bit alone |
| BitMarks.MarkedWhere | internal/fsck/walk.go:291-301 | position k is bit k mod 64 of word k div 64, set by adding its worth if it was not set, and no other word changes |
| BitMarks.WordsEnough | internal/fsck/walk.go:291-301 | n positions take the least number of 64-bit words that hold them |
| FsckContent.Contents.OpenShard | internal/fsck/fsck.go:692-701 | answers as opening would; the object's findings are reported the first time it is opened and not again |
| FsckContent.Contents.CheckShards | internal/fsck/fsck.go:671-690 | every shard is opened, the findings of each are reported in turn whatever was found before, and the shards that open are counted |
| FsckContent.RoutingUnambiguous | internal/fsck/walk.go:303-312 | then at most one shard covers an inode |
| FsckContent.Contents.FindShard | internal/fsck/walk.go:303-312 | the first shard whose inclusive range covers the inode |
| FsckContent.Contents.SeenChunk | internal/fsck/walk.go:281-301 | says whether the identity was counted, and the bits are those of the counted identities' first positions |
| FsckContent.Contents.CheckChunkRef | internal/fsck/walk.go:248-279 | whatever was reported before, a chunk the index does not hold adds one missing-chunk finding at the file's path, one it holds at other lengths only one bad-reference finding, and a chunk placed at the length its extent names none; an identity the index holds is counted exactly once |
| FsckContent.Contents.CheckExtents | internal/fsck/walk.go:227-245 | adds the findings of every extent in turn, whatever was reported before |
| FsckContent.Contents.CheckContent | internal/fsck/walk.go:200-246 | adds exactly the findings of the file's content, and counts it as inline exactly if it is |
| FsckContent.Contents.CheckFile | internal/fsck/walk.go:170-246 | the same through the shard a promoted inode routes to, whose length must agree |
| FsckReport.FileSilent | internal/fsck/walk.go:170-246 | a file without a finding is sound, if the shard it routes to opens, and a sound file has none |
| FsckFindings.FileReports | internal/fsck/walk.go:170-246 | which kinds of finding a file has, each exactly for its fault and at its path |
| FsckFindings.ExtentsReport | internal/fsck/walk.go:227-279 | a missing chunk and a bad reference told apart, and one finding for each extent that is not sound |
| FsckFindings.ShardReports | internal/fsck/fsck.go:671-701 | a shard's findings: a range inverted or overlapping the one before, and its object's, charged to the first shard that names it |
| FsckFindings.EntryReports | internal/fsck/walk.go:108-154 | which kinds of finding an entry has, each exactly for its fault and at its own path |
| FsckVolume.SoundFileTiles | internal/fsck/walk.go:213-246 | a sound file's extents tile its node length at running offsets |
| FsckVolume.StaticLawful | internal/catalog/static_reader.go:348-411 | an opened static catalog, in order or not, keeps the promises those checks rely on: what its searches find is a node of the inode asked for and extents that fill it |
| FsckWalk.Walker.WalkDir | internal/fsck/walk.go:74-168 | walks a directory and all below it in its catalog once; a second way there is looked at once more, which is one cycle finding, and goes no deeper |
| FsckWalk.Walker.VisitEntry | internal/fsck/walk.go:108-167 | one entry: node, type, target, descent or queueing, each looked at whatever was found before, and dealt with before the next |
| FsckWalk.Walker.CheckLocators | internal/fsck/walk.go:95-106 | every locator is looked at for its dirent whatever was found before; the last locator of a name is the one kept |
| FsckWalk.Walker.CrossOver | internal/fsck/walk.go:130-145 | a transition point queues its catalog the first time, and only the first |
| FsckWalk.Walker.VisitFile | internal/fsck/walk.go:155-162 | a file is counted and checked the first time its inode is reached, and not again |
| FsckWalk.Walker.Walk | internal/fsck/walk.go:23-59 | ends on every graph of catalogs, begins each catalog at most once, completes exactly if the caller has not given up before any of the catalogs queued, and then leaves nothing entered unfinished and no catalog queued not looked at; a file is checked in the first catalog begun that lists it |
| FsckFaults.SoundNotFaulty | internal/fsck/walk.go:23-59 | of a volume where all that can be reached from the root is sound nothing a walk has met is at fault, so there is nothing a finding could stand for |
| FsckFaults.FaultStays | internal/fsck/walk.go:23-59 | a fault once met is a fault for good, so a finding never loses its reason |
| FsckTrail.EverythingWalked | internal/fsck/walk.go:74-168 | every directory reachable within a descended catalog was walked, and without a cycle finding by that one path |
| FsckTrail.CyclesExactly | internal/fsck/walk.go:80-83 | a cycle is reported if and only if some directory of a descended catalog can be reached two ways |
| FsckTrail.EverythingQueued | internal/fsck/walk.go:130-145 | every catalog that a chain of transition points leads to from the root was queued, when each lies below where the descent into its own catalog began |
| FsckTrail.EnteredReachable | internal/fsck/walk.go:23-59 | and nothing is entered that entries do not lead to from the root |
| FsckTrail.OneMoreStart | internal/fsck/walk.go:136-144 | a catalog is begun where the first transition point into it from some directory entered lands; this is kept with each catalog queued |
| FsckTally.FilesDistinct | internal/fsck/walk.go:155-162 | no two files counted share an inode |
| FsckTally.OneMoreMet | internal/fsck/walk.go:108-167 | an inode is counted as a directory, a symlink or something special only if an entry met gives it such a node; this is kept with each inode counted |
| FsckTally.FileJoins | internal/fsck/walk.go:252-279 | the chunks counted are those the files checked name and the index holds, and the inline files those checked files that have inline data |
| FsckFindings.FaultsAreFound | internal/fsck/walk.go:23-279 | after a complete check everything wrong with anything met has been reported whatever else was: every fault of a shard, of a catalog queued at a path that leads to its directory, of a directory entered at the path it was entered by, of an entry at its name below that, of a second way at the second way's path, and of a file checked at a path of an entry that leads to it, each by its kind |
| FsckFindings.FindingsHaveCauses | internal/fsck/walk.go:23-279 | and every finding of any check, complete or not, names the place and kind of a fault of something met |
| FsckFindings.UnsoundFileReported | internal/fsck/walk.go:170-279 | so every file checked that is not sound has a finding of its own, or the shard it routes to does not open and has one |
| FsckFindings.UnsoundDirReported | internal/fsck/walk.go:84-154 | every directory entered that is not sound has one at its path or at a name below it |
| FsckFindings.BadCatalogReported | internal/fsck/walk.go:40-71 | and every catalog queued that does not open, is dishonest or out of order one at a path to it |
| FsckFaults.FindingIsFault | internal/fsck/walk.go:23-279 | no look at something sound reports anything |
| FsckCertificate.Check | internal/fsck/fsck.go:433-465 | what is reported are the faults of things met, whether or not the check completes; if it does every such fault is reported at its place and by its kind, so it is clean exactly when nothing it met is at fault, as fetched, and then certifies the volume; of a sound volume, nothing lost in fetching, it is always clean |
| FsckCertificate.CheckVolume | internal/fsck/fsck.go:433-465 | the same from the listed packs on: complete when no device fails, nobody cancels and the root opens |
| FsckFetches.CheckFetched | internal/fsck/fsck.go:707-770 | a check some of whose fetches are cut short or fail: of a sound volume it finds something only if a catalog queued or a shard was lost that way, once it completes exactly if one was, and it cannot begin exactly if the root was |
| FsckFetches.FaultyExactly | internal/fsck/fsck.go:707-770 | of a sound volume what a walk has met is at fault exactly if a fetch it needed has failed |
| FsckCertificate.ExtentStored | internal/fsck/fsck.go:504-615 | there an extent is sound exactly when some readable pack stores its chunk at the length it names |
| FsckCertificate.CertifiedDirectory | internal/fsck/walk.go:78-168 | after a check without a finding every directory that lies below where the descent into its catalog began is sound, in a catalog that hashes to its name and is in order, if a chain of such directories leads to that catalog |
| FsckReach.ReachedExactly | internal/fsck/walk.go:136-144 | a check without a finding has walked every directory that entries lead to from the root if and only if every transition point of a directory it walked lands at or below where the descent into the catalog it names began |
| FsckReach.FinishedBelow | internal/fsck/walk.go:74-168 | what a walk has finished is exactly what lies at or below where its descents began |
| FsckReach.CertifiedVolume | internal/fsck/walk.go:23-59 | where no two transition points that can be reached lead into one catalog at different inodes, and into the root catalog only at the root inode, a check without a finding has walked everything that entries lead to from the root, and all of it is sound |
| FsckTwoLandings.PassesOver | internal/fsck/walk.go:136-144 | a volume of which a complete check without a finding has not walked an unsound directory, nor missed the absent catalog that leads to, both behind a second transition point into a catalog already queued |
| FsckTwoLandings.NothingMetAtFault | internal/fsck/walk.go:136-144 | whatever a walk of that volume leaves, none of what it met is at fault, and neither of the two was met |
| FsckCertificate.CertifiedFile | internal/fsck/walk.go:155-162 | and every entry's inode was checked as a file exactly when it was not counted as something else first; so it was if no entry met types it otherwise and it is not the root inode, which never is |
| FsckCertificate.CertifiedRow | internal/fsck/walk.go:155-162 | the row an entry leads to is sound if its catalog is the one the inode was checked in, or if it repeats the row checked and its content is in a shard |
| FsckOrder.OneMoreInOrder | internal/fsck/walk.go:155-162 | of the catalogs with an entry for a file in a directory entered, the file is checked in the one begun first; this is kept with each file checked |
| FsckOrder.CheckedInFirst | internal/fsck/walk.go:155-162 | so a file the root catalog lists in a directory entered is checked there and nowhere else |
| FsckSecondRow.PassesSecondRow | internal/fsck/walk.go:155-162 | another row need not be sound: a complete check without a finding of a volume in which it has walked the directory that holds the unsound second row of a file, and checked the file by its first row alone |
| FsckSkipped.Passes | internal/fsck/walk.go:23-59 | the exception is real: a volume with a broken file under the root's inode, in another catalog, that a complete check passes over without a finding |
| FsckSkipped.NothingFound | internal/fsck/walk.go:155-162 | whatever a walk of that volume leaves, none of what it met is at fault |
| CatLru.EvictedKeeps | internal/genfs/catcache.go:100-118 | eviction takes idle handles and nothing else |
| CatLru.EvictedNoFurther | internal/genfs/catcache.go:100-118 | and no more of them than the cap asks |
| CatLru.EvictedExactly | internal/genfs/catcache.go:100-118 | a handle goes exactly if it is idle and the idle ones behind it are too few to bring the rest to the cap; the others stay in order |
| CatCache.Cache.Hit | internal/genfs/catcache.go:55-61 | a hit adds one reference and moves the handle to the front; a miss changes nothing |
| CatCache.Cache.Insert | internal/genfs/catcache.go:84-90 | a new handle goes in front with one reference, then idle ones beyond the cap are closed |
| CatCache.Cache.Release | internal/genfs/catcache.go:93-98 | one reference fewer, then idle handles beyond the cap are closed |
| CatCache.Cache.EvictLocked | internal/genfs/catcache.go:100-118 | closes exactly the handles the policy evicts; map and list stay one |
| CatCache.Cache.OpenSet | internal/genfs/catcache.go:120-140 | exactly the root and the identities held open |
| CatCache.Cache.CloseAll | internal/genfs/catcache.go:142-158 | every handle and the root are closed and the cache is empty |
| CatCacheRuns.StepKeeps | internal/genfs/catcache.go:48-98 | every critical section of every caller keeps the cache invariant |
| CatCacheRuns.NeverClosedInUse | internal/genfs/catcache.go:16-18 | in no run is a catalog closed that a caller has yet to release |
| CatCacheRuns.OneOpenHandle | internal/genfs/catcache.go:64-75 | in every run at most one handle per identity is open, an opener's not yet inserted one included |
| CatCacheRuns.OverCapOnlyInUse | internal/genfs/catcache.go:16-18 | the cache is over its cap only while each handle is some caller's, its count the number of callers |
| CatCacheRuns.ReleaseEnabled | internal/genfs/catcache.go:93-98 | a matched release always finds its handle |
| CatRecency.MostRecentFirst | internal/genfs/catcache.go:55-75 | in every run the list is most recently used first: of two open catalogs the one nearer the front was handed out later |
| CatRecency.ClosesLeastRecent | internal/genfs/catcache.go:100-118 | and a catalog is closed to keep the cap only if every idle one that stays open was handed out later |
| BrowseServer.Browse.Subscribe | cmd/pelfs/browse.go:1548-1568 | a tab joins the set and stops the quiet time, unless the session is closing |
| BrowseServer.Browse.Unsubscribe | cmd/pelfs/browse.go:1570-1579 | only the departure that empties the set starts the quiet time |
| BrowseServer.Browse.Beacon | cmd/pelfs/browse.go:1444-1444 | the hint is the instant of the last beacon |
| BrowseServer.Browse.IdleSignal | cmd/pelfs/browse.go:1584-1588 | the streams, the instant and the hint as they stand |
| BrowseServer.Browse.ServePublish | cmd/pelfs/browse.go:1313-1359 | takes the slot, or says why not |
| BrowseServer.Browse.ServeSwitch | cmd/pelfs/browsebranch.go:238-278 | takes the slot unless a job runs or staged work would be stranded |
| BrowseServer.Browse.ClaimIdleJob | cmd/pelfs/browse.go:1604-1617 | takes the slot unless the session is closing, not writable or busy |
| BrowseServer.Browse.FinishJob | cmd/pelfs/browse.go:1623-1634 | that job ends, and no other changes |
| BrowseServer.Browse.CloseStreams | cmd/pelfs/browse.go:1651-1662 | the session is closing from here on |
| PublishSlot.SlotExclusive | cmd/pelfs/browse.go:1313-1359 | whoever asks, the slot is handed out only when nothing runs |
| PublishSlot.GrantedExactly | cmd/pelfs/browse.go:1313-1359 | when each is granted and what it is told otherwise: the button on a writable volume, a switch on an open one with nothing staged and no busy overlay, the idle seal on a writable one until the session closes, each only while no job runs; a refusal changes nothing |
| PublishSlot.EndsExactly | cmd/pelfs/browse.go:1623-1634 | a job that ends has the outcome it said, no other job changes, and the slot is free |
| PublishSlot.OneRunning | cmd/pelfs/browse.go:1590-1617 | of all the jobs there ever were no two run at once |
| IdleSealer.Sealer.constructor | cmd/pelfs/idleseal.go:175-186 | the window is the interval capped at 30 seconds, none without an interval |
| IdleSealer.Sealer.Due | cmd/pelfs/idleseal.go:253-309 | the whole trigger in seconds: due exactly when there is an interval, nobody is attached, and the sample is readable, dirty, past any backoff, and as long after the last departure and the last change as is owed; that is min(30 s, interval), or 5 s if less after a beacon no more than 5 s before the departure or later |
| IdleSealer.DecideExactly | cmd/pelfs/idleseal.go:253-309 | the decision of one sample, by those numbers |
| IdleSealer.Sealer.Settle | cmd/pelfs/idleseal.go:233-249 | a failure doubles the wait, a success clears it and counts as a change |
| IdleSealer.BackoffClosedForm | cmd/pelfs/idleseal.go:235-238 | after the k-th failure in a row the wait is the window doubled k-1 times, capped at the interval |
| IdleRuns.StepKeeps | cmd/pelfs/idleseal.go:212-251 | every action of every run keeps the account of tabs, samples and jobs that the log gives |
| IdleRuns.EverySealJustified | cmd/pelfs/idleseal.go:253-309 | every idle seal of every run followed a look, the last before it, with nobody attached since the last departure, and at the sample that went with it something dirty, the full quiet window and no backoff; none began after the session started to close; in seconds and log positions this is EverySealRipe |
| IdleWaits.EverySealRipe | cmd/pelfs/idleseal.go:253-309 | for each seal of each run, by the log alone: everyone who had attached before its look had left, its sample was readable and dirty, and since any tab came or went before the look, since the last write shown or successful seal, and since session and sealer began there had passed min(30 s, interval), or min(5 s, interval) if a beacon had come no more than five seconds before the last coming or going, or later; each of n failures in a row was min(2^(n-1) windows, interval) ago |
| IdleWaits.DueExactly | cmd/pelfs/idleseal.go:253-309 | conversely, until the session closes a sample after an empty look decides for a seal exactly if those conditions hold |
| IdleWaits.LooksExactly | cmd/pelfs/idleseal.go:253-269 | a look is followed by a sample exactly if everyone who attached has left |
| IdleWaits.SealsExactly | cmd/pelfs/browse.go:1604-1617 | a decision becomes a seal exactly if the volume is writable, no job runs and the session has not begun to close |
| IdleWaits.TabsExactly | cmd/pelfs/browse.go:1548-1579 | a stream is attached exactly if it came and has not left since |
| IdleRuns.OnePair | cmd/pelfs/idleseal.go:253-309 | that look and that sample are the only ones that justify the seal |
| IdleRuns.EmptySince | cmd/pelfs/browse.go:1570-1579 | the instant the quiet time runs from really is the last emptying: nobody was attached from then on |
| IdleRuns.ReconnectRestarts | cmd/pelfs/browse.go:1560-1566 | a tab that attached before the look makes the seal wait its whole window, hinted or not, from then; and only before the look, for exactly then does the quiet time run from a departure after the attach |
| IdleRuns.UnattendedExactly | cmd/pelfs/idleseal.go:253-309 | nobody is attached from the look to the start of the seal, if and only if no tab attaches in between |
| IdleRuns.LateReconnectUnseen | cmd/pelfs/browse.go:1563-1565 | the condition is needed: a run in which a tab attaches after the look and the seal starts at that instant, while the tab is attached |
| IdleRuns.OneJobAtATime | cmd/pelfs/browse.go:1590-1617 | in every run at most one job is running across button, idle seal and branch switch |
| IdleRuns.BackoffRespected | cmd/pelfs/idleseal.go:292-294 | an attempt after k failures waits at least the k-th backoff from the last |
| IdleRuns.AttemptsApart | cmd/pelfs/idleseal.go:233-249 | any two attempts are at least the shorter of the window and five seconds apart |
| IdleRuns.AttemptsBounded | cmd/pelfs/idleseal.go:233-249 | whatever comes of them, n further attempts take at least n times the shorter of the window and five seconds |
| IdleRuns.FailuresSpread | cmd/pelfs/idleseal.go:235-238 | from one attempt to a later one, none between having succeeded, there pass all the waits the failures bring, one for each and each the next backoff |
| IdleSealer.WaitsClosedForm | cmd/pelfs/idleseal.go:235-238 | the first n backoffs of a run of failures come to 2^n - 1 windows while the backoff still doubles |
| IdleSealer.WaitsCapped | cmd/pelfs/idleseal.go:235-238 | once the backoff has reached the interval n more of them come to n intervals |
| EntryCodec.DecodeUndoesEncode | internal/entrycodec/entrycodec.go:45-175 | decoding under the reported algorithm, which the stored length alone tells too, gives the data back, sealed or not, compressed unconditionally or not; encoding succeeds exactly with no key, or a 32-byte key and a drawn nonce, and a key of any other length fails both ways |
| EntryCodec.StoredExactly | internal/entrycodec/entrycodec.go:119-196 | what is stored: the shorter of the data and its compressed form, as it is without a key, and with one the nonce followed by the AEAD's output for it under that key and nonce |
| EntryCodec.DecodedExactly | internal/entrycodec/entrycodec.go:144-175 | bytes the AEAD rejects are refused, fewer than 28 too, and what it lets through is the data, or compressed data, or of an unknown algorithm |
| EntryCodec.AlgOfStoredExactly | internal/entrycodec/entrycodec.go:45-82 | under a usable key the answer is what encoding reports for every length except the verbatim length of data that compression shortens; under any other key, where nothing can be encoded, for every length but that and the compressed one |
| EntryCodec.VerbatimLengthMisread | internal/entrycodec/entrycodec.go:64-71 | an instance: a lawful codec, data it shortens to one byte, and the verbatim length answered as if it were stored so |

## Left out

- The SQLite catalog encoding and the choice between encodings: the engine is not part of this model. A catalog in that encoding is, to fsck, any reader that keeps the promises `FsckVolume.Lawful` lists.
- Files, maps, pack range reads, spill files and HTTP: a run, a table or a blob is a byte sequence, a fetched object is an entry of a finite map, and a failed read is an outcome.
- BLAKE3, zstd, AES-GCM and randomness: functions with the few laws needed (`EntryCodec.Lawful`), a nonce that may fail to be drawn, and a flag saying whether an object's bytes hash to its name.
- Go's `sort.Slice` and `sort.Sort`: specified as any sorted permutation; an insertion sort stands in for them, and the byte swaps of `recSlice` are not modelled.
- Integer width of split weights and byte counters: unbounded, so overflow of an int64 total is not captured. Stored fields, fingerprints and offsets keep their widths.
- The gear table's values and the panics for bad chunker options: any table, and an option value for the panic.
- The chunker's no-progress branch (`internal/chunkid/chunker.go:160-166`): proved unreachable and not modelled.
- The `w.err` field of the static writer, which nothing sets, and the `smin` argument of `Split`, which nothing reads.
- Write errors of run and table files, locking inside the sorter, and mapping of the table file.
- StaticRoundTrip.EncodedParses: assumes that each record array is at most 2^48 bytes, the most Go's runtime allocates for one slice; `Finish` panics on a longer one.
- StaticReader.OpenStatic: takes only blobs whose name and blob sections are each under 4 GiB, which any blob under 4 GiB is (`StaticView.SmallBlobsFit`); in a longer arena a span can be sliced backwards and the reader panics (`StaticView.ArenaSafeExactly`).
- StaticWriter.StaticWriter.SetInline: a caller that sets the same row twice is allowed, as in the source; the round trip is stated for distinct keys.
- Clean-up of namespace paths: a path is a list of names, so `path.Join`'s treatment of names holding slashes or dots is not captured.
- fsck's deep mode with its worker pool, severities, the stable sort of findings at the end, their detail texts, and the reading of manifests: concurrency plumbing and one-branch facts.
- FsckCertificate.Check: the unknown-algorithm exit of the root catalog is left out, and whether identities can be recomputed at all is folded into the object's honesty; which packs the catalogs themselves come from is not modelled.
- FsckWalk.Walker.Walk: whether the caller has given up is looked at between catalogs; a fetch that fails, because the caller gave up in the middle of it or otherwise, is an object that cannot be read (`FsckFetches.CheckFetched`), with one outcome for an object fetched both as a catalog and as a shard.
- FsckFindings.FindingsHaveCauses: a file or a catalog reached by several paths is reported at one of them, the first by which it was met; which that is is said only as a path that leads to it.
- FsckWalk.Walker.WalkDir: the maps and the queue that the source passes along are fields of the walker here, and path catalogs are not closed.
- CatCacheRuns.StepKeeps: runs end before `closeAll`; a caller that releases twice is not a caller of this model.
- CatCache.Cache.Insert: the list is a sequence rather than linked elements, and opening numbers are given at insertion.
- IdleRuns.StepKeeps: the overlay is an arbitrary reading at each sample, and the pressure reading and the clock that follows it are one step.
- BrowseServer.Browse.Subscribe: nudge and done channels, the wait group and the test hooks are not modelled.
- Mount sessions, leases, seal, repack, graft, import, merge and rotation; pages, credentials, FUSE and NFS front ends, flags, logging and statistics.
