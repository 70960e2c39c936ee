# wows-depack: a verified model

This Dafny 4.11 project models the library behind the `wows-depack` tool, which reads and writes the
archives of World of Warships: its hash map, its tree of archived files, its binary index format, its
search, and the command line parser that comes with it. Each `method` follows the C function named in its
comment branch by branch and is proved against a specification function; what the library relies on is
then proved of those functions, for all inputs and all runs. `dafny verify dfyconfig.toml` checks everything.

## What is proved

**The hash map** (`RobinHood`, `Rehashing`, `HashMaps`, `Layout`, `Crowding`, `Keys`, `HashMapLaws`, `Filling`, `SipHash`).
`HashMaps.HashMap` is the open-addressed table of `lib/hashmap.c`, updated in place, with a ghost map
`Contents` that every call keeps equal to what the buckets hold. The layout rests on one local condition,
that a bucket's `dib` exceeds its left neighbour's by at most one (`RobinHood.Ordered`): displacement and
backward shift keep it, lookups stop early because of it, and together with the keys it holds it fixes
every `dib` of the table (`Layout.HistoryIndependence`). Whether an allocation succeeds is a parameter of
the calls that may allocate, so every contract covers both outcomes. Growing and shrinking cost at most
16/3 scanned buckets a call over every run (`Rehashing.AmortisedRehashing`). Distances are kept in 16 bits;
they fit exactly when no stretch of buckets is home to too many keys (`Crowding.DibsExact`). What key equality
means for the maps that compare ids with `>` is settled by an equivalence in `Keys`.

**The archive tree** (`Tree`, `Building`, `Inodes`, `Packing`, `Paths`, `Locate`, `Search`, `Freeing`). `Inodes.Archive`
is the tree of inodes linked by parent pointers and children maps; a ghost map gives the inode at every path.
Its metadata map and its file map are the hash map above, so that its ids have to differ in the bits that are hashed.
Builds keep it a tree of bounded depth whatever the metadata says, parent cycles and failed builds
included, and `Building.BuildMeaning` says what stands at every path after any run of files over any tree. Packing a directory and building from the records gives the directory back. An inode is found again
by its printed path exactly under a stated condition. Search reports each selected path once, and releasing
the tree releases each inode once, children first.

**The index format** (`IndexFormat`, `IndexBytes`, `IndexFile`, `IndexRelease`, `IndexDump`, `IndexRoundTrip`). The parser
runs on addresses modulo 2^64, every load having to lie in the buffer, and computes a function of the bytes alone, as does
what it holds when it fails and has to release. `IndexBytes` says where every field stands, byte by byte, and what a
buffer is refused for. The dumper is parametrised by what a compiler adds to its structs and by
the bytes that lie behind the footer struct, which it writes. When the compiler adds nothing, and only then, an index can
be dumped and read back exactly when it has the little-endian marker and its package name lies behind its footer struct.

**All of it together** (`EndToEnd`, `Dispatch`). A directory is packed, its index dumped on the widths of the format,
parsed and opened, and the archive holds the directory and leads every file to its own data, if a NUL lies behind
every name in the reader's memory.
What a scan reports over the tables of a parser, that parser can route.

**The command line** (`CommandLine`, `Spelling`, `Getopt`, `Argp`, `ArgpParser`). `CommandLine.Read` reads a line from
left to right without moving anything; a line written as its options are declared is read as it is meant (`Spelling`); the scanner, which permutes argv in place in every call, reports the same
events and leaves argv as the options, then the rest, each in its original order. The options of a tree of parsers
are converted inside the memory measured for them, and what the scan returns goes back to the parser that declared it.

## Reading the model

- Sizes: `size_t` and `uint64_t` values are `nat`, with `% 2^64` or `% 2^32` written out wherever the C code can wrap.
- Calls that put keys into a table ask for `Crowding.Spread`, a condition on the keys' home buckets. It is exactly that the distances of the table fit their 16-bit field. Up to 65535 keys always meet it, and so does every table of up to 2^16 buckets. Doubling a table keeps it (`Crowding.SpreadDoubles`).
- What happens to lie in memory behind an allocation is an input: behind the footer struct for the dumper, behind the names for their reader.
- An archive is made for a set of ids in play that differ modulo 2^48 (`Inodes.Tellable`), as `Keys.NumbersAreKeys` says they must. Children maps are keyed by name, where nothing needs to be assumed (`Keys.NamesAreKeys`).
- Strings are sequences of characters without the terminating NUL. The calling code's regular expression, and the long option table of getopt, are arbitrary functions.
- FORMAT.md calls the integers of an index Big Endian. The parser reads them as little-endian when the marker bytes are 00 00 00 02 and as big-endian otherwise; the model follows the parser.
- FORMAT.md gives `unknown_3` 64 bits; the parser reads the first 32 of them. A round trip therefore needs a value below 2^32.

## Where the code falls short of what it is for

Each of these is a theorem that says exactly when the code does what it should.

- `decompose_path` splits a path correctly only if it is not empty and has at most ten directories and at most ten redundant slashes (`Paths.DecomposeIsSplit`, `Paths.EmptyPath`).
- `get_inode` finds an inode by its printed path only below at most ten directories, none of them with id 0, and only if no name on the path is empty or has a slash, with one exception: an empty name directly in the root (`Locate.LocateRoundTrip`). With a trailing slash it also returns a file met on the way (`Tree.ResolveMeaning`).
- The 16-bit distance field of the hash map is wide enough for all tables of a size exactly up to 2^16 buckets. In a larger table 65536 keys with one home overflow it (`HashMapLaws.SixteenBitsExactly`).
- Maps keyed by id confuse ids that agree in their low 48 bits (`Keys.NumbersAreKeys`).
- The range check of the parser is right for every start address only if range and buffer together are shorter than the address space (`IndexFile.CheckExact`), which the caps on counts and names see to.
- The dumper writes C structs. On a 64-bit host they hold a pointer or padding that the parser does not expect, so not every dumped index can be read back (`IndexRoundTrip.RoundTripExactly`).
- The reader accepts big-endian indexes, and the dumper then writes little-endian numbers behind their marker. It also writes the bytes behind the footer struct for the package name, where the reader has not put it. What was read comes back if and only if it was read as little-endian and those bytes spell the name (`IndexRoundTrip.Redumped`); it is certain to only if it was read as little-endian and the name is empty (`IndexRoundTrip.RedumpedSurely`).
- The packer stores names without their NUL, so each is read with the text that lies behind its allocation: the records come back as packed if and only if a NUL lies behind every name (`EndToEnd.NamesUnterminated`).
- A buffer that is refused with a count of records in its header but before the metadata array is made leads the release of the index into a null array. These are exactly the buffers with the right magic and at least one record counted, that count too many records or files or are too short for their records (`IndexRelease.ReleaseExact`); the shortest is a header of 56 bytes (`IndexRelease.HeaderAlone`).
- A file takes the place of a directory of the same path, with all below it; a later file below an earlier file stops the build (`Building.BuildMeaning`).
- An option `:` behind another option changes what getopt takes that one's argument to be, and it never takes `;` for an option (`Dispatch.LetterTakes`). Where the parser asks for no ordering, a first letter `-` or `+` is taken to ask for one (`Dispatch.FlagsHeeded`).
- With ARGP_NO_ARGS one byte too few is reserved for the short option string (`Argp.ShortRoomExact`).
- A short option that equals the character in front of the option string goes to the first parser (`Argp.ShortDispatch`), and a long option needs a key of 24 bits and one of the first 127 groups (`Argp.LongDispatch`).

## Model

| member | source | states |
|---|---|---|
| `HashMaps.RoundCapacity` | lib/hashmap.c:83-91 | the capacity becomes a power of two, at least 16 and at least what was asked for, and no larger than needed |
| `HashMaps.HashMap.constructor` | lib/hashmap.c:74-129 | a new map is empty, its table as large as its floor, the floor a power of two of at least 16 |
| `HashMaps.HashMap.Set` | lib/hashmap.c:233-271 | the map gains the item under its key and returns exactly the item of that key it replaced; a full table doubles first; it sets `oom` and changes nothing else exactly when the table is full and memory is refused; the cost is the old buckets scanned; the keys have to be spread widely enough for 16-bit distances |
| `HashMaps.HashMap.Get` | lib/hashmap.c:275-291 | returns the item last set for the key and not deleted since, or nothing |
| `HashMaps.HashMap.Delete` | lib/hashmap.c:307-344 | removes and returns the item of the key; above its floor a table left a tenth full halves if memory allows, for which the keys left have to be spread in the half table |
| `HashMaps.HashMap.Clear` | lib/hashmap.c:171-188 | empties the map; the table goes back to its floor, or its size becomes the floor; a refused allocation keeps the old array |
| `HashMaps.HashMap.Scan` | lib/hashmap.c:371-381 | calls the iterator on stored items only, none twice, and on all of them unless it stops the scan |
| `HashMaps.HashMap.Resize` | lib/hashmap.c:190-227 | every entry is in the new table, or nothing has changed |
| `HashMaps.HashMap.GrowIfFull` | lib/hashmap.c:237-243 | after it there is room for one more entry, unless memory was refused to a full table, which then is as before; growing never overflows a distance |
| `HashMaps.HashMap.ShrinkIfSparse` | lib/hashmap.c:334-340 | the table halves, contents kept, exactly when it is above its floor, at most a tenth full, and memory is granted |
| `HashMaps.Place` | lib/hashmap.c:200-218 | displacement into a new table keeps the order of the table and adds exactly the entry, for keys spread widely enough |
| `HashMaps.Rehash` | lib/hashmap.c:196-219 | the new table represents what the old one did, for keys spread widely enough in it |
| `HashMaps.Upsert` | lib/hashmap.c:245-270 | probing finds the key if it is stored, before any displacement; otherwise the displaced entries all find a place; the loop ends; for keys spread widely enough |
| `HashMaps.Find` | lib/hashmap.c:279-290 | the probe stops at the key or at a free bucket, and then the key is not stored |
| `HashMaps.Vacate` | lib/hashmap.c:320-332 | the backward shift closes the gap and keeps the order; exactly the one key is gone; the loop ends |
| `RobinHood.Reach` | lib/hashmap.c:250-267 | no free bucket and no nearer entry comes before a stored key on its probe path |
| `RobinHood.DibAtMostCount` | lib/hashmap.c:30-34 | no entry is further from home than there are items |
| `RobinHood.Swap` | lib/hashmap.c:262-269 | putting the carried entry down and picking the nearer one up keeps the order and conserves the entries |
| `RobinHood.Land` | lib/hashmap.c:252-256 | the carried entry completes the table in a free bucket |
| `RobinHood.ShiftBack` | lib/hashmap.c:322-332 | moving one entry back keeps the order around the moving hole |
| `RobinHood.CloseHole` | lib/hashmap.c:326-329 | the shift may stop at a free bucket or at an entry at home |
| `Layout.QueueStep` | lib/hashmap.c:203-217 | entries that pass a bucket obey the recurrence of a queue that serves one per bucket |
| `Layout.HistoryIndependence` | lib/hashmap.c:203-332 | two tables of equal size holding the same keys have the same `dib` in every bucket |
| `Crowding.DibsExact` | lib/hashmap.c:30-34 | all distances of a table are at most d if and only if no stretch of j+1 buckets is home to more than d+j keys |
| `Crowding.FlightWithin` | lib/hashmap.c:262-270 | an entry carried along has come no further than the table it will be part of allows, so `dib += 1` does not wrap |
| `Crowding.SpreadDoubles` | lib/hashmap.c:237-243 | keys spread widely enough for a table they fit in are so for one twice as large: growing never makes a distance overflow |
| `HashMapLaws.Bounds` | lib/hashmap.c:30-34 | of every map: powers of two, buckets >= floor >= 16, `dib` <= count <= growat < buckets, and `dib` fits 16 bits |
| `HashMapLaws.Thresholds` | lib/hashmap.c:122-123 | every map is full at exactly three quarters of its buckets, and sparse at a tenth, rounded down |
| `HashMapLaws.FewItemsFit` | lib/hashmap.c:30-34 | up to 65535 items can be set whatever their homes |
| `HashMapLaws.SixteenBitsExactly` | lib/hashmap.c:30-34 | every table of a size, no fuller than three quarters, fits the 16-bit `dib` if and only if the size is at most 2^16 buckets |
| `HashMapLaws.SameKeysSameLayout` | lib/hashmap.c:233-344 | two maps of equal size with the same keys have the same layout, whatever calls led to either |
| `HashMapLaws.ResizingPaid` | lib/hashmap.c:190-227 | since a map was new or cleared, 3 times the buckets scanned by its resizes is at most 16 times its set and delete calls |
| `Rehashing.StepPays` | lib/hashmap.c:122-123 | one call with its resize is paid by a fixed charge and the credit the sizes hold |
| `Rehashing.StepKeepsSized` | lib/hashmap.c:238-243 | every call keeps powers of two, floor and load bound |
| `Rehashing.AmortisedRehashing` | lib/hashmap.c:334-339 | over every run of calls from a new table, however allocations fail, resizing costs at most 16/3 buckets a call |
| `Keys.NumbersAreKeys` | lib/hashmap-helpers.c:11-32 | the hash and comparator of the id maps tell keys apart if and only if no two different ids in play agree modulo 2^48 |
| `Keys.StrcmpZero` | lib/hashmap-helpers.c:35-39 | strcmp answers 0 exactly on equal names |
| `Keys.NamesAreKeys` | lib/hashmap-helpers.c:35-44 | the children maps tell names apart whatever the hash |
| `Filling.Fill` | lib/index-parser.c:324-334 | the loops over the records and entries set every item, and the map holds what it should; for keys that never crowd it |
| `Filling.LastStays` | lib/index-parser.c:324-334 | every key then leads to the last item of it, or where it led before |
| `Filling.FewNeverCrowd` | lib/index-parser.c:324-334 | up to 65535 items never crowd a map, whatever their keys |
| `Filling.SpreadInLarger` | lib/hashmap.c:237-243 | keys that are spread in the smallest table for them are so in every table that may hold them |
| `SipHash.Sip64` | lib/hashmap.c:434-517 | the word loop and fall-through tail compute SipHash-2-4 of every byte string and key |
| `SipHash.LastWord` | lib/hashmap.c:483-503 | the switch gathers the tail and the length into the last padded word |
| `SipHash.SipRoundInPlace` | lib/hashmap.c:452-468 | the statements of SIPROUND are SipRound of section 2.1 of the SipHash paper |
| `SipHash.Example` | lib/hashmap.c:434-517 | the definition gives the value published in appendix A of the SipHash paper for its example |
| `Tree.BuildKeepsTree` | lib/inode.c:10-66 | any build, over any metadata and also when it stops with an error, leaves a tree with at most 32 directories above any file |
| `Tree.AncestorsBounded` | lib/index-parser.c:211-231 | the chain of parents has at most 32 records, also on a cycle, and is entered in reverse |
| `Building.BuildFileMeaning` | lib/inode.c:10-66 | one file comes to stand at its path with nothing below it, the directories above it are old ones or new ones with the ids on record, nothing else changes; without a record, or with a file above its path, nothing changes and the error says which |
| `Building.BuildMeaning` | lib/inode.c:10-66 | of any run of files over any tree: what stands at every path, namely the files that no later one took the place of, nothing else at and below the paths of files, elsewhere what was there or a new directory with the id of the first file below it; and which file stops the run with which error |
| `Tree.WalkMeaning` | lib/inflate.c:32-47 | the walk ends at the whole path if listed, else at the file met on the way, else nowhere |
| `Tree.ResolveMeaning` | lib/inflate.c:24-83 | a path with a final name is found exactly where listed; with a trailing slash also at a file on the way |
| `Tree.ResolveFails` | lib/inflate.c:54-83 | the lookup fails with NotADir exactly if there is a final name and one of the directories, the last included, is listed as a file, with NotFound exactly if none is and the path is not listed, and with nothing else |
| `Tree.ClimbMeaning` | lib/inode.c:153-165 | the climb gives a tail of the path, all of it exactly when no directory on the way has id 0 |
| `Inodes.Archive.constructor` | lib/index-parser.c:57-65 | a new archive is a tree of the root alone, with an empty metadata map keyed by id |
| `Inodes.TellableKeys` | lib/hashmap-helpers.c:11-20 | the metadata map tells records apart if and only if no two different ids in play agree modulo 2^48 |
| `Inodes.TellableEntries` | lib/hashmap-helpers.c:23-32 | so does the file map tell entries apart |
| `Inodes.Archive.Find` | lib/inode.c:16-22 | the record of an id, or nothing |
| `Inodes.Archive.FillMetadata` | lib/index-parser.c:324-329 | the hash map holds, for every id, the last record of it |
| `Inodes.Archive.Attach` | lib/inode.c:69-150 | the new inode is stored under its name in its parent and replaces what had that name, with all below it; the tree stays linked |
| `Inodes.Archive.GetPath` | lib/index-parser.c:211-231 | fills the array with the chain of parent records |
| `Inodes.Archive.Enter` | lib/inode.c:33-55 | the directory of that name is found or made |
| `Inodes.Archive.BuildInodeTree` | lib/inode.c:10-66 | the inodes reachable from the root become exactly what Build says, whose meaning at every path Building.BuildMeaning gives, each stored under its own name in its parent only, and remain a tree |
| `Inodes.Archive.AddIndex` | lib/index-parser.c:296-342 | the records fill the metadata map and the entries the file map, then the files are built; the archive stays valid also on an error; for ids in play and keys spread widely enough |
| `Inodes.Archive.DataOf` | lib/inflate.c:119-141 | the data entry of the id of a file, or nothing; nothing for a directory |
| `Inodes.Archive.GetPathInode` | lib/inode.c:153-165 | fills the array with the names above the inode |
| `Inodes.Archive.GetInode` | lib/inflate.c:24-83 | returns the inode where the path resolves; NotADir exactly if a directory of the path with a final name is a file, NotFound exactly if none is and the path is not listed, and no other error |
| `Inodes.AttachKeepsLinking` | lib/inode.c:98-150 | storing an inode keeps every inode under its own name in exactly its parent |
| `Packing.Writer.Write` | lib/deflate.c:266-315 | appends a record for every entry, parents first, and a file entry for every file |
| `Packing.ParentsFirst` | lib/deflate.c:282-297 | every record comes behind that of the directory it is in |
| `Packing.BuildEntries` | lib/inode.c:10-66 | building the files of a directory whose records are known adds exactly its tree |
| `Packing.TreeMeaning` | lib/deflate.c:266-315 | the tree holds exactly the files at their paths and the directories that have a file below them |
| `Packing.PackingRoundTrip` | lib/deflate.c:266-315 | flattening a directory of at most 32 levels and rebuilding gives the same paths with the same ids, less the directories without files, for ids distinct modulo 2^48, that of the top included |
| `Paths.SplitMeaning` | lib/utils.c:37-112 | directories and final segment are those of the split at every slash with empty parts dropped |
| `Paths.DecomposePath` | lib/utils.c:37-112 | the cursor loops compute the decomposition, limits included |
| `Paths.DecomposeIsSplit` | lib/utils.c:37-112 | it is the split at slashes if and only if the path is not empty and has at most ten directories and at most ten redundant slashes |
| `Paths.EmptyPath` | lib/utils.c:41-51 | the empty path is taken for a file with an empty name, where the split has no file |
| `Paths.JoinPath` | lib/utils.c:114-139 | the buffer measured holds exactly the directories, outermost first, and the name |
| `Paths.JoinedSlashes` | lib/utils.c:126-133 | it has one slash for each directory, besides those of the name |
| `Paths.PathRoundTrip` | lib/utils.c:37-139 | decomposing a joined path gives its parts back |
| `Paths.RootedRoundTrip` | lib/utils.c:37-139 | so with a slash in front |
| `Locate.LocateRoundTrip` | lib/inflate.c:24-83 | with a leading slash, get_inode of the printed path is the same inode if and only if at most ten directories lie above, none has id 0 and no name is empty or has a slash; without one an inode of the root with an empty name is found, too |
| `Inodes.Archive.PathOf` | lib/search.c:29-33 | prints the path of an inode |
| `Search.Results.Add` | lib/search.c:50-56 | the buffer always has room at the index written |
| `Search.SearchInode` | lib/search.c:23-87 | appends the paths of the selected inodes at a place and below, each once |
| `Search.SelectedIsSought` | lib/search.c:35-74 | file-only looks for files by name, directory-only for directories by name, both for both, full-path for files by their whole path |
| `Search.WowsSearch` | lib/search.c:89-116 | returns the paths of exactly the inodes that the mode looks for and the matcher accepts, each once |
| `Freeing.FreeInodeTree` | lib/memory-helpers.c:79-96 | releases every inode at a place and below, none before one below it |
| `Freeing.FreeArchive` | lib/memory-helpers.c:27-42 | of the whole tree every inode is released once, and none before one below it |
| `IndexFormat.LeRoundTrip` | lib/index-parser.c:67-85 | a number is read back from its little-endian bytes |
| `IndexFile.CheckExact` | lib/memory-helpers.c:15-23 | the check with a wrapping end address decides containment for all start addresses if and only if range and buffer are together shorter than 2^64 |
| `IndexFile.CheckedTarget` | lib/index-parser.c:150-154 | a checked relative offset leads to bytes of the buffer, wherever the buffer lies |
| `IndexBytes.ParsedBytes` | lib/index-parser.c:102-197 | every field of a parsed index is the number, in the byte order that the marker asks for, at its place and of its width; a name is copied from where its offset leads, up to a NUL |
| `IndexBytes.HeaderRefused` | lib/index-parser.c:95-131 | a header is refused for being short of 56 bytes, for other letters than ISFP, or for more than 2^25 records or files, each with its error |
| `IndexBytes.SectionsRefused` | lib/index-parser.c:133-198 | behind a good header, exactly what a buffer is refused for, in which order and with which error |
| `IndexFile.ReadMetas` | lib/index-parser.c:138-155 | every load lies in the buffer; the records and names are those of the bytes, or the first error, with the names read before it |
| `IndexFile.ReadFiles` | lib/index-parser.c:164-177 | every load lies in the buffer; the entries are those of the bytes |
| `IndexFile.MapIndexFile` | lib/index-parser.c:88-199 | for every buffer shorter than 2^63 at any address, all loads are in bounds, and the result and what is held on return, errors included, depend on the bytes only |
| `IndexRelease.FreeIndex` | lib/memory-helpers.c:44-60 | releases the names that were read, in order, each once; it looks into a null array if and only if records are counted and there is no metadata array |
| `IndexRelease.NamesHeld` | lib/index-parser.c:140-155 | when the parser returns, the names of the records up to the first that does not fit are held, as they stand in the buffer, and no other |
| `IndexRelease.ReleaseExact` | lib/index-parser.c:300-302 | of all buffers, exactly those with the right magic that count a record and are refused for their counts or their length before the metadata array is made lead the release into a null array; a buffer of too many files or records does if and only if it counts a record |
| `IndexRelease.HeaderAlone` | lib/index-parser.c:133-139 | the 56 bytes of a header that counts one record are such a buffer |
| `IndexRelease.AllReleased` | lib/memory-helpers.c:49-51 | of a parsed buffer the names of all records are held, each once, in order |
| `IndexRelease.FreeIndexes` | lib/memory-helpers.c:27-31 | releasing the indexes of a context releases every name of every record once and meets no null array |
| `IndexDump.DumpMetas` | lib/deflate.c:328-337 | writes the records with their running name offsets |
| `IndexDump.DumpIndex` | lib/deflate.c:318-374 | the file is the image of the index with its offsets filled in, and at its end as many bytes from behind the footer struct as the package name is long |
| `IndexRoundTrip.PlacedOffset` | lib/deflate.c:329-337 | record i of N gets the offset 32*(N-i) plus the sizes of the names before its own |
| `IndexRoundTrip.MetasBack` | lib/deflate.c:329-346 | every name offset leads from its record to that record's own name |
| `IndexRoundTrip.HeaderBack` | lib/deflate.c:364-371 | the rewritten header is read back |
| `IndexRoundTrip.RoundTrip` | lib/index-parser.c:88-199 | on the widths of the format, parsing a dumped index gives the same header, records and names if and only if it has the little-endian marker and the bytes behind its footer struct spell its package name |
| `IndexRoundTrip.RoundTripExactly` | lib/wows-depack-private.h:48-80 | that equivalence holds of all indexes and all bytes behind their footer structs if and only if the compiler adds nothing to the structs |
| `IndexRoundTrip.OtherMarkerLost` | lib/index-parser.c:108-114 | behind any other marker the dumped numbers are read from the wrong end, whatever the rest |
| `IndexRoundTrip.PackageNameRead` | lib/deflate.c:356-362 | whatever the compiler adds, an index comes back only if what it adds to the footer struct and the bytes behind that begin with the package name |
| `IndexRoundTrip.ParsedIsWellFormed` | lib/index-parser.c:88-199 | whatever is parsed has right counts, widths and name sizes, so the results on dumping apply to it, for any bytes behind its footer struct |
| `IndexRoundTrip.Redumped` | lib/deflate.c:318-374 | what was read from a buffer can be dumped and read again if and only if the buffer has the marker bytes 00 00 00 02 and the bytes behind the footer struct spell the package name |
| `IndexRoundTrip.RedumpedSurely` | lib/deflate.c:360-362 | so it comes back for all bytes behind the footer struct if and only if the buffer has the marker bytes 00 00 00 02 and the package name has size 0 |
| `EndToEnd.PackIndex` | lib/deflate.c:211-264 | on the widths of the format, the dumped index of a packed directory parses to the ids, parents and names of its records, to file entries that each carry the offset, size and id of their own data, the compression types and the footer id, and to the header and package name given |
| `EndToEnd.ParseIndexBuffer` | lib/index-parser.c:296-342 | a good buffer adds its records, read with what lies behind their names, its data entries and its files; a bad one changes nothing in the archive, and releasing what was read of it looks into a null array exactly if the buffer is one of those of ReleaseExact |
| `EndToEnd.PackAndOpen` | lib/deflate.c:211-315 | on the widths of the format, packing, dumping, parsing and opening a directory leads every file to its own data, and if a NUL lies behind every name read it gives exactly its files at their paths with their ids, and the directories that have a file below them |
| `EndToEnd.NamesUnterminated` | lib/index-parser.c:138-155 | every record packed is read with its name run on into the text behind it; the records come back as packed if and only if a NUL lies behind every name |
| `CommandLine.ReadMerges` | deps/argp/src/getopt.c:327-368 | in a reading every element is used as an option or left over, once, in its original order |
| `CommandLine.OptionsNeverLeft` | deps/argp/src/getopt.c:433-456 | in PERMUTE order nothing that looks like an option is left over unless a `--` was used before it |
| `Spelling.ArityDeclared` | deps/argp/src/getopt.c:748-760 | in a string of declared letters every letter means what is declared of it, and no other character is known |
| `Spelling.LineRead` | deps/argp/src/getopt.c:383-1031 | a line of clusters and long options, spelt as declared with attached, separate, optional, missing or no arguments, unknown ones included, among non-options and in front of a `--`, is read as exactly the codes and arguments meant, in every ordering, and uses and leaves the elements that it should |
| `Spelling.LettersBehind` | deps/argp/src/getopt.c:296-310 | the character in front of the letters is told from them exactly unless there is none and the first letter looks like one |
| `Spelling.ScanMeans` | deps/argp/src/getopt.c:276-325 | so, for the option string as a caller writes it, whether the ordering comes from its first character or the environment |
| `Getopt.SwapBlocks` | deps/argp/src/getopt.c:243-261 | two blocks are swapped, nothing else moves |
| `Getopt.BottomSettled` | deps/argp/src/getopt.c:237-250 | swapping the shorter bottom segment settles its final place and leaves an exchange of shorter segments |
| `Getopt.TopSettled` | deps/argp/src/getopt.c:251-265 | so does swapping the shorter top segment |
| `Getopt.Scanner.Exchange` | deps/argp/src/getopt.c:206-272 | two adjacent segments change places, each in its order, nothing outside them moves, and the bounds describe the non-options again |
| `Getopt.Scanner.Initialize` | deps/argp/src/getopt.c:276-325 | a scan starts behind the program name with nothing set aside |
| `Getopt.Scanner.Advance` | deps/argp/src/getopt.c:414-439 | permuting and skipping do not change what the scan will report, use and leave |
| `Getopt.Scanner.Quote` | deps/argp/src/getopt.c:446-456 | at `--` the scan ends with `--` behind the options and before everything else |
| `Getopt.Scanner.DecodeLetter` | deps/argp/src/getopt.c:748-1031 | a letter of a cluster reports its event and consumes what it should |
| `Getopt.Scanner.DecodeLong` | deps/argp/src/getopt.c:500-746 | so does a long option |
| `Getopt.Scanner.Next` | deps/argp/src/getopt.c:383-483 | each call permutes argv and reports the next event of the line as first written, or ends the scan with the options in front of the rest |
| `Getopt.Scanner.Scan` | deps/argp/src/getopt.c:383-483 | over a whole run argv is a permutation; at its end it holds the used elements in original order, then the rest in original order, with `optind` between them |
| `Argp.EncodingExact` | deps/argp/src/argp-parse.c:336-344 | a key and group survive the encoding if and only if the key fits signed 24 bits and the group is among the first 127; the value is then no character |
| `Argp.ShortDispatch` | deps/argp/src/argp-parse.c:679-692 | a short option is found in the part of the first parser, parents first, that declares it, if and only if it is not the leading character or that parser is the first |
| `Argp.LongDispatch` | deps/argp/src/argp-parse.c:325-349 | each long name has one entry, its first declaration; its argument is required or optional exactly as the entry it stands for says, and its value decodes to its group and its own key, or else that of the entry it stands for, exactly under the encoding's condition |
| `Argp.NameMeaning` | deps/argp/src/argp-parse.c:306-326 | an entry is a long option exactly if it has a name and the last entry up to it that is no alias is no documentation |
| `Argp.LetterMeaning` | deps/argp/src/argp-parse.c:306-317 | an entry is a short option exactly if its key is a printable character and neither it nor the entry it stands for is documentation |
| `Argp.ShortRoomExact` | deps/argp/src/argp-parse.c:421-465 | the reserved bytes suffice for every tree if and only if ARGP_NO_ARGS is not given |
| `Argp.InputsLinked` | deps/argp/src/argp-parse.c:352-382 | a group's parent slot belongs to the group of the parser whose child it is, at that child's index |
| `Argp.ChildrenLinked` | deps/argp/src/argp-parse.c:352-379 | every child with a group of its own, of a parser that is a group, is linked to it at its index |
| `Argp.GroupsAre` | deps/argp/src/argp-parse.c:303-376 | the groups are exactly the parsers of the tree that have options or code of their own |
| `Argp.InputsApart` | deps/argp/src/argp-parse.c:362-371 | the slots of different groups do not overlap and lie in the region measured |
| `Argp.InputsFit` | deps/argp/src/argp-parse.c:421-441 | no more slots are handed out than were counted |
| `ArgpParser.Sizes.Add` | deps/argp/src/argp-parse.c:421-441 | the recursion counts the options, groups and children of the tree |
| `ArgpParser.Parser.constructor` | deps/argp/src/argp-parse.c:444-481 | the allocation has the measured sizes and the conversion stays inside it |
| `ArgpParser.Parser.FindLong` | deps/argp/src/argp-parse.c:194-205 | the first entry of that name, or none |
| `ArgpParser.Parser.AddOptions` | deps/argp/src/argp-parse.c:306-350 | writes the short string and the long entries of one parser, terminators kept, aliases and documentation handled |
| `ArgpParser.Parser.AddGroup` | deps/argp/src/argp-parse.c:352-373 | the group records its end in the short string and gets one slot per child |
| `ArgpParser.Parser.ConvertOptions` | deps/argp/src/argp-parse.c:297-382 | the tables become those of the tree, parents first |
| `ArgpParser.Parser.ParseOpt` | deps/argp/src/argp-parse.c:668-692 | a short option reaches its first declarer exactly under the condition of ShortDispatch; one that nobody declares reaches no parser, unless it is the leading character, which reaches the first; a long option reaches the group and key in its value |
| `Dispatch.ReadFrom` | deps/argp/src/getopt.c:748-1031 | every code that a reading reports is an option letter, the value of a long option, or one of the codes for arguments and errors |
| `Dispatch.ScanRoutable` | deps/argp/src/argp-parse.c:718-792 | every code reported over the tables of a parser of at most 127 groups can be routed, and every option letter has a first declarer |
| `Dispatch.LetterTakes` | deps/argp/src/argp-parse.c:315-322 | getopt takes a letter of the finished string to have the argument that the entry declaring it first says, exactly unless it is `;` or an option `:` follows it |
| `Dispatch.SameArity` | deps/argp/src/argp-parse.c:315-333 | where an entry declares its letter and its name first, getopt takes both to have the same kind of argument, unless some parser declares `:` or the letters are not told from what stands in front of them |
| `Dispatch.SameOwner` | deps/argp/src/argp-parse.c:668-692 | the letter and the long name of one entry, where it declares both first, lead to the same parser and key |
| `Dispatch.FlagsHeeded` | deps/argp/src/argp-parse.c:384-407 | getopt finds in front of the letters the ordering that the parser's flags ask for, exactly unless none is asked for and the first letter looks like one |

## Left out

- HashMaps.HashMap.Set: what happens once a distance overflows its 16 bits, and growth beyond 2^30 buckets, where the rounding loop overflows an int.
- HashMaps.HashMap.Delete: a shrink into a table in which a distance would overflow.
- HashMaps.HashMap.Clear: calling the element-freeing callback.
- HashMaps.HashMap.constructor: a failed allocation in `hashmap_new`, which returns no map.
- HashMaps.Place: a table in which a distance would overflow.
- HashMaps.Upsert: a table in which a distance would overflow.
- HashMaps.Rehash: a table in which a distance would overflow; the entry being moved is carried in a local variable; the C code carries it in the bucket of the old array that is about to be freed.
- HashMaps.HashMap.Get: returns the item, not a pointer into the table.
- SipHash.Sip64: the conversions of the key and the result between words and bytes, which are the identity on a little-endian host.
- Inodes.Archive.AddIndex: the list of indexes; allocations of the two maps succeed.
- Filling.Fill: more than 402653184 items, for which the map would have to grow beyond 2^30 buckets.
- Inodes.Archive.DataOf: opening the package file, and what is done with the data.
- Inodes.Archive.BuildInodeTree: the children maps are values under the contract that `HashMaps` proves, for directories whose names are spread widely enough over the table (`Crowding.Spread`), as up to 65535 names always are; their allocation failures are not modelled.
- Packing.Writer.Write: file contents, the file name section and the growth of the arrays in chunks; ids come with the directory, where the C code draws them at random.
- Search.WowsSearch: compiling the pattern, and its failure.
- IndexFile.MapIndexFile: big-endian hosts.
- IndexRelease.FreeIndex: the memory of the records, header and footer, which is released in every case, and the name buffer of a refused record, which is not.
- IndexDump.DumpIndex: write errors.
- EndToEnd.PackIndex: where the data of the files goes in the package, which is an input; what a compiler adds to the structs.
- EndToEnd.PackAndOpen: what a compiler adds to the structs; what becomes of the archive when a name is read with text behind it, beyond its validity.
- Freeing.FreeArchive: the rest of the context; its indexes are released by `IndexRelease.FreeIndexes`.
- Getopt.Scanner.DecodeLetter: the `-W` branch and `optopt`.
- Getopt.Scanner.DecodeLong: the search for abbreviations, `flag`, `longind` and `optopt`.
- Getopt.Scanner.Next: option strings with `W;`, where `-W name` stands for `--name`; without a long option table that branch does not advance within a cluster, and behind an ambiguous name it skips one element more. Also `long_only`, abbreviated and ambiguous long names (the table says what a name means), error messages, `optopt`, `longind` and `flag`, and callers that move `optind` back during a scan.
- Getopt.Scanner.Scan: what Next leaves out.
- Dispatch.SameOwner: a letter `:`, and letters whose first declaration is another entry than that of the name.
- ArgpParser.Parser.ParseOpt: calling the parsers, their state and their errors; options of values outside the table.
- Argp.ShortDispatch: `isprint` outside the C locale; a `:` as an option, which getopt never returns.
- `hashmap_iter`, `hashmap_probe` and the element-freeing callback: easy members beside those modelled.
- The rest of `argp-parse.c`: non-option arguments, the order of parser calls at start and end.
- Allocation failures outside the hash map, including `malloc(0)` in `decompose_path`.
- Murmur3, which the library does not use; zlib, PCRE2, file and directory access, `mmap`, extraction, printing and the command line tool itself.
- Help output of argp, the portability layers in `deps/`.
