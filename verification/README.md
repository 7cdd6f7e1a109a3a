# Verified model of fuse3-p7zip

fuse3-p7zip mounts an archive that the 7-zip library can read as a file system. This project
models its core in Dafny and proves what the code promises:

- the mounted tree that `Fuse::execute` builds from the flat list of items, and the callbacks
  that answer from it (`Strings`, `Paths`, `Archives`, `Trees`, `TreeProperties`, `Listings`);
- COM reference counting and its handles, and the hand-over of the output stream to the library
  (`ComHeaps`, `ComObjects`, `Extraction`);
- the order in which formats are tried, and the search for one that opens the file (`Formats`,
  `FormatsTwice`, `Opening`);
- the temporary files behind open handles (`Streams`, `Handles`).

`Basics` holds what all of them share.

`dafny verify dfyconfig.toml` checks the whole project.

## Design

Code that updates state is imperative here too: `Cache.Build` is the tree-building loop over a
`map`, `CiIterator`, `UnknownImp`, `ComObject`, `FileWriteStream`, `ImplArchiveExtractor`,
`ImplLib`, `ImplArchive` and `Mount` are classes with the fields of the C++ classes, and `split`,
`proposed_name`, `fill_formats`, `open_archive` and `cb_readdir` keep their loops. Each method is
proved equal to a specification function, and the theorems are about those functions.

*Paths.* A path is its root-directory flag and its elements; an empty last element is a trailing
slash. `Parse` reads native strings, so everything is stated for the strings that 7-zip and FUSE
pass. `.` and `..` are not normalised, as in the code.

*Tree.* `Mounted` is the closed form of the tree: no loop, only the last item at a path and the
first item below it. `Cache.Build` is proved to compute it although its walk to the root stops at
the first ancestor already present; `EarlyBreakExact` shows that this shortcut is right exactly
for ancestor-closed trees. The theorems of `TreeProperties` and `Listings` are about any tree
that satisfies `IsMounted`, which `BuiltIsMounted` establishes for the result of `Cache.Build`.

*What a method computes, said twice.* A specification function that a method follows step by step
is also described without it: item paths by `ResolveNative`, attributes by `ItemAttributes`,
`ImpliedAttributes` and `RootAttributes`, lookups by `LookupOfKey`, seeks by `SeekOrigins` and
`SeeksResolved`, reads by `SliceBytes` and `SequentialReads`, key order by `PathLeExactly`, the
proposed name by `ProposedNameIs`, and every step on a handle by its pointers (`PairPointers` and
its companions) and its owners (`StepOwners`).

*References.* `ComHeaps.Step` is one construction, assignment, swap, attach, and so on, over a heap
of counters, handles and raw references; `Conserved` says that every counter equals the number of
owners. The counter has 32 bits; a step that would make it overflow is exactly a step that breaks
the law. The classes in `ComObjects` are proved to take these steps through a ghost `World`; copy
assignment, for one, really constructs a temporary, swaps it in and destroys it.

*Extraction.* The library is a script of calls on the stream. It is polite if it uses the stream
only while it owns a reference. `StreamSurvives` shows that the stream outlives the extraction by a
polite library that gives back what it owns exactly if the library asks for it in extract mode at
most once, because the code prepays one reference and no more. `ExtractItem` is proved for every
polite script that the stream survives; otherwise the code works on a deleted stream.

*Where a property has an exact condition.* It is proved in both directions, for all inputs, and
where it matters with an input that fails: stopping early (`EarlyBreakExact`), reading the
extension lists in range (`ReadsInRangeExactly`, `ReadOutOfRange`), replacing the root (`RootKept`,
`RootLost`), parents being directories (`ParentsExact`, `FileWithChild`), implied directories
surviving a reordering of the items (`ImpliedDependsOnOrder`), distinct names in a listing
(`EachNameOnce`, `DistinctListings`), iterator consistency (`NextConsistent`, `WrappedIterator`),
reference conservation (`StepConserves`), survival of the stream (`StreamSurvives`,
`HandedOutTwice`), splitting a joined list (`SplitOfJoin`, `LongDelimiterOverlaps`), idempotence of
the format override (`IdempotentExactly`, `TwoOfOneName`), and independence of the override
(`OverrideKeepsOpening`, `UniqueChoice`, `BrokenFormatBlocks`).

*Where the documentation and the code differ.* The repository's README says that formats are tried
in alphabetical order; the code uses the order in which the library lists them, and the model
follows the code.

## Model

| member | source | states |
|---|---|---|
| Strings.SplitLoop | src/string.cpp:76-85 | the erasing loop terminates for a non-empty delimiter and returns the leftmost decomposition |
| Strings.JoinOfSplit | src/string.cpp:76-85 | joining the pieces restores the input, and no piece contains the delimiter |
| Strings.SplitOfJoin | src/string.cpp:76-85 | splitting a joined list gives it back if and only if no delimiter straddles or lies in a piece |
| Strings.SplitOfJoinChar | src/string.cpp:76-85 | for a one-character delimiter that means the pieces are free of it |
| Strings.LongDelimiterOverlaps | src/string.cpp:80 | for longer delimiters, pieces free of it can be split differently |
| Paths.ParseRender | src/fuse3.cpp:373-377 | parsing the canonical native form of a path gives the path back |
| Paths.SlashRunsCollapse | src/fuse3.cpp:278 | a lookup with repeated slashes finds the same path |
| Paths.AppendIsNative | src/fuse3.cpp:373-377 | appending on elements is appending on native strings as the standard defines it |
| Paths.NamesOfAppend | src/fuse3.cpp:373-377 | the names of a joined path are those of the left one followed by those of the right one, which alone count if it is absolute |
| Paths.NoElements | src/fuse3.cpp:373-374 | a native path names no element exactly when it consists of slashes |
| Paths.NativeChild | src/fuse3.cpp:331-333 | directory path, slash, entry name is the path of that child |
| Paths.ParentAndFilename | src/fuse3.cpp:331-333 | parent, filename and append undo each other on named paths |
| Paths.PathLeTransitive | src/fuse3.cpp:27 | the order of the map's keys is transitive |
| Paths.PathLeTotal | src/fuse3.cpp:27 | and total and antisymmetric |
| Paths.StrLeExactly | src/fuse3.cpp:27 | names are ordered by the first character that differs, a prefix coming first |
| Paths.PathLeExactly | src/fuse3.cpp:27 | keys are ordered by the first element that differs, a path coming before those below it, relative ones first |
| Archives.CiIterator.Increment | src/7zip/Archive.cpp:211-234 | one increment, with the 32-bit wrap-around |
| Archives.ConstructorsConsistent | src/7zip/Archive.cpp:168-182 | begin, end and at yield consistent iterators, and at fails exactly out of range |
| Archives.NextConsistent | src/7zip/Archive.cpp:211-234 | incrementing keeps the end flag right unless the index wraps; before the end it never does |
| Archives.EqualIsEquivalence | src/7zip/Archive.cpp:352-356 | equality of consistent iterators is an equivalence: they are equal if they are the same or both at an end |
| Archives.WrappedIterator | src/7zip/Archive.cpp:352-356 | after a wrap-around equality is not transitive |
| Archives.IterationCoversArchive | src/7zip/Archive.cpp:373-389 | from begin to end every index is visited once, in order |
| Archives.ProposeName | src/7zip/Archive.cpp:128-146 | the loop stops at the first matching default extension that has a substitute and puts that in place of the archive's extension |
| Archives.ReadsInRangeExactly | src/7zip/Archive.cpp:135-145 | the loop reads the additional extensions in range if and only if every match up to the first with a substitute has one at its index |
| Archives.ReadOutOfRange | src/7zip/Archive.cpp:138-139 | with two default extensions and none to add, an archive with the second one makes the loop read out of range |
| Archives.ReplacedExtension | src/7zip/Archive.cpp:140 | the proposed name keeps the stem and carries the substitute as its extension, given with its dot or without; an empty one removes the extension |
| Archives.ExtensionExactly | src/7zip/Archive.cpp:131 | exactly when a name has an extension, which then starts with its only dot behind a stem |
| Archives.ProposedNameIs | src/7zip/Archive.cpp:128-146 | the additional extension of the first matching default one that is not "*" replaces the extension |
| Archives.ProposedNameStays | src/7zip/Archive.cpp:128-146 | without such an extension the filename is proposed as it is |
| Archives.ProposedNameVisible | src/7zip/Archive.cpp:128-146 | a named archive never proposes an empty name or one made of slashes |
| Archives.ResolveNative | src/fuse3.cpp:373-377 | on native strings: the item's path below the root and its name, or the proposed one, with its extension below that |
| Archives.ResolvesToRoot | src/fuse3.cpp:373-377 | an item resolves to the root exactly when its leaf name is slashes, or empty under such a path |
| Archives.RootReplacedBy | src/fuse3.cpp:373-377 | in a named archive only an item without extension whose name is all slashes does |
| Archives.ResolveWellFormed | src/fuse3.cpp:373-377 | every item resolves to a well-formed absolute path |
| Trees.Cache.Build | src/fuse3.cpp:361-401 | the nested loops with the early break leave exactly the closed form of the tree |
| Trees.Cache.AddParents | src/fuse3.cpp:393-400 | the inner loop emplaces the missing ancestors up to the first present one, with the reused stat |
| Trees.Cache.FillStat | src/fuse3.cpp:379-390 | the field assignments give the stat that ItemAttributes describes |
| Trees.ModesExact | src/fuse3.cpp:367-399 | the literal kind and permission bits of files, directories and the root, over the archive's other bits |
| Trees.Cache.Locate | src/fuse3.cpp:373-377 | the loop's steps lead to the path that ResolveNative describes |
| Trees.EarlyBreakExact | src/fuse3.cpp:393-400 | stopping at the first present ancestor equals walking to the root for every item if and only if the tree is ancestor-closed |
| Trees.WalkToRootAdds | src/fuse3.cpp:393-400 | the plain walk adds exactly the absent ancestors and overwrites nothing |
| Trees.MountedClosed | src/fuse3.cpp:371-401 | before every item the tree is ancestor-closed |
| Trees.MountedStep | src/fuse3.cpp:371-401 | one turn of the loop takes the closed form of n items to that of n + 1 |
| TreeProperties.BuiltIsMounted | src/fuse3.cpp:370-401 | the built tree satisfies the hypothesis of the theorems below |
| TreeProperties.MountedKeys | src/fuse3.cpp:370-401 | the keys are the root, the items' paths and their ancestors, and nothing else |
| TreeProperties.MountedRecords | src/fuse3.cpp:392-399 | a path holds its last item, any other key a directory from the first item below it, the root its own record |
| TreeProperties.Shape | src/fuse3.cpp:370-401 | the root and every parent are present, all keys are absolute and well formed |
| TreeProperties.RootKept | src/fuse3.cpp:370-377 | the root keeps its record exactly when no extensionless item is named by slashes alone |
| TreeProperties.RootLost | src/fuse3.cpp:373-392 | an item named "/" takes the place of the root's record |
| TreeProperties.Typing | src/fuse3.cpp:367-399 | every key is a directory or a regular file, and a regular file carries an in-range iterator to its own item |
| TreeProperties.RecordOfItem | src/fuse3.cpp:392-399 | a record can be extracted exactly if its key is some item's path, and then it is that of an item there |
| TreeProperties.ItemAttributes | src/fuse3.cpp:379-392 | an item's path has the item's size, times and kind, and literal permissions over the archive's mode |
| TreeProperties.ImpliedAttributes | src/fuse3.cpp:393-399 | an implied directory has the size and times of the first item below it, and mode 0775 over the archive's |
| TreeProperties.RootAttributes | src/fuse3.cpp:364-370 | the root has the archive's attributes, with the search bits of owner and group added, and with access for others also theirs to read and search |
| TreeProperties.ParentsExact | src/fuse3.cpp:386-399 | all parents are directories exactly when no item kept as a file has another item below it |
| TreeProperties.FileWithChild | src/fuse3.cpp:386-399 | a file with an item below its path is a parent that is no directory |
| TreeProperties.ReorderedPaths | src/fuse3.cpp:371-377 | an item's path does not depend on its position |
| TreeProperties.OrderIndependent | src/fuse3.cpp:371-401 | reordering items keeps the keys, the kind and mode at keys without an item, an unreplaced root's record and, with distinct paths, each item's stat and identity |
| TreeProperties.ImpliedDependsOnOrder | src/fuse3.cpp:396-399 | an implied directory keeps its record under every reordering of the items if and only if all items below it imply the same one |
| TreeProperties.BuiltImplied | src/fuse3.cpp:371-401 | so it is for every implied directory of the tree that the loop builds |
| Listings.CbGetattr | src/fuse3.cpp:273-283 | 0 and the stat of the key that the path denotes if there is one, otherwise -ENOENT |
| Listings.LookupOfKey | src/fuse3.cpp:273-283 | getattr finds every key under its printed path, the root under "/", and no other well-formed path |
| Listings.LookupOfItem | src/fuse3.cpp:273-283 | so every item is found under its path, as a file or directory of its own size and times |
| Listings.CbReaddir | src/fuse3.cpp:320-338 | the flat scan emits ".", ".." and then exactly the children, in increasing order of names |
| Listings.ListingAgreesWithLookup | src/fuse3.cpp:273-336 | a directory lists a name with a stat exactly when getattr of the joined path gives that stat |
| Listings.ListedNames | src/fuse3.cpp:331-334 | listed names are non-empty and free of slashes |
| Listings.EachNameOnce | src/fuse3.cpp:328-336 | in a directory of any tree all emitted names are distinct exactly when no child is called "." or ".." |
| Listings.DistinctListings | src/fuse3.cpp:328-401 | on a mounted tree every listing has distinct names if and only if no item's path has an element "." or ".." |
| Listings.WalkCoversMount | src/fuse3.cpp:320-338 | following listed names from the root meets every named key exactly once and nothing else |
| ComHeaps.StepConserves | src/include/com.hpp:88-180 | a step keeps every count equal to its owners exactly when the 32-bit counter has room |
| ComHeaps.StepOwners | src/include/com.hpp:88-180 | a step adds one owner to the object it takes a reference to, removes one from the object it gives up, and changes no other |
| ComHeaps.PairPointers | src/include/com.hpp:101-132 | the pointers of both handles after copies, moves, assignments and swaps, also of equal pointers and of one handle with itself |
| ComHeaps.NewPointers | src/include/com.hpp:93-99 | the pointer of a handle constructed empty or from a raw pointer |
| ComHeaps.TakenPointers | src/include/com.hpp:152-168 | the pointer of a handle after it took a raw reference |
| ComHeaps.GivenPointers | src/include/com.hpp:88-174 | the pointer of a handle after release, detach and destruction |
| ComHeaps.OthersKept | src/include/com.hpp:88-180 | no other handle appears, disappears or changes |
| ComHeaps.RunConserves | src/include/com.hpp:88-180 | so does every run, and each object created is in the end live or deleted once |
| ComHeaps.DeletedWithLastOwner | src/7zip/com.cpp:23-30 | an object is deleted by the step that takes its last owner, and by no other |
| ComHeaps.NothingLeaks | src/7zip/com.cpp:23-30 | when all references are given up no object is alive |
| ComHeaps.CopyAndSwap | src/include/com.hpp:120-125 | the temporary of copy assignment leaves nothing behind |
| ComHeaps.MoveAndSwap | src/include/com.hpp:127-132 | the temporary of move assignment leaves nothing behind |
| ComObjects.UnknownImp.AddRef | src/7zip/com.cpp:18-21 | increments the counter of this object only |
| ComObjects.UnknownImp.Release | src/7zip/com.cpp:23-30 | decrements, and deletes at zero |
| ComObjects.UnknownImp.QueryInterface | src/7zip/com.cpp:32-41 | hands out one more reference, or nulls the out-parameter |
| ComObjects.ComObject.Copy | src/include/com.hpp:101-105 | the new handle shares the pointer with one more reference |
| ComObjects.ComObject.MoveFrom | src/include/com.hpp:107-111 | the new handle takes the pointer and the reference |
| ComObjects.ComObject.CopyAssign | src/include/com.hpp:120-125 | both handles end up equal; nothing happens when they were |
| ComObjects.ComObject.MoveAssign | src/include/com.hpp:127-132 | the source is emptied unless both already pointed to the same object |
| ComObjects.ComObject.Release | src/include/com.hpp:144-150 | gives the reference up and nulls the handle |
| ComObjects.ComObject.Out | src/include/com.hpp:152-156 | `operator&` releases before the callee stores |
| ComObjects.ComObject.Attach | src/include/com.hpp:163-168 | takes the raw reference over and empties the raw pointer |
| ComObjects.ComObject.Detach | src/include/com.hpp:170-174 | hands the reference out and nulls the handle |
| ComObjects.ComObject.Swap | src/include/com.hpp:176-180 | exchanges the pointers |
| Extraction.CountLaw | src/7zip/ArchiveExtractor.cpp:64-75 | the counter is the unique_ptr, the prepaid reference not yet given out, and the library's references |
| Extraction.StreamSurvives | src/7zip/ArchiveExtractor.cpp:140-151 | the stream outlives a polite, balanced library exactly if it was handed out at most once |
| Extraction.HandedOutTwice | src/7zip/ArchiveExtractor.cpp:64-75 | asking twice and giving each reference back deletes the stream under the extractor |
| Extraction.ExtractedBytes | src/7zip/WriteStream.cpp:63-70 | when the library does not seek, the contents are the concatenation of its writes |
| Extraction.ExtractedPaints | src/7zip/WriteStream.cpp:63-80 | wherever the library seeks, each byte is that of the last write over it, gaps are zeros, and the length is the last end |
| Extraction.SeeksResolved | src/7zip/WriteStream.cpp:72-80 | relative seeks leave the same contents as the seeks from the start to the same places |
| Extraction.ImplArchiveExtractor.GetStream | src/7zip/ArchiveExtractor.cpp:64-75 | hands out the raw pointer in extract mode only |
| Extraction.ImplArchiveExtractor.Execute | src/7zip/ArchiveExtractor.cpp:140-151 | returns the rewound stream with the contents written, counted by its remaining references; on failure keeps it |
| Extraction.ExtractItem | src/7zip/Archive.cpp:396-400 | the extractor is deleted on return; only the stream survives, or nothing on failure, when references that the library kept are left dangling |
| Extraction.ExtractionConserves | src/7zip/Archive.cpp:396-400 | extraction leaves every count equal to its owners |
| Streams.WrittenBytes | src/7zip/WriteStream.cpp:63-70 | what a write leaves at each offset, with zeros in a gap |
| Streams.WritesJoin | src/7zip/WriteStream.cpp:63-70 | two writes in a row equal one of both blocks |
| Streams.WritePaints | src/7zip/WriteStream.cpp:63-70 | a write puts one more block over those of the earlier writes |
| Streams.ReadBack | src/7zip/WriteStream.cpp:92-114 | seeking back and reading returns what was written |
| Streams.SeekNowhere | src/7zip/WriteStream.cpp:72-80 | seeking by nothing from the position stays, from the end goes there |
| Streams.SeekOrigins | src/7zip/WriteStream.cpp:72-80 | offsets count from start, position or end; out of range or from elsewhere nothing happens |
| Streams.RelativeSeeksAdd | src/7zip/WriteStream.cpp:72-80 | seeks from the position add up |
| Streams.AppendAtEnd | src/7zip/WriteStream.cpp:63-80 | a write after a seek to the end appends |
| Streams.SliceBytes | src/7zip/WriteStream.cpp:92-98 | which bytes a read returns, and how many |
| Streams.SequentialReads | src/7zip/WriteStream.cpp:92-98 | a read goes on where the last one ended |
| Streams.ChunksReassemble | src/7zip/WriteStream.cpp:92-98 | reads of adjacent chunks of any sizes reassemble the contents |
| Streams.FileWriteStream.Write | src/7zip/WriteStream.cpp:63-70 | overwrites from the position on and advances it |
| Streams.FileWriteStream.Seek | src/7zip/WriteStream.cpp:72-80 | moves the position, or leaves it when the offset is invalid |
| Streams.FileWriteStream.Read | src/7zip/WriteStream.cpp:92-98 | returns the bytes at the position, clipped to the end |
| Streams.FileWriteStream.SeekFile | src/7zip/WriteStream.cpp:108-114 | the same with an unsigned argument that becomes signed |
| Handles.ReadIsPositional | src/fuse3.cpp:312-318 | a read returns the slice at its offset and changes no byte; a negative offset reads where the last read ended |
| Handles.RunsArePositional | src/fuse3.cpp:285-318 | every interleaving of opens, reads and releases replies like positional reads of immutable contents |
| Handles.WholeItem | src/fuse3.cpp:312-318 | chunked reads of an opened item return the blocks the library wrote, later ones over earlier ones and zeros in gaps; without seeks their concatenation |
| Handles.Mount.CbOpen | src/fuse3.cpp:285-303 | -ENOENT without a key, -E2BIG for a size above the limit, otherwise an exception or a new handle on the bytes of the item at that path |
| Handles.SmallerLimit | src/fuse3.cpp:292-296 | a size refused under a limit is refused under every smaller one, and exactly those above the limit are |
| Handles.Mount.CbRead | src/fuse3.cpp:312-318 | the positional read on one handle, which is the step of the runs above; the length is cut to an int and the other handles stay as they are |
| Handles.ToIntWraps | src/fuse3.cpp:317 | the count becomes an int by wrapping, and stays what it is if it fits |
| Handles.Mount.CbRelease | src/fuse3.cpp:305-310 | closes one handle and deletes its stream |
| Formats.ImplLib.FillFormats | src/7zip/Format.cpp:81-101 | the in-place moves give head, then the rest, then tail |
| Formats.SurplusStep | src/7zip/Format.cpp:92-97 | one more mention of a name takes the first remaining format of that name |
| Formats.NthOfSurplus | src/7zip/Format.cpp:92-97 | the n-th mention of a name picks the n-th format of that name |
| Formats.Permutation | src/7zip/Format.cpp:81-101 | for any formats and override the result is a permutation |
| Formats.Stable | src/7zip/Format.cpp:85-98 | formats that are not picked keep their relative order |
| FormatsTwice.OfNameReorder | src/7zip/Format.cpp:85-100 | of each name, early mentions take the first formats to the front and late ones the next to the back |
| FormatsTwice.IdempotentExactly | src/7zip/Format.cpp:83-100 | applying an override twice changes nothing exactly when names mentioned after "*" have no formats left over |
| FormatsTwice.TwoOfOneName | src/7zip/Format.cpp:83-100 | two formats of one name, the first sent to the back, change places each time |
| FormatsTwice.DistinctNamesIdempotent | src/7zip/Format.cpp:83-100 | with distinct format names an override is idempotent |
| Opening.ChooseIsFirst | src/7zip/Archive.cpp:36-48 | the first format that is accepted, or has no handler, decides |
| Opening.OverridePriority | src/7zip/Format.cpp:99-100 | head formats decide first, then the rest, then tail formats |
| Opening.OpeningKept | src/7zip/Archive.cpp:34-50 | under that condition any override, whatever the names, keeps whether the archive opens |
| Opening.RotationDecides | src/7zip/Format.cpp:85-100 | "*" and the names before a format move it to the front, where it decides |
| Opening.OverrideKeepsOpening | src/7zip/Archive.cpp:34-50 | under every override an archive opens exactly when it opens without one, if and only if handlers can be created for all formats or no format opens it |
| Opening.UniqueChoice | src/7zip/Archive.cpp:34-50 | no override changes the outcome, if and only if at most one format is accepted or has no handler |
| Opening.BrokenFormatBlocks | src/7zip/Archive.cpp:39-40 | a format without a handler can make the override decide whether the archive opens |
| Opening.ImplArchive.NextHandler | src/7zip/Archive.cpp:39-40 | release, creation and store are single steps on the heap, and in every heap on the way at most one handler is alive, so the old one goes first |
| Opening.ImplArchive.OpenArchive | src/7zip/Archive.cpp:34-50 | selects the first accepting format, through a sequence of such steps with at most one handler alive in every heap of it |
| Opening.NewArchive | src/7zip/Archive.cpp:25-32 | on success the one handler is the archive's, after a failure none is left |

## Left out

- FUSE session set-up, mounting, signals, the command line and passwords: foreign calls and process input and output.
- Character conversion by iconv: names are strings of characters as the conversion delivers them.
- Item and format properties, and whether a format accepts the file: inputs of the model.
- `_to_time`: item times are inputs. The sub-second field it fills is the whole tick count, so no normalised time could be promised.
- `FileWriteStream::SetSize`: its effect depends on how stdio buffers interact with ftruncate.
- Short writes and other stdio errors: a write stores all its bytes.
- The converting templates of `com::Object`, and the value that `Release` returns before the last one.
- Concurrency of the counters: the increments and decrements are atomic steps.
- The library's references to the extractor and to the archive as callbacks: assumed balanced, so they do not appear.
- Extraction.ImplArchiveExtractor.Execute: for polite scripts that the stream survives; with any other the code goes on with a deleted stream.
- Extraction.ExtractItem: likewise.
- Opening.OverrideKeepsOpening: supposes that no format is called "*", which no entry could mention; the library has none.
- Opening.UniqueChoice: likewise.
- Opening.RotationDecides: likewise.
- Archives.ProposeName: only where the loop reads its lists in range, as ReadsInRangeExactly says; elsewhere the code reads past the end of a vector.
- Trees.Cache.Build: the same, and only for archives that have an item with neither path nor name; no other item consults the lists.
- Trees.Cache.Locate: likewise.
- Handles.Mount.CbOpen: for a library that is polite, gives its references back and asks for the stream once, and for records that have an item to extract; an implied directory has none, and the code then follows a null pointer.
- Strings.SplitLoop: requires a non-empty delimiter; the code does not terminate on an empty one.
- Parsing of FUSE3_P7ZIP_MAX_OPEN_SIZE: the limit is a number or absent.
