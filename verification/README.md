# femtoFS in Dafny

femtoFS is a read-only image format. A builder (`programs/makefemtofs.cpp`) turns a tree of files into an
image, a kernel decoder (`ko/image.c`) checks and reads it, an independent checker (`fsck/fsck_femtofs.c`)
checks it again, and a simulator (`programs/femtofsSim.cpp`) predicts what the builder will do. This project
models the algorithms all four share and proves that they agree, and that each keeps what the format promises.

The result everything leads to is `Build.BuildImage`: whatever normalized tree the builder gets, the bytes it
produces are read back as the image it meant, the decoder accepts them, and (`RoundTrip`) every path then leads
to its node, with the kind, mode, content and entries it was given, and no other path leads anywhere.

`dafny verify dfyconfig.toml` checks everything.

## How it is organised

Code that works step by step in the source is imperative here too: arrays, loops and classes, each method
proved against a small specification. The specifications are pure functions and predicates, and the lemmas
about them carry the main results.

* **Directories.** `Slice` says what a hashed directory slice means: links, reachability, and `WellChained`.
  `Chains` is the decoder's reverse-link forest with its entry and exit numbers; `Walks` holds the checker's
  visited-array walk and the builder's step-bounded walk. All three decide exactly `WellChained`. `Loads`,
  `Layout`, `Builder` and `BuiltSlice` build slices and show that the decoder accepts them and looks names up
  in them; `Directory` proves lookup against a plain scan and resumable enumeration against one listing;
  `MissCost` is the cost of failed lookups.
* **From plan to image and back.** `Encoding` writes the table of cells and `Header` the bytes of table and
  header, with their way back. `BuiltPlan` collects what the passes deliver, `BuiltTree` shows that the encoded
  directories form a tree, `BuiltImage` that validation accepts the rest, `RoundTrip` that paths, listings and
  content come out as they went in. `Build` runs the passes one after the other. `OnDisk` says what a built image is
  byte by byte, and `Reading` what the decoder asks of each part of an image, in bytes too.
* **Whole images.** `ImageTree` says when directories form a tree. `TreeMarks`, `TreeNodes` and `TreeWalk` are
  the breadth-first pass, which succeeds exactly when such a tree exists. `Validate` adds names, hardlinks,
  attributes and content; `TreeFacts` says what acceptance means for parents, link counts and visibility.
  `Sweep` is the interval sweep with its binary search, `Mapping` the page cache and page choice on top of it.
  `Agreement` shows that decoder and builder agree on what is public, file by file and reference by reference.
* **Planning and content.** `DisjointSets`, `Hardlinks` and `Normalize` group hardlinks; `Interning` merges equal
  content and settles what is public; `Packing` and `Content` place it; `Primality`, `Planner` and `Budget`
  choose hash tables and keep them within the metadata limit; `Attributes` places attributes.
* **Protocols.** `Devices` and `Commit` write an image to a device page by page under crashes; `Banks` and
  `BankRuns` are the resident banks under every interleaving of their callers.

`Format`, `Arith`, `Counting`, `Sorting` and `Paths` are shared. A predicate whose comment says "closed" wraps its
definition in a quantifier over `Key`, so that long methods carry the invariant along without unfolding it;
its opening lemma gives the definition back.

## Points worth knowing

* The packer's straddle test computes `tail + storedSize - 1` in 32 bits. It can wrap, but never changes the
  outcome (`Packing.StraddleTest`).
* In leaking mode a mapped page may show bytes past the end of its file. They are bytes of the public part only
  (`Mapping.CleanCache.Fault`); clean mode shows zeros.
* Packing a part can succeed although the part ends past 32 bits, because only offsets are compared there; the
  overflow is caught by the alignment that follows. `Content.PackContent` states the combined condition.

## Model

| member | source | states |
|---|---|---|
| Format.HashName | include/femtofs/format.h:155-166 | The loop that wraps at every byte gives the name's base-b polynomial wrapped once to 32 bits, modulo the table; 0 for an empty table |
| Format.KernelHash | ko/image.c:41-46 | The decoder's fold, which has no shortcut for one-cell tables, gives the same hash |
| Sorting.LessMeans | programs/makefemtofs.cpp:63-70 | Names and paths compare by the first byte in which they differ, a proper prefix coming first |
| Format.Fnv1 | include/femtofs/format.h:168-176 | The loop is the FNV-1 fold |
| Format.FnvAppend | include/femtofs/format.h:168-176 | Hashing a stream in pieces, carrying the state, is hashing the whole |
| Format.FnvStepBits | include/femtofs/format.h:168-176 | One step multiplies by 16777619 in 32 bits and then flips, of the lowest eight, the bits set in the byte |
| Slice.TrailDistinct | ko/image.c:117-147 | A chain that ends visits distinct buckets, all occupied, so its length is bounded by the slice |
| Slice.NoCycle | ko/image.c:149 | A bucket whose chain reaches the sentinel is on no cycle |
| Slice.AnchorsSuffice | fsck/fsck_femtofs.c:1070-1096 | Walking only from the entries' own anchors decides the whole slice: every entry ends and is anchored exactly when all anchor walks end and reach their entries |
| Chains.Thread | ko/image.c:121-133 | Links off the slice or onto a non-bucket are refused, exactly; otherwise the child lists hold each bucket's predecessors |
| Chains.Walk | ko/image.c:134-148 | One depth-first walk over the intrusive lists numbers exactly the tree above its root and keeps all interval facts |
| Chains.AllNumbered | ko/image.c:149 | After all walks a bucket is numbered exactly when its chain ends; the count equals the occupied count exactly when nothing cycles |
| Chains.NumbersCompare | ko/image.c:156-157 | `enter[i] <= enter[a] <= leave[i]` holds exactly when links lead from a to i |
| Chains.TestAnchors | ko/image.c:150-160 | Accepts exactly when every entry is reached from one of its own anchors |
| Chains.Check | ko/image.c:118-162 | The whole check accepts exactly the well-chained slices |
| Walks.WalkAnchor | fsck/fsck_femtofs.c:300-322 | The visited-array walk reports a fault exactly when the chain does not end on buckets, and finds the target exactly when it is on the chain |
| Walks.Fsck | fsck/fsck_femtofs.c:1070-1103 | The checker's pass over a slice is silent exactly for the right count of well-chained entries |
| Walks.BoundedWalk | programs/makefemtofs.cpp:1976-1993 | The walk of at most tableSize steps terminates exactly on chains that end |
| Walks.ValidatePlan | programs/makefemtofs.cpp:1944-1999 | The builder's self-check passes exactly for the right count of well-chained entries |
| Walks.ThreeCheckers | ko/image.c:118-162 | Decoder, checker and builder accept exactly the same slices |
| Directory.Lookup | ko/image.c:315-332 | On an accepted slice chain lookup terminates and returns the canonical node of the one bucket of that name, or nothing when no bucket has it |
| Directory.ReadDir | ko/femtofs.c:159-203 | One call emits "." under the directory's own number at offset 0, ".." under its parent's at 1, and the occupied buckets between its start and end in order, each with its name and canonical node; it stops early exactly when the next record has no room, and reports the end exactly at the end |
| Directory.ResumeAfter | ko/femtofs.c:159-203 | Resuming at the offset saved in any record gives exactly the records after it |
| Directory.ListingComplete | ko/femtofs.c:159-203 | No occupied bucket is left out of the listing |
| Directory.ListingSound | ko/femtofs.c:159-203 | Every record is that of its offset, and offsets increase |
| Directory.ReadAll | ko/femtofs.c:159-203 | Calls repeated until the end emit "." as the directory itself, ".." as its parent, and then every occupied bucket once, in order, under its name and canonical node, whatever room each call has, as long as it could hold some record |
| Directory.WholeListing | ko/femtofs.c:159-203 | The one listing, read off the slice: the two dots and each occupied bucket at its own offset |
| Loads.LoadsTotal | programs/makefemtofs.cpp:1511-1529 | Chain lengths add up to the number of names |
| Loads.SquaresAtLeast | include/femtofs/hash_plan.h:51-64 | The sum of squares is at least the number of names, with equality exactly when no chain is longer than one |
| Loads.AnchorRule | programs/makefemtofs.cpp:1511-1529 | In figures: each name goes to one of its two hashes, to the one where fewer of the earlier names went, to the lower index when as many went to both |
| Loads.BalancedUnique | include/femtofs/hash_plan.h:66-80 | That rule leaves one assignment |
| Loads.OwnChain | include/femtofs/hash_plan.h:66-80 | A name that one base puts on an occupied anchor and the other on an empty one starts its own chain |
| Layout.Room | programs/makefemtofs.cpp:1500-1563 | The layout has room exactly when there are no more children than cells |
| Layout.PosInjective | programs/makefemtofs.cpp:1531-1561 | No two children share a cell |
| Layout.LaidOutUnique | programs/makefemtofs.cpp:1531-1561 | The layout of given groups is unique |
| Builder.ConstructBuckets | programs/makefemtofs.cpp:1500-1563 | Placement succeeds exactly when the children fit, so neither "placement" error is reachable; then each child is anchored where fewer of the earlier ones are, at the lower index on a tie, the slots are the layout of the name-sorted groups, and names increase along every chain |
| Builder.ReplayLayout | programs/femtofsSim.cpp:951-988 | The simulator's separate replay ends in the layout of its groups |
| BuiltSlice.BuiltWellChained | programs/makefemtofs.cpp:1500-1563 | A built slice is well-chained |
| BuiltSlice.BuiltCount | programs/makefemtofs.cpp:1500-1563 | A built slice has one bucket for each child |
| BuiltSlice.BuilderMeetsReader | ko/image.c:315-332 | For any distinct names the built slice is accepted, each child is looked up as its own target and every other name is absent |
| BuiltSlice.SimulatorMatchesBuilder | programs/femtofsSim.cpp:961-988 | On children sorted by name the replayed layout is the builder's, cell by cell |
| MissCost.MissFormula | programs/femtofsSim.cpp:1021-1036 | Comparisons of failed lookups summed over all starting cells of a built slice are half of the sum of squares plus the number of names |
| Primality.Fermat | include/isPrime.h:304-326 | A prime divides a^(p-1) - 1 for every a it does not divide |
| Primality.RootsOfOne | include/isPrime.h:318-325 | Modulo a prime only 1 and -1 square to 1 |
| Primality.PowMod | include/isPrime.h:274-300 | Square-and-multiply gives base^exp mod n |
| Primality.PrimeIsStrong | include/isPrime.h:304-326 | A prime passes the strong test for every base |
| Primality.IsWitness | include/isPrime.h:304-326 | Answers exactly whether the base disproves primality by the strong test |
| Primality.StrongTest | include/isPrime.h:387-411 | No prime is rejected, whatever the bases |
| Primality.TableIsPrimes | include/isPrime.h:206-216 | The small-prime table holds exactly the odd primes in its range |
| Primality.Prefilter | include/isPrime.h:235-261 | Its verdicts are right for every n, and below the square of the last table prime it always has one |
| Primality.Test | include/isPrime.h:141-164 | Every prime is accepted; below the square of the last table prime the answer is exact |
| Primality.NextPrimeStrict | include/femtofs/hash_plan.h:39-49 | For any 32-bit value no prime is skipped; below the limit of the exact test the result is the least prime above the value; past the last 32-bit prime the search wraps to 2 or 3 |
| Planner.ScoreNames | include/femtofs/hash_plan.h:51-85 | The loop scores the loads that anchoring the names produces |
| Planner.ScoreBounds | include/femtofs/hash_plan.h:51-85 | Sum of squares between n and n^2, n exactly when no chain is longer than one |
| Planner.ScoreIsProfile | programs/makefemtofs.cpp:1511-1529 | The score is the chain profile of the groups the builder then lays out |
| Planner.CeilingFor | include/femtofs/hash_plan.h:121-128 | The ceiling is the least prime above twice the entries, at most 65521 |
| Planner.ChooseDual | include/femtofs/hash_plan.h:160-210 | The choice is the lexicographic minimum of longest chain, sum of squares, table size and prime over the entry count and all primes up to the ceiling, despite the early exit |
| Planner.ChooseSingle | include/femtofs/hash_plan.h:112-158 | The choice is the first least sum of squares up to where the search stops, and it stops exactly at the first table that is good enough or at the ceiling |
| Planner.BestSingleForTable | include/femtofs/hash_plan.h:87-110 | The first base with the least sum of squares in a table of given size |
| Budget.PlannedCellCount | programs/makefemtofs.cpp:1436-1448 | The loop counts objects, buckets, and attributes without an empty bucket |
| Budget.ShrinkNext | programs/makefemtofs.cpp:1482-1487 | The running totals after each shrunk directory are what recomputing gives |
| Budget.AllShrunk | programs/makefemtofs.cpp:1482-1490 | With every candidate shrunk the plan needs what the minimum plan needs |
| Budget.SortedRanked | programs/makefemtofs.cpp:1464-1479 | Each directory with a saving is a candidate exactly once |
| Budget.FitDirectoryPlans | programs/makefemtofs.cpp:1450-1498 | Succeeds exactly when the plan or the minimum plan fits, and then fits; a shrunk directory saved more than one left as it was, or as much at a lower index; without the last one shrunk, in that order, the plan would not fit; the second base is dropped exactly when no directory uses it any more |
| Budget.GreedyIs | programs/makefemtofs.cpp:1474-1490 | Shrinking along the ranked list shrinks the largest savings, the lower index first among equals, and none too many |
| Attributes.AllFreeSize | programs/makefemtofs.cpp:1576-1586 | The free buckets are as many as counted and lie between the objects and the end of the slices |
| Attributes.AllFreeIs | programs/makefemtofs.cpp:1576-1586 | A cell is free exactly when it is in some slice and no child took it |
| Attributes.CollectFree | programs/makefemtofs.cpp:1576-1586 | Collects exactly the free buckets, with their exact index by page |
| Attributes.Choose | programs/makefemtofs.cpp:1594-1604 | No free bucket is on the page of an earlier reference than the chosen one, and none with the same first reference is lower; none is chosen exactly when none is free |
| Attributes.PlaceAttributes | programs/makefemtofs.cpp:1565-1627 | Attributes get distinct cells, never an object's or a taken bucket's, each the best of what the earlier ones left, the rest in a row after the slices; it fails exactly when the table outgrows its indices |
| Attributes.PlannedIsPlaced | programs/makefemtofs.cpp:1436-1448 | The planned cell count is the cell count that placement produces |
| DisjointSets.DisjointSet.Find | programs/makefemtofs.cpp:989-994 | Terminates by rank, returns the class's representative, and path compression keeps the partition |
| DisjointSets.DisjointSet.Unite | programs/makefemtofs.cpp:995-1005 | Joins exactly the two classes |
| DisjointSets.RankFits | programs/makefemtofs.cpp:1003-1004 | With fewer than 2^15 nodes an eight-bit rank never exceeds 14 |
| DisjointSets.JoinedClasses | programs/makefemtofs.cpp:995-1005 | The joined class has the sizes added up, other classes are unchanged |
| Hardlinks.ClassesAreClosure | programs/makefemtofs.cpp:1011-1033 | Classes are the equivalence closure of explicit links and shared identities |
| Hardlinks.GroupNodes | programs/makefemtofs.cpp:1011-1033 | Fails exactly when a link dangles or names no regular file, or an identity is shared with something that is none; otherwise the classes are the closure |
| Normalize.CheckGroup | programs/makefemtofs.cpp:1052-1071 | A group passes exactly when all are regular, alike in attributes and in any content they carry; the first content found is returned |
| Normalize.NormalizeTree | programs/makefemtofs.cpp:1035-1101 | Succeeds exactly on consistent input, and then each group has one file, at its bytewise least path and with the group's content, and hardlinks straight to it; other nodes are unchanged |
| Normalize.FilesShare | programs/makefemtofs.cpp:1035-1101 | Two files end as one, with the attributes and the content they share, exactly when links or identities lead from one to the other |
| Interning.PathAllows | programs/makefemtofs.cpp:1108-1136 | The walk from the root down grants exactly when every directory on the path does |
| Interning.Intern | programs/makefemtofs.cpp:1160-1181 | Equal content gets its class whatever the digests, new content a new one; public once any use is; fails exactly on content without a 32-bit stored size |
| Interning.PublicFiles | programs/makefemtofs.cpp:1190-1201 | A file is public exactly when it is readable and some occurrence of it can be reached |
| Interning.ClassifyBlobs | programs/makefemtofs.cpp:1183-1222 | Classes are pairwise unequal, every name and content has its class, and a class is public exactly when it is no symlink's and others may see it: a name they can list or the content of a file they can read and reach |
| Interning.AllowsMeans | programs/makefemtofs.cpp:1103-1136 | In bits: searching needs bit 0 of every directory down the path, listing also bit 2 |
| Interning.FilePublicMeans | programs/makefemtofs.cpp:1190-1201 | A file is public exactly when its mode has bit 2 and every directory above one of its names has bit 0 |
| Interning.NamePublicMeans | programs/makefemtofs.cpp:1203-1207 | A name is public exactly when every directory above it has both bits |
| Interning.PathRuleIsParentRule | programs/makefemtofs.cpp:1108-1136 | The rule along path components is the rule along parent links |
| Packing.ChosenUnique | programs/makefemtofs.cpp:1668-1677 | The best-fitting hole size is unique, whatever hole a tie picks |
| Packing.StraddleTest | programs/makefemtofs.cpp:1691-1697 | The wrapping 32-bit page test agrees with the exact one |
| Packing.PackPart | programs/makefemtofs.cpp:1644-1710 | Reports overflow only on overflow; otherwise the blobs went one after the other, larger stored size first, then lower digest, bytes, kind and index, each to the front of the smallest and lowest hole that takes it or behind the tail; blobs and holes tile the part, small blobs inside one page and large ones page-aligned, tail equal to stored plus hole bytes and at most twice the stored bytes |
| Packing.PackContents | programs/femtofsSim.cpp:1063-1106 | The simulator's packing ends at the tail of the abstract best-fit run over the sizes that are not zero, in decreasing order |
| Packing.StepIs | programs/femtofsSim.cpp:1079-1099 | One step of that run: into the smallest hole that is large enough, what is left staying a hole, otherwise behind the tail, what is skipped becoming one |
| Packing.SimulatorRefinesBuilder | programs/femtofsSim.cpp:1063-1106 | On the same multiset of stored sizes simulator and builder end at the same tail |
| Content.PackContent | programs/makefemtofs.cpp:1712-1741 | Succeeds exactly when the whole image has a 32-bit size; the public part then starts on the first page after the table, the private one on the first page after it, each packed so, every blob well placed in its own part and none touching another |
| Content.PackedFits | ko/image.c:103-116 | A packed blob with its zero padding passes the decoder's test of a reference |
| Content.PackedPlan | programs/makefemtofs.cpp:1712-1741 | What is packed can be written: blobs inside the image, off the metadata and off each other |
| Content.ImageHolds | programs/makefemtofs.cpp:2101-2114 | The image on the device holds every packed blob at its offset, followed by zeros up to its stored size |
| Content.ReaderAccepts | ko/image.c:281-293 | When each reference is to a packed blob, and a blob is public exactly when some reference to it is, references never conflict and each lies in the part the decoder expects |
| Agreement.FilePublicAgrees | programs/makefemtofs.cpp:1183-1202 | A decoded file is public exactly when the builder took it to be, hardlinks included |
| Agreement.RefersDelivered | programs/makefemtofs.cpp:1203-1222 | Every reference of a decoded tree is to the blob the builder gave it, and a blob is public exactly when one of its references is |
| Agreement.PartsAgree | ko/image.c:280-293 | So a decoded tree that shows the builder's nodes passes the conflict test and the part test |
| Encoding.EncodeSlice | programs/makefemtofs.cpp:1825-1842 | A slice's buckets and empty cells are written, and cells that attributes claimed are left alone |
| Encoding.EncodeMetadata | programs/makefemtofs.cpp:1810-1852 | Every object, bucket and attribute is in its cell with all its fields, every other cell is zero; it fails exactly when a directory has no slice or no parent |
| BuiltPlan.PlacesSpread | programs/makefemtofs.cpp:1500-1627 | Objects, slices and attributes never share a cell, except that an attribute may be in a bucket no child took |
| BuiltTree.NameHeld | ko/image.c:235-245 | A stored name reads back as the name, terminated, legal and a well-placed blob |
| BuiltTree.SliceBuilt | programs/makefemtofs.cpp:1825-1842 | What the decoder sees of an encoded slice is the slice the builder laid out |
| BuiltTree.DirIsGood | ko/image.c:191-247 | Every encoded directory has a legal record, legal cells, the right count and well-chained entries |
| BuiltTree.OneBucket | ko/image.c:214 | No node has two buckets, within a directory or across directories |
| BuiltTree.TreeBuilt | programs/makefemtofs.cpp:1810-1852 | The builder's directories are a tree of the encoded image, whatever tree was built |
| BuiltImage.Entries | ko/image.c:189-248 | The decoder enters exactly the builder's nodes, each from the directory it is in |
| BuiltImage.MirroredBuilt | ko/image.c:204-234 | Every decoded node shows its item: kind, mode, parent and, for hardlinks, the file |
| BuiltImage.UsedBuilt | ko/image.c:255-261 | Every attribute in the table is used, and what is neither object, slice nor attribute is zero |
| BuiltImage.AttrsOnce | ko/image.c:274-275 | No two attributes in the table are alike |
| BuiltImage.ContentReads | ko/image.c:276-279 | The content of every file and symlink passes the decoder's test |
| BuiltImage.BuiltAccepted | ko/image.c:164-306 | Every built image is accepted by the whole of validation |
| RoundTrip.EveryPath | ko/image.c:315-332 | Component by component, a path of the tree leads to its node, or through a hardlink to its file, and every other path leads nowhere |
| RoundTrip.NodeIsItem | ko/image.c:219-234 | The node found has the kind, mode, owner and group its item had, and the image holds the file's content or the symlink's target where the node says |
| RoundTrip.EntriesAreChildren | ko/femtofs.c:159-203 | A directory's entries are exactly its nodes, by name and number |
| RoundTrip.ListDirectory | ko/femtofs.c:159-203 | Listing a directory of a built image gives itself, its parent, and each of its nodes once, a hardlink under the number of its file |
| Header.CellInTable | include/femtofs/format.h:127-152 | Storing a table of cells as bytes and loading a cell from it gives the cell back |
| Header.ReadsBack | ko/image.c:53-76 | The bytes of a written image pass the header check and the hash comparison and decode to its offsets, root and cells |
| Header.ReadExactly | ko/image.c:53-76 | Reading fails exactly on a wrong size, mark, version, author or padding, on parts out of order or off page boundaries, and on a table without the hash the header states |
| Header.CrashReads | programs/makefemtofs.cpp:2101-2122 | After a crash the decoder reads no image or has the whole of the one that was written |
| Build.MakeAttributePlans | programs/makefemtofs.cpp:1416-1434 | Each attribute key once, the root's first, each with exactly its references in order, every node under its own |
| Build.CollectChildren | programs/makefemtofs.cpp:1285-1291 | Every directory's children are exactly the nodes with its path as parent |
| Build.MakeDirectoryPlans | programs/makefemtofs.cpp:1282-1341 | The root and every directory in path order, each with its children by name |
| Build.ConstructAll | programs/makefemtofs.cpp:1500-1563 | Slices follow the objects and each other without gaps, each laid out with its own table; no placement fails |
| Build.BuildImage | programs/makefemtofs.cpp:2027-2051 | Fails exactly when content has no 32-bit stored size, the table outgrows its indices, or the image has no 32-bit size; otherwise the image's bytes decode to it and the decoder accepts it, and it has the given uuid and, for the root and every object, the given mode, owner and group |
| Build.KeyIsStored | programs/makefemtofs.cpp:1844-1851 | The cell that an object's attribute index leads to has the object's mode, owner and group |
| Build.CellsAsPlanned | programs/makefemtofs.cpp:1436-1448 | The cells a build needs are those the budget counted for its tables |
| OnDisk.HeaderBytes | include/femtofs/format.h:50-68 | The marks, the size of the image and of its table, where the header has them |
| OnDisk.PartBytes | include/femtofs/format.h:50-68 | Where the two parts begin, and the second base |
| OnDisk.RootRecord | include/femtofs/format.h:50-68 | The root directory's slice, entries, hash byte and attribute index |
| OnDisk.WholeHash | programs/makefemtofs.cpp:2113-2114 | Bytes 8 to 11 are the FNV-1 hash of everything from byte 16 on |
| OnDisk.ObjectBytes | programs/makefemtofs.cpp:1763-1808 | An object's type, and at its attribute index an attribute with the mode, owner and group that went in |
| OnDisk.RootBytes | programs/makefemtofs.cpp:1844-1851 | At the root's attribute index an attribute with the root's mode, owner and group |
| OnDisk.ContentBytes | programs/makefemtofs.cpp:1772-1777 | A file's content or a symlink's target lies where its object says, as long as it says |
| OnDisk.LinkBytes | programs/makefemtofs.cpp:1803-1807 | A hardlink's object names its file, a fifo's nothing |
| OnDisk.DirectoryBytes | programs/makefemtofs.cpp:1778-1796 | A directory's record: base, mode, slice, entries and the directory it is in |
| OnDisk.RootTable | programs/makefemtofs.cpp:1903-1914 | The root's base, mode, slice and entries, in the header |
| OnDisk.BucketBytes | programs/makefemtofs.cpp:1825-1842 | Every node has a bucket in the slice of its directory, with its type and number and, where it says, its name and a zero |
| OnDisk.PartOfContent | programs/makefemtofs.cpp:1183-1222 | A file's content is below the private offset exactly when others may see it, as such or as a name |
| OnDisk.PartOfName | programs/makefemtofs.cpp:1203-1207 | A name, too, is below it exactly when others may see it, as a name or as content |
| OnDisk.OwnersKept | ko/image.c:90-101 | The decoded node of every object has the mode, owner and group that went in |
| OnDisk.PublicKept | ko/image.c:268-271 | A decoded file is public exactly when its mode has bit 2 and every directory above one of its names has bit 0 |
| Sweep.SweepBlobs | ko/image.c:280-292 | Comparing only with the last kept blob rejects exactly the reference sets with two conflicting references; what is kept is disjoint, increasing and the same places |
| Sweep.NoConflictMeans | ko/image.c:281-290 | No conflict: references to one offset have one size and kind, and of two others the lower ends, with its zeros, before the higher begins |
| Sweep.PublicIfReferenced | ko/image.c:286 | A kept blob is public exactly when some reference to its offset is |
| Sweep.CheckParts | ko/image.c:293 | Passes exactly when the public blobs are those below the private offset |
| Sweep.FindBlob | ko/image.c:294-300 | Binary search returns the first blob at or after an offset |
| Sweep.FileFindsBlob | ko/image.c:294-300 | Every file finds a blob of its own offset and size |
| Mapping.CleanPage | ko/image.c:334-347 | In clean mode the page handed out is the file's page, zero-filled |
| Mapping.PagesAreFile | ko/image.c:334-347 | The pages of a file concatenate to its bytes followed by zeros |
| Mapping.AtMostOneCopy | ko/image.c:343-346 | A file that fits one page or starts page-aligned has at most one copied page |
| Mapping.InPlaceServed | ko/image.c:343-346 | A page mapped in place shows the file's own bytes, and beyond them nothing but bytes of the public part |
| Mapping.CleanCache.Fault | ko/femtofs.c:253-273 | A fault is served with the file's own bytes, whether mapped, copied now or copied before for another file of the same blob; past the file's end come zeros, or when leaking bytes of the public part and no others |
| Mapping.CleanCache.CopyOnce | ko/femtofs.c:257-269 | A page is copied on the first fault that needs it, and the count of live pages stays exact |
| Mapping.CleanCache.Free | ko/femtofs.c:373-386 | Releases every copied page, none twice |
| TreeMarks.QueueIsTree | ko/image.c:189-248 | When every queued directory is finished, the queue is a tree of the image |
| TreeMarks.SliceClash | ko/image.c:197-200 | A slice over another slice or over an object rules out every tree |
| TreeMarks.TargetClash | ko/image.c:214 | A target inside a slice, or named twice, rules out every tree |
| TreeMarks.TooMany | ko/image.c:217 | Reaching 2^15 objects rules out every tree |
| TreeNodes.EnterDecoded | ko/image.c:219-234 | Entering an object decodes its node and keeps parents, inherited flags and directory link counts |
| TreeWalk.Walker.ClaimSlice | ko/image.c:197-200 | Claims a slice for its directory, or shows that no tree fits |
| TreeWalk.Walker.ScanCell | ko/image.c:201-246 | One cell keeps every invariant, or shows that no tree fits |
| TreeWalk.Walker.WalkTree | ko/image.c:171-248 | Succeeds exactly when the directories form a tree: slices disjoint from each other and from all objects, one bucket for each object, every directory entered from an earlier one; the queue is that tree and no longer than the cell count plus one |
| Validate.NoneTwice | ko/image.c:253-254 | Comparing sorted neighbours finds a duplicate exactly when there is one |
| Validate.NamesDistinct | ko/image.c:253-254 | The list of all names has no duplicate exactly when no directory has a name twice |
| Validate.ReadyForLookup | ko/image.c:315-332 | In every directory of an accepted image lookup meets what it relies on |
| Validate.ResolveOne | ko/image.c:262-272 | One cell's hardlink is resolved, its file's links counted and its visibility noted, or the hardlink names no file |
| Validate.LastPass | ko/image.c:255-273 | Passes exactly when attributes are used and clean, strays are zero and hardlinks name files |
| Validate.CheckBase | ko/image.c:249-252 | Trial division up to the root accepts exactly the primes in range |
| Validate.PartsOfKept | ko/image.c:293 | Checking the merged blobs checks every reference |
| Validate.CheckContent | ko/image.c:280-300 | Accepts exactly references without conflict in their right parts, and gives each file its blob |
| Validate.Validate | ko/image.c:164-306 | Accepts exactly images whose directories form a tree and whose names, bases, attributes, hardlinks and content are in order; the reference table never needs more than two slots a cell |
| Validate.ContentRefsAre | ko/image.c:276-279 | One reference for every file and every symlink, and no other |
| Reading.NameIs | ko/image.c:235-243 | A name is 1 to 255 bytes before a zero in its part, without a slash, and neither "." nor ".." |
| Reading.BlobIs | ko/image.c:103-116 | Content lies word-aligned in one part, in one page or from the start of one, with one to four zeros up to the next word; a symlink's target is private and has no zero |
| Reading.AttrIs | ko/image.c:90-101 | An attribute cell, with the object's type in the mode's highest four bits |
| Reading.DirectoryIs | ko/image.c:192-196 | A directory's record names one of 53 bases, with or without the second one, and a slice inside the table with room for its entries |
| Reading.HashingIs | ko/image.c:21-26 | The base is a prime below 256, the second one is used exactly when bit 6 is set |
| Reading.BasesArePrimes | include/femtofs/format.h:40-46 | The list of bases is that of the odd primes below 256 |
| Reading.ObjectIs | ko/image.c:214-234 | An object has the type of its bucket, attributes of that type, its parent if it is a directory, and zeros in the fields its type does not use |
| Reading.CellIs | ko/image.c:201-246 | A cell of a slice is an attribute, an empty bucket that holds the slice's size, or a bucket with an object, a name and nothing else |
| Reading.UseIs | ko/image.c:255-261 | An attribute is used, has no label unless labels are on, and what is neither attribute, slice nor object is zero |
| Reading.AttrsDiffer | ko/image.c:274-275 | No two attributes have the same mode, owner, group and label |
| TreeFacts.ReachesRoot | ko/image.c:219-229 | Parent links lead from every object to the root within the number of directories |
| TreeFacts.FlagsOfPath | ko/image.c:223-224 | The inherited flags say what the whole path says |
| TreeFacts.PublicFileMeans | ko/image.c:268-271 | A decoded file's flag says that its mode has bit 2 and every directory from one of its names to the root has bit 0 |
| TreeFacts.PublicNameMeans | ko/image.c:244 | A name's reference is public exactly when every directory from its own to the root has bits 0 and 2 |
| TreeFacts.LinkCounts | ko/image.c:263-272 | A file's links are itself and its hardlinks, a directory's are two and its child directories; canonical nodes are files; visibility is that of some occurrence |
| TreeFacts.VisibilityAgrees | programs/makefemtofs.cpp:1108-1136 | The decoder's inherited search and list flags of a directory are the builder's answers for its path |
| Devices.Device.WriteImageAt | programs/makefemtofs.cpp:301-324 | Whole-page requests splice the bytes in, and every page written on the way mixes only old bytes and new ones |
| Devices.Device.ReadImageAt | programs/makefemtofs.cpp:326-348 | Whole-page reads return the bytes asked for |
| Commit.ZeroImage | programs/makefemtofs.cpp:2084-2096 | Zeroes the image after invalidating its header durably |
| Commit.FnvRange | programs/makefemtofs.cpp:2053-2068 | Reading through a buffer hashes the range |
| Commit.WriteImage | programs/makefemtofs.cpp:2101-2122 | The device ends with the intended image and is otherwise unchanged, and its requests are invalidation, quiet writes, a flush, one write of the first page and a flush |
| Commit.ImageHoldsBlob | programs/makefemtofs.cpp:2106-2107 | The intended image holds every blob at its place |
| Commit.StoredHash | programs/makefemtofs.cpp:2113-2114 | The stored hash is the hash of the image's own bytes from the sixteenth on |
| Commit.CrashSafe | programs/makefemtofs.cpp:2101-2122 | After the first flush every crash state, whichever pending sectors persist, has a zero head or is the complete image; after the last flush only the complete image |
| Commit.MayKeepAll | programs/makefemtofs.cpp:2101-2122 | Keeping everything written is one of the crash states |
| Commit.MayLoseAll | programs/makefemtofs.cpp:2101-2122 | Keeping nothing since the last flush is one, too |
| Commit.MayMix | programs/makefemtofs.cpp:2101-2122 | What takes each sector from one of two crash states is a crash state |
| Banks.Registry.Publish | ko/bank.c:67-83 | Refuses a taken label and changes nothing; otherwise the bank is first in the list, and its size, extent and metadata are added to the counters of its origin |
| Banks.Registry.Claim | ko/bank.c:84-97 | Claims exactly an existing, unclaimed bank of a module that is not stopping, and changes nothing otherwise |
| Banks.Registry.Remove | ko/bank.c:212-232 | Removes exactly an existing, unclaimed bank and subtracts its bytes, and changes nothing otherwise |
| Banks.Registry.List | ko/bank.c:197-211 | Returns label, source, uuid, size, extent, origin and claim of the bank at the index unless the list has changed or ended |
| BankRuns.StepKeeps | ko/bank.c:168-248 | Every step of every caller keeps labels unique, claims exact and counters equal to the sums, and the module loaded while anyone is inside |
| BankRuns.AlwaysGood | ko/bank.c:67-337 | So does every interleaving |
| BankRuns.HeldStays | ko/bank.c:84-104 | A bank a mount holds stays in the list, unchanged, until that mount lets go |
| BankRuns.UnloadIsFinal | ko/bank.c:328-337 | Once unloading is allowed no bank, caller or claim is left and nothing changes any more |
| BankRuns.SameGenerationSameList | ko/bank.c:197-199 | In any run equal generations mean equal bank lists |
| BankRuns.ListDuringRun | ko/femtoctl.c:37-46 | Of any moments of any run: a listing that completes is the whole bank list of one of them, field by field; without changes it completes exactly when the module is not stopping |

## Left out

* Build.BuildImage: the choice of hash tables is an input, any tables with room for the children; `Planner` and `Budget` say which are chosen.
* Build.MakeDirectoryPlans: the map over paths is walked in node order, which is its order because nodes are sorted by path.
* Allocation failures of the decoder and the checker.
* Chains.Check: works on arrays of the slice's own size, where the source uses a window of one array for the whole image; that windows do not overlap is `TreeWalk.Walker.WalkTree`.
* Validate.Validate: starts from a header whose offsets and sizes have been checked, which is what `Header.ReadImage` does.
* Walks.ValidatePlan: the builder's separate test for 2^15 or more children is not modelled; planned directories are smaller.
* Sorting itself: `std::sort` and `qsort` are a sorting function; only the order they produce matters here.
* Primality.StrongTest: states that no prime is rejected; that the hashed base and the seven fixed bases let no composite through rests on exhaustive search and is not stated.
* Planner.ChooseSingle: the floating-point test against 1.1 is the integer test `10 * sumSquares < 11 * entries`.
* The random sample of second bases, the mixed hash policy around it, and the simulator's budgeted tuning and reporting.
* The checker's interval comparison: it flags two symlinks that share a blob, which builder and decoder allow, so the three do not agree there.
* Devices.Device.WriteImageAt: regular files, partial transfers and interrupted calls are not modelled; a request that fails ends the log, and every prefix of the log is covered by the crash theorem.
* The readback verification after a failed commit.
* BankRuns.ListDuringRun: the generation counter is unbounded, so its wrap-around after 2^64 changes is not modelled.
* Label syntax, privilege checks, image import and loader preload records of the bank device; an import is its outcome.
* Mapping.CleanCache.Fault: the object lock and the pager's page states are not modelled; an allocation is a counted page.
* Interning.Intern: content is compared as a whole, not block by block through the spool file.
* Reading trees and archives, option parsing and output publication.
