# cyberspider: a persistent hash multimap and a malware association graph

This project models two parts of cyberspider in Dafny and proves properties of them.

**DiskMultiMap** is a hash multimap of `(key, value, context)` triples kept in one binary file. The file holds:

- a 12-byte header with three offset-sized words: the first unused byte, the head of the free list, and the bucket count;
- a table of bucket words, each the offset of a chain's first record, or -1 for an empty chain;
- fixed-size records: three 121-byte character fields and a `next` offset, 368 bytes in all.

Insert appends a record at the end of its bucket's chain. The slot comes from the free list when that list is non-empty; otherwise it is taken from the end of the file. Search collects the key's records, in chain order, into an iterator. Erase unlinks records and pushes their slots onto the free list. Close writes the header back, and openExisting reads it again.

**IntelWeb** keeps every telemetry edge twice:

- `source -> destination` in a forward map;
- `destination -> source` in a reverse map.

Its operations are:

- `ingest` stores the edges of a telemetry file in both maps.
- `isPrevalent` counts an entity's records in both maps and compares the count with a threshold.
- `purge` erases every edge that has the entity as its key, together with that edge's mirror in the other map.
- `crawl` starts from the indicator entities and visits the graph breadth-first. Entities at or above the prevalence threshold are known good and are not expanded. An entity is reported bad exactly when it is rare and is reached: either it is an indicator with records in some map, or it is a neighbour of a reached rare entity. A rare indicator with no records is reported only when it is also a neighbour of a reached rare entity. That cannot happen when the two maps mirror each other, since every neighbour then has a record (`AssociationGraph.MirroredNeighbourHasRecords`), but it can happen otherwise (`AssociationGraph.UnmirroredRecordlessReached`). Crawl reports the bad entities and the interactions it walked, each list in ascending order.

The model follows the C++ in its branches and constants:

- The file is two maps indexed by byte offset: `words` for the header and bucket table, and `nodes` for the records.
- A ghost list of slot offsets per bucket (`chains`) says which records form each chain.
- A ghost list (`free`) gives the free list, with its head last.
- `Valid` states that this ghost view matches the stored offsets: chains and free list are disjoint, acyclic and end at -1, and together they hold every slot below the first unused offset, so no slot is leaked. Every mutating method preserves it.
- Each operation is stated against a value-level view: `Contents` (the records of each bucket, in chain order) and `Records(k)` (what search returns for `k`).

**Erase.** The code does not implement "remove every matching triple". Its first loop removes the run of matching records at the head of the chain. Its second loop unlinks the first later match. After that unlink, the walk moves onto the slot it just freed, so it continues along the free list instead of the chain, and no further record of the chain is removed. The model keeps this behaviour: `Chains.Erased` and `Chains.EraseCount` define it, and `Chains.EraseLeavesLaterDuplicate` shows the chain `[y, x, x]` keeping one `x`. A plain description of erase as removing every match would disagree with the code, and the model follows the code. Purge calls erase once for each record it finds under the entity. In the map it searched, this removes every record under the entity. In the other map, each call removes the head run of the mirror and at most one later copy, so at least one copy when any is left. When the two maps mirror each other (`AssociationGraph.Mirrored`: each triple is held in one map as often as its mirror is held in the other), the calls remove every mirror. Afterwards no record in either map names the entity, and the maps still mirror each other. Ingest keeps the maps mirrored.

## Model

| member | source | states |
|---|---|---|
| Layout.HeaderPrecedesTable | DiskMultiMap.cpp:50-52 | The three header words (first unused, free-list head, bucket count) lie at 0, 4 and 8, before the bucket table at 12. |
| Layout.BucketsDisjoint | DiskMultiMap.cpp:29-36 | Bucket words `i * 4 + 12` do not overlap and end within the table. |
| Layout.SlotsAreIndexed | DiskMultiMap.cpp:30 | Record slots are exactly `table end + k * 368`. |
| Layout.NextSlot | DiskMultiMap.cpp:91 | Advancing the first unused offset by 368 gives another slot. |
| Layout.SlotsDisjoint | DiskMultiMap.cpp:90-91 | Two different slots do not overlap. |
| Layout.SlotsAfterTable | DiskMultiMap.cpp:30 | Every slot lies after the header and every bucket word. |
| Tuples.StringLessIsStrictTotal | IntelWeb.h:34-45 | Lexicographic string order (`std::string::operator<`) is irreflexive, transitive and total. |
| Tuples.InteractionLessIsLexicographic | IntelWeb.h:34-45 | Interactions compare by context, then from, then to. |
| Tuples.InteractionLessIsStrictTotal | IntelWeb.h:34-45 | That comparison is a strict total order, as `std::set<InteractionTuple>` requires. |
| Ordered.LeastExists | IntelWeb.cpp:166-178 | A non-empty finite set has a least element under a strict total order, which is what traversal of a `std::set` relies on. |
| Ordered.Ascending | IntelWeb.cpp:166-178 | Iterating a set yields its elements in strictly ascending order: each member exactly once, and nothing else. |
| Ordered.AscendingUnique | IntelWeb.cpp:166-178 | Two strictly ascending sequences with the same members are equal, so the traversal is determined by the set. |
| Chains.HeadRun | DiskMultiMap.cpp:178-187 | The first loop of erase stops at the first record unequal to the triple; every record before it matches. |
| Chains.FirstFrom | DiskMultiMap.cpp:193-208 | The second loop's first later match: the earliest matching index, or none. |
| Chains.KeptFreedSplit | DiskMultiMap.cpp:178-208 | Erase splits a chain into kept and freed records, losing and duplicating none. |
| Chains.EraseCountZeroIff | DiskMultiMap.cpp:161-215 | Erase returns 0 exactly when no record of the chain equals the triple. |
| Chains.EraseRemovesOnlyMatches | DiskMultiMap.cpp:161-215 | Erase removes only copies of the triple, exactly as many as it returns, and no more than are present. |
| Chains.EraseKeepsOtherKeys | DiskMultiMap.cpp:161-215 | Records of other keys in the same bucket keep their multiplicity and order. |
| Chains.KeyFilterLength | IntelWeb.cpp:252-268 | Filtering a bucket by key never yields more records than the bucket holds. |
| Chains.EraseStagesCompose | DiskMultiMap.cpp:175-212 | Dropping the head run and then unlinking the first later match removes from the chain, and pushes on the free list, exactly the slots that `Kept` and `Freed` describe for the whole chain. |
| Chains.EraseAfterHeadRun | DiskMultiMap.cpp:189-212 | After the head run, erase removes at most the first later match, and the count is the run plus that one. |
| Chains.EraseLeavesLaterDuplicate | DiskMultiMap.cpp:193-208 | On the chain `[y, x, x]`, erasing `x` returns 1 and leaves `[y, x]`. |
| Chains.EraseRemovesHeadRun | DiskMultiMap.cpp:178-187 | A run of copies at the head of the chain is removed entirely, along with all of its count. |
| Chains.CreateWellFormed | DiskMultiMap.cpp:29-36 | The file createNew leaves, with every bucket word -1, no records and an empty free list, is well formed. |
| Chains.SlotsPartitioned | DiskMultiMap.cpp:78-121 | In a well-formed file the slots below the first unused offset are exactly the slots on a chain or on the free list, and each is on exactly one of them: no slot is leaked or shared. |
| Chains.LeakedSlotRejected | DiskMultiMap.cpp:78-121 | A file whose one record is on no chain and not on the free list is not well formed. |
| Chains.RegionsDisjoint | DiskMultiMap.h:43-56 | Bucket words lie inside the table and do not overlap; slots in use start after the table and are a record apart. So the file can be modelled as two maps, one of words and one of records. |
| Chains.Sentinels | DiskMultiMap.cpp:78 | In a well-formed file, -1 marks exactly the empty buckets, the empty free list and the last record of each chain. |
| Chains.ChainLinks | DiskMultiMap.cpp:99-103 | Following `next` from a bucket visits that bucket's chain in order and stops at its last record. |
| ArenaSteps.NewSlotFresh | DiskMultiMap.cpp:80-91 | The slot insert allocates (free-list head or first unused) belongs to no chain and is a record slot. |
| ArenaSteps.PopFree | DiskMultiMap.cpp:218-227 | The free-list head is -1 exactly when the list is empty; otherwise its `next` is the new head. |
| ArenaSteps.AppendPreserves | DiskMultiMap.cpp:78-119 | Appending a record to a chain keeps the file well formed, every slot accounted for included, and changes only that chain's records. |
| ArenaSteps.AppendAccounted | DiskMultiMap.cpp:80-115 | The slot insert allocates (the free-list head, or the one at the old first unused offset) joins the chain, so after the append every slot below the first unused offset is still on a chain or on the free list. |
| ArenaSteps.PopHeadPreserves | DiskMultiMap.cpp:180-181 | Freeing a chain's first record and repointing the bucket keeps the file well formed and drops only that record. |
| ArenaSteps.UnlinkPreserves | DiskMultiMap.cpp:198-199 | Unlinking the record after another and freeing it keeps the file well formed and drops only that record. |
| ArenaSteps.MoveAccounted | DiskMultiMap.cpp:180-200 | A slot that erase takes off a chain goes onto the free list, so no slot is leaked. |
| PersistentMultiMap.Lookup | DiskMultiMap.cpp:123-159 | Search returns records of the searched key only. |
| PersistentMultiMap.LookupValue | IntelWeb.cpp:130-141 | Every value search yields is a stored value. |
| PersistentMultiMap.OccurrencesIsMultiset | DiskMultiMap.cpp:161-215 | Counting occurrences of a record by recursion agrees with its multiplicity in the multiset. |
| PersistentMultiMap.HeldIffFound | DiskMultiMap.cpp:123-159 | A triple is held at least once exactly when search for its key finds it. |
| PersistentMultiMap.FirstRecordHeld | DiskMultiMap.cpp:147-156 | The first record search yields has the searched key and is held at least once. |
| PersistentMultiMap.NoMultiplicityNoRecords | DiskMultiMap.cpp:153-154 | A key none of whose triples is held has no records, so search returns an invalid iterator. |
| PersistentMultiMap.Place | DiskMultiMap.cpp:67-121 | A successful insert changes no bucket count and keeps the hash. |
| PersistentMultiMap.LookupPlace | DiskMultiMap.cpp:94-119 | After inserting `t`, search finds the old records of each key, followed by `t` for `t`'s key. |
| PersistentMultiMap.LookupPlaceAll | IntelWeb.cpp:68-87 | After inserting a sequence, each key's records are its old records, followed by its inserted triples in order. |
| PersistentMultiMap.MultiplicityPlaceAll | DiskMultiMap.cpp:67-121 | Inserting a sequence adds to each triple's count exactly its number of occurrences in the sequence. |
| PersistentMultiMap.PlaceAllAppend | IntelWeb.cpp:68-87 | Inserting two sequences one after the other is inserting their concatenation. |
| PersistentMultiMap.Iterator.Empty | DiskMultiMap.cpp:243-246 | The default iterator has nothing to visit. |
| PersistentMultiMap.Iterator.constructor | DiskMultiMap.cpp:248-259 | An iterator over a non-empty queue visits exactly that queue, first element first. |
| PersistentMultiMap.Iterator.IsValid | DiskMultiMap.cpp:261-264 | Valid exactly when something remains to visit. |
| PersistentMultiMap.Iterator.Next | DiskMultiMap.cpp:266-285 | Advancing drops the current record; an invalid iterator stays invalid. |
| PersistentMultiMap.Iterator.Deref | DiskMultiMap.cpp:287-295 | Gives the current record, or three empty strings when the iterator is not valid. |
| PersistentMultiMap.DiskMultiMap.constructor | DiskMultiMap.cpp:10-13 | A new multimap has no open file. |
| PersistentMultiMap.DiskMultiMap.CountIsMultiplicity | DiskMultiMap.cpp:123-159 | The number of stored copies of a triple is its multiplicity in the snapshot of the map. |
| PersistentMultiMap.DiskMultiMap.RecordsOfPlaced | DiskMultiMap.cpp:67-121 | When the buckets are an earlier snapshot plus inserted triples, each key's records are the old ones followed by its inserted triples. |
| PersistentMultiMap.DiskMultiMap.ContentsPlaced | DiskMultiMap.cpp:67-121 | A successful insert's buckets are the snapshot step `Place`. |
| PersistentMultiMap.DiskMultiMap.CreateNew | DiskMultiMap.cpp:23-38 | Closes an open file. Fails exactly when the file cannot be created. On success: every bucket word is -1, the first unused offset is the table end, there are no records, the free list is empty, and every key has no records. |
| PersistentMultiMap.DiskMultiMap.OpenExisting | DiskMultiMap.cpp:40-54 | Closes an open file. Fails exactly when the file cannot be opened. On success, the bucket count, first unused offset and free-list head are read back from the header. |
| PersistentMultiMap.DiskMultiMap.Close | DiskMultiMap.cpp:56-65 | Writes the three header words and closes the file. The stored file is well formed and reopens as the same table. |
| PersistentMultiMap.DiskMultiMap.CloseAndReopen | DiskMultiMap.cpp:40-65 | Close followed by openExisting of the same file restores the header and every key's records. |
| PersistentMultiMap.DiskMultiMap.GenerateOpenOffset | DiskMultiMap.cpp:218-227 | Pops the free-list head, or returns -1 when the list is empty, and changes nothing else. |
| PersistentMultiMap.DiskMultiMap.AddToUnusedNodes | DiskMultiMap.cpp:229-239 | Overwrites the slot with an empty record linked to the old head and makes it the new head. |
| PersistentMultiMap.DiskMultiMap.Insert | DiskMultiMap.cpp:67-121 | Fails exactly when a field exceeds 120 characters, and then leaves the file (words, records, header fields), the chains and the free list unchanged. Otherwise the file becomes `Appended`: the slot is the free-list head when there is one, else the first unused offset, which then grows by 368; the bucket word (empty chain) or the old last record links to it. That slot joins the end of the bucket's chain and leaves the free list. The triple comes last among its key's records, and no other key changes. The first unused offset never decreases. |
| PersistentMultiMap.DiskMultiMap.StartChain | DiskMultiMap.cpp:78-93 | Into an empty bucket: the bucket word points at the new record, in a freed slot or at the first unused offset. |
| PersistentMultiMap.DiskMultiMap.ExtendChain | DiskMultiMap.cpp:94-119 | Walks to the chain's last record and links the new record after it. |
| PersistentMultiMap.DiskMultiMap.Search | DiskMultiMap.cpp:123-159 | The iterator visits exactly the key's records, in chain order. |
| PersistentMultiMap.DiskMultiMap.Erase | DiskMultiMap.cpp:161-215 | Replaces the bucket's records by `Erased` and returns `EraseCount`. The returned count is 0 exactly when the triple was absent. Only that triple's count drops, by the returned amount, and other keys are unchanged. The chain loses exactly the head run and the first later match; those slots are pushed on the free list in that order; the first unused offset does not change. |
| PersistentMultiMap.DiskMultiMap.EraseInBucket | DiskMultiMap.cpp:168-212 | Within the key's bucket: returns `EraseCount`, leaves `Erased` records, and moves exactly the head run and the first later match from the chain to the free list. |
| PersistentMultiMap.DiskMultiMap.RecordsAfterErase | DiskMultiMap.cpp:161-215 | After erase, other keys' records are unchanged, and the erased triple's count drops by the erase count. |
| PersistentMultiMap.DiskMultiMap.DropHeadRun | DiskMultiMap.cpp:175-187 | Frees the head run of matching records in order, repointing the bucket; reports whether the chain was used up. |
| PersistentMultiMap.DiskMultiMap.PopRunHead | DiskMultiMap.cpp:178-187 | One pass of the first loop: the head matches, is freed, and the walk moves to its successor. |
| PersistentMultiMap.DiskMultiMap.PopHead | DiskMultiMap.cpp:180-181 | Frees the chain's first record and makes its successor the chain head. |
| PersistentMultiMap.DiskMultiMap.UnlinkFirstMatch | DiskMultiMap.cpp:189-212 | The second loop removes the first later match when there is one, and nothing otherwise. |
| PersistentMultiMap.DiskMultiMap.FindLaterMatch | DiskMultiMap.cpp:193-208 | Looking one record ahead, finds the first later match, or reaches the chain's end. |
| PersistentMultiMap.DiskMultiMap.WalkFreeList | DiskMultiMap.cpp:201-210 | After an unlink, the walk follows the free list from the freed slot to its bottom slot and changes nothing, because no dummy record equals the triple. |
| PersistentMultiMap.DiskMultiMap.UnlinkNext | DiskMultiMap.cpp:198-200 | Links a record past its successor and frees the successor. |
| PersistentMultiMap.DiskMultiMap.ChainRecord | DiskMultiMap.cpp:137-151 | A chain record read from the file is the bucket's record at that position, and its `next` is -1 exactly at the end. |
| PersistentMultiMap.DiskMultiMap.ChainStep | DiskMultiMap.cpp:99-103 | A `next` other than -1 leads to the following record of the same chain. |
| AssociationGraph.BucketCount | IntelWeb.cpp:23 | `maxDataItems * 2` in unsigned 32-bit arithmetic: doubled below 2^31, wrapped modulo 2^32 above. |
| AssociationGraph.MirrorsAppend | IntelWeb.cpp:84-85 | Mirroring a concatenation is concatenating the mirrors. |
| AssociationGraph.MirrorsMember | IntelWeb.cpp:85 | Every stored edge's mirror is among the mirrored edges. |
| AssociationGraph.MirrorsCount | IntelWeb.cpp:84-85 | Mirroring a sequence of edges keeps each edge's number of copies, now as its mirror. |
| AssociationGraph.EdgesOfLines | IntelWeb.cpp:68-87 | An edge `(key, value, context)` is ingested exactly when some line has at least three tokens `context key value` and each of the three is at most 120 characters (insert refuses longer fields, DiskMultiMap.cpp:69-72). |
| AssociationGraph.EdgesBothWays | IntelWeb.cpp:84-85 | Every ingested edge is found under its source in the forward edges and, mirrored, under its destination in the reverse edges. |
| AssociationGraph.LineMirror | IntelWeb.cpp:72-85 | A line of fewer than three tokens, or with a token longer than 120 characters, adds nothing. Otherwise it adds `(key, value, context)` forward and `(value, key, context)` in reverse. |
| AssociationGraph.PlaceOneOrNone | IntelWeb.cpp:72-85 | A line inserts no edge or exactly one into each map. |
| AssociationGraph.CrawlInvStart | IntelWeb.cpp:98-107 | The initial crawl state (indicators queued, all sets empty) satisfies the crawl invariant. |
| AssociationGraph.CrawlInvSkip | IntelWeb.cpp:115-125 | Skipping a known-good or prevalent entity keeps the invariant and leaves the queue's count of rare entities unchanged. |
| AssociationGraph.PushedExactly | IntelWeb.cpp:134-138 | A value is pushed on the queue exactly when it is among the visited records' values and was not already bad. |
| AssociationGraph.NeighboursInUniverse | IntelWeb.cpp:127-155 | Every neighbour of an entity is a stored value of one of the maps. |
| AssociationGraph.ReportedExtend | IntelWeb.cpp:139 | An interaction is reported from the expanded entities plus `e` exactly when it is reported from the expanded entities or from `e`. |
| AssociationGraph.CrawlInvExpand | IntelWeb.cpp:127-158 | Expanding a rare entity keeps the invariant (bad entities reached and rare, queue covering pending work, interactions reported) and decreases the termination measure. |
| AssociationGraph.ExpandFirstTime | IntelWeb.cpp:127-158 | The first expansion of a rare entity removes it from the entities still to expand. |
| AssociationGraph.ExpandAgain | IntelWeb.cpp:127-158 | Expanding an entity again pushes only entities that are prevalent or already bad, so the queue's pending count decreases. |
| AssociationGraph.PrevalentNotRare | IntelWeb.cpp:120-125 | Prevalent entities add nothing to the pending count. |
| AssociationGraph.NeighbourReached | IntelWeb.cpp:127-155 | A rare entity that is reached (or an indicator) and has a neighbour has records, so it is reached, and so is the neighbour. |
| AssociationGraph.ExpandBadReached | IntelWeb.cpp:127-158 | Expanding a rare entity marks bad, and queues, only reached entities. |
| AssociationGraph.ReachedRareIsBad | IntelWeb.cpp:109-160 | A set of bad entities that contains the rare indicators with records and the rare neighbours of its members contains every reached rare entity. |
| AssociationGraph.CrawlEnd | IntelWeb.cpp:109-160 | With the queue empty: an entity is bad exactly when it is reached and rare. The bad set is closed under rare neighbours and holds the rare indicators with records. Interactions are exactly those reported from bad entities. |
| AssociationGraph.CrawlReport | IntelWeb.cpp:161-180 | The same facts hold of the output lists. |
| AssociationGraph.NothingReachedIn | IntelWeb.cpp:156-158 | When no indicator has records, nothing is reached at any depth. |
| AssociationGraph.SilentIndicatorsFindNothing | IntelWeb.cpp:156-180 | When no indicator has records in either map, crawl outputs no bad entity and no interaction. |
| AssociationGraph.Visit | IntelWeb.cpp:130-155 | Walking one map's records marks each value bad, queues the new ones, records each interaction (with from and to swapped for the reverse map), and reports whether any record was found. |
| AssociationGraph.MirroredSymmetric | IntelWeb.cpp:184-211 | The forward map mirrors the reverse map exactly when the reverse map mirrors the forward map, so purge's second loop, with the roles swapped, starts from mirrored maps too. |
| AssociationGraph.MirroredNeighbourHasRecords | IntelWeb.cpp:127-155 | In mirrored maps every neighbour of an entity has a record of its own, so an indicator with no records is never reached there. |
| AssociationGraph.UnmirroredRecordlessReached | IntelWeb.cpp:130-158 | In maps that are not mirrored, an indicator with no records can be reached as a neighbour of a rare indicator and is then reported. |
| AssociationGraph.IngestKeepsMirrored | IntelWeb.cpp:72-85 | Inserting edges forward and their mirrors in reverse keeps mirrored maps mirrored. |
| AssociationGraph.MirroredPurged | IntelWeb.cpp:184-211 | In mirrored maps where search finds nothing under the entity in either map, no stored record names the entity as key or as value. |
| AssociationGraph.PurgeOne | IntelWeb.cpp:193-195 | Erases a triple from one map and its mirror from the other: a copy of each goes when there is one, and no other triple changes. |
| AssociationGraph.PurgeStart | IntelWeb.cpp:186-187 | Before the loop, the progress invariant holds with all of the entity's records still to visit. |
| AssociationGraph.PurgeStep | IntelWeb.cpp:190-197 | One turn keeps the progress invariant: no count grows, only the entity's triples change, and the entity's remaining records are bounded by the records still to visit. |
| AssociationGraph.MirrorBoundStep | IntelWeb.cpp:190-197 | One turn lowers the bound on the other map's mirrors of the entity's triples along with the records still to visit. |
| AssociationGraph.PurgeDone | IntelWeb.cpp:186-197 | When no records remain to visit, the searched map has no record under the entity. |
| AssociationGraph.PurgeDoneMirrored | IntelWeb.cpp:186-197 | A loop that started on mirrored maps ends with them mirrored: the entity's triples and their mirrors are all gone, and nothing else changed. |
| AssociationGraph.PurgeTurn | IntelWeb.cpp:190-197 | One turn erases the iterator's record and its mirror, advances the iterator, and keeps the progress invariant and the mirror bound. |
| AssociationGraph.PurgeAll | IntelWeb.cpp:187-197 | Erases every record under the entity and reports whether there was one. No count grows in either map. Only triples with the entity as key change in the searched map, and only triples with it as value change in the other. Mirrored maps stay mirrored. |
| AssociationGraph.PurgeBoth | IntelWeb.cpp:184-211 | Both purge loops together leave only changes allowed for the entity in either map. |
| AssociationGraph.IntelWeb.constructor | IntelWeb.cpp:10-13 | A new graph has neither map open. |
| AssociationGraph.IntelWeb.CreateNew | IntelWeb.cpp:20-35 | Succeeds exactly when both files are created, each with `BucketCount(maxDataItems)` buckets. If the second creation fails, the first map is closed. |
| AssociationGraph.IntelWeb.OpenExisting | IntelWeb.cpp:37-49 | Succeeds exactly when both files open. If the second fails, the first map is closed. |
| AssociationGraph.IntelWeb.Close | IntelWeb.cpp:51-55 | Closes both maps and leaves each stored file well formed. |
| AssociationGraph.IntelWeb.Ingest | IntelWeb.cpp:57-94 | Fails, changing nothing, when the file cannot be read. Otherwise the forward map gains the file's edges in order, and the reverse map gains their mirrors. Mirrored maps stay mirrored. |
| AssociationGraph.IntelWeb.InsertLine | IntelWeb.cpp:70-85 | One line adds its edge forward and its mirror in reverse. |
| AssociationGraph.IntelWeb.IngestStep | IntelWeb.cpp:68-87 | The edges of one more line are appended to those of the lines before it. |
| AssociationGraph.IntelWeb.IngestRecords | IntelWeb.cpp:57-94 | After ingest, each key's records in either map are its old records followed by its ingested edges. |
| AssociationGraph.IntelWeb.Purge | IntelWeb.cpp:184-211 | Reports whether the entity had records in either map. Afterwards it has none in either. No triple's count grows, and only triples involving the entity change. When the maps mirror each other beforehand, they still do afterwards, and no record in either map names the entity as key or as value. |
| AssociationGraph.IntelWeb.Graph | IntelWeb.cpp:96-182 | The input crawl reads: each map's records per key, the indicators and the threshold. |
| AssociationGraph.IntelWeb.CrawlStep | IntelWeb.cpp:109-160 | One pass of crawl's loop is `Skip` for a known-good or prevalent entity and `Expand` otherwise. |
| AssociationGraph.IntelWeb.Crawl | IntelWeb.cpp:96-182 | Returns the number of bad entities. Both output lists are strictly ascending. An entity is output as bad exactly when it is rare and reached from an indicator with records through rare entities. Rare neighbours of bad entities are bad, and so are rare indicators that have records. An interaction is output exactly when a bad entity reports it. |
| CrawlExample.MirroredTelemetry | IntelWeb.cpp:84-85 | The reverse map of the example holds the three edges with their ends swapped. |
| CrawlExample.ExampleMembers | DiskMultiMap.cpp:299-301 | In the example, an entity's records are the edges from it, forward, and their mirrors, in reverse. |
| CrawlExample.ExampleNeighbours | IntelWeb.cpp:127-155 | Every neighbour in the example is one of a.exe, b.exe, c.exe, g.exe. |
| CrawlExample.ExampleRare | IntelWeb.cpp:120-125 | With the threshold of 10 that the test code passes, no entity of the example is prevalent. |
| CrawlExample.SilentWebsite | IntelWeb.cpp:223-224 | The second indicator, a website that appears in no edge, has no records, so it is not reached. |
| CrawlExample.ReachedAmongFour | IntelWeb.cpp:109-160 | Only the four entities can be reached from a.exe. |
| CrawlExample.ExampleReached | IntelWeb.cpp:109-160 | a.exe is reached, b.exe and g.exe one step on, c.exe two steps on. |
| CrawlExample.FourReached | IntelWeb.cpp:109-160 | Each of the four is reached and rare. |
| CrawlExample.ExampleReported | IntelWeb.cpp:139-152 | With all four bad, an interaction is reported exactly when it is one of the example's edges. |
| CrawlExample.ExampleFound | IntelWeb.cpp:96-182 | Crawl from a.exe and the website, with threshold 10, reports exactly a.exe, b.exe, c.exe and g.exe as bad. |
| CrawlExample.InteractionsOfFour | IntelWeb.cpp:139-180 | With those four bad, the interactions reported are exactly the three edges. |
| CrawlExample.FourInOrder | IntelWeb.cpp:166-168 | Listed in ascending order, the four entities are `[a.exe, b.exe, c.exe, g.exe]`. |
| CrawlExample.ThreeInOrder | IntelWeb.cpp:169-178 | Listed in ascending order, the three interactions come by context: comp1, comp2, comp3. |
| CrawlExample.ExampleCrawl | IntelWeb.cpp:96-182 | Crawl from a.exe and the website with threshold 10 outputs exactly `[a.exe, b.exe, c.exe, g.exe]` and `[(comp1, a.exe, b.exe), (comp2, b.exe, c.exe), (comp3, a.exe, g.exe)]`, in that order. |
| AssociationGraph.IntelWeb.IsPrevalent | IntelWeb.cpp:252-268 | True exactly when the entity's records in both maps number at least the threshold. |

## Left out

- File I/O: whether `BinaryFile::createNew` and `BinaryFile::openExisting` succeed is a parameter. A file that opens is given as its contents, with a ghost description of its chains. Destructors are not modelled.
- `std::hash<std::string>` is an uninterpreted function fixed at construction.
- Strings are sequences of characters. Fixed-size C character arrays and `strcmp` become sequence equality, which agrees with them because insert refuses strings longer than 120 characters. Strings with embedded NUL characters are not modelled.
- `BinaryFile::Offset` and the unsigned counters are unbounded integers. A file larger than 2 GiB, or more than 2^32 records, is not modelled.
- PersistentMultiMap.DiskMultiMap.Erase: requires a triple that is not three empty strings. After an unlink, the source walks the free list, whose records are all three empty strings, and would match such a triple there.
- The read of `temp.next` just before erase's second loop (DiskMultiMap.cpp:192) is not modelled. It can read past the chain, and its result is overwritten before it is used.
- Erase's two loops are written as helper methods, and the first loop's early `return` is a flag that ends the loop. The behaviour is the same.
- DiskMultiMap::close writes the header before checking that the file is open. Writing to a closed file does nothing, so this is modelled as a write only when the file is open.
- Insert, search and erase take the key's hash modulo the bucket count and need at least one bucket. A map created with 0 buckets (`maxDataItems` of 0 or 2^31) is open but not usable by them, and no operation is modelled on it.
- Ingest's reading and tokenising of the telemetry file, and its console messages, are not modelled. The file is given as its lines, each a sequence of whitespace-separated tokens, or as nothing when it cannot be opened. Tokens beyond the third are ignored, as in the source.
- File-name prefixes and suffixes (`.sourceToDestination`, `.destinationToSource`) are not modelled: each map's file is a parameter.
- Crawl's `continue` statements are modelled as if/else. The count's `static_cast` is modelled as the list's length.
- AssociationGraph.IntelWeb.Purge: requires a non-empty entity, because of erase's requirement above. That records naming the entity as a value disappear is stated only for maps that mirror each other beforehand. Without that, a map can hold a triple whose mirror is missing from the other map, and no search under the entity finds that triple.
- PersistentMultiMap.DiskMultiMap.OpenExisting: requires the stored file to be one that close leaves behind (`StoreOk`: header present and chains and free list well formed), hashed with the same function. Opening a file that close did not write is not modelled. The same holds for AssociationGraph.IntelWeb.OpenExisting.
- The commented-out `main` functions in both source files are not modelled as code. `CrawlExample` combines the three edges that DiskMultiMap.cpp's test code inserts (DiskMultiMap.cpp:299-301) with the indicators and threshold of IntelWeb.cpp's crawl call (IntelWeb.cpp:222-226). The telemetry file that IntelWeb.cpp's test ingests is not available, so the example does not use it.
