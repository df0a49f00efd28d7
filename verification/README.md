# A verified model of the c_fts_uring storage engine

This project models one shard of the c_fts_uring engine from its bytes up, and the searches over it, and proves what
the layers promise each other.

- **Bytes.** `Crc32`, `PageChecksum`, `SlottedPage` and `Wal` work on byte arrays and byte strings: a table-driven CRC, the
  4096-byte slotted page, the packed log. Fields of several bytes are little-endian, as on the machines the code is for.
- **Cache.** `PoolState` is the buffer pool as a value: frames, file, log and the logical content of every page, with the
  invariant that no page is in two frames, frame or file agree with the logical content, and nothing reaches the file before
  its log records. `BufferPool` is the class whose methods perform these steps on an array of frames; `ScanRun` is about runs
  of sequential reads.
- **Structures.** Above the cache a page is a tagged union (`Pages`): a leaf, posting page, data page, tombstone page, fresh
  row page or zeros. `PageBytes` states what a scan reads in such a page byte by byte, posting pages included, which have no
  page header. `LeafChain` and `BTree` are the B-tree as the code builds it: a linked chain of leaves, read as one sorted
  list of entries. `PostingChain` and `InvertedIndex` are the posting chains reached through it. `Documents`, `DataPages`,
  `Tombstone` and `Shard` are documents, their records and deletions; `Shard.Valid` says that every posting list is exactly
  what the inserted documents call for. `Guarantees` draws the consequences: page ownership, crash recovery, locators.
- **Searches.** `Ranking` is the replace-minimum buffer and the exchange sort, `Queries` what a query may return and what its
  results say of the documents. `Search` has the two scans and the indexed search, `MergeJoin`, `Phrase`, `PhraseMeaning` and
  `PhraseSearch` the phrase search, `NodeMerge`, `ScatterGather`, `ScoreCounts`, `VectorTop`, `Answers` and `Engine` the
  search over all shards, `Rrf` reciprocal rank fusion, `Lexicon` the dictionary and the tokenizer.

Methods are sequential, as each shard is used by one work item at a time. Scores are real numbers given by an arbitrary
function of the record. `dafny verify dfyconfig.toml` verifies the whole project.

Where the code differs from its own description, the model follows the code:

- the checksum is commented as CRC32 (IEEE 802.3); the function returns its complement (`Crc32.Calculator.CalculateCrc32`);
- README.md of the repository speaks of a multi-level B-tree; no internal node is ever created, and the tree is a chain of
  leaves of which a search may visit all (`BTree.BTree.LeafCount` bounds their number);
- include/lexicon.h speaks of newly assigned ids; an id is the hash of the term, and two terms may share it
  (`Lexicon.SameId`);
- inserted terms are found up to 255 bytes only (`Lexicon.InsertedIsFound`), and a longer one can make its first 255 bytes
  known (`Lexicon.AliasIsKnown`);
- the phrase search misses a document that is not on the newest page of each of the phrase's terms, which takes a term with
  more than 92 documents, and one in which the phrase occurs only with a term for the ninth time or later; apart from these
  it finds all (`PhraseMeaning.FindsExactly`; `PhraseMeaning.NinetyThreeDocuments` and `PhraseMeaning.NineOnes` are examples);
- a deletion bitset of one page serves ids below 32576 only, and larger ids may delete others (`Tombstone.DeletesExactly`);
- a vector query shows a node that occurs several times with its lowest score (`ScatterGather.RepeatedNode`), so it may show
  less than the best; `VectorTop.BestExactly` says exactly when it shows the best;
- a log cut inside a record and then appended to no longer replays the new records, but for a freak of bytes that takes
  fewer than eight bytes left over (`Wal.ReopenedReplay`, for any state of the header variable; `Wal.LostDeletion` is an
  example).

Preconditions that come from fixed widths - page ids below 2^32 - 1, LSNs below 2^64, document ids below 2^32 - appear as
`requires` on the operations that count them up. Fetching page id 2^32 - 1, asking a search for no results at all, and pools
of fewer than two frames are outside the domain, as the code relies on never meeting them.

## Model

| member | source | states |
|---|---|---|
| Crc32.InvertedStepsAreSteps | src/slotted_page.c:5-9 | eight bit steps that test the inverted low bit, complemented at the top byte, are the standard reflected polynomial steps |
| Crc32.TableStepIsRegisterStep | src/slotted_page.c:22-25 | one table step on the complemented register is one byte of the standard CRC register, for every register and byte |
| Crc32.Calculator.FillTable | src/slotted_page.c:16-20 | the table is filled with the value of every byte |
| Crc32.Calculator.CalculateCrc32 | src/slotted_page.c:11-27 | for every byte string the result is the bitwise complement of standard CRC-32 (clause 3.2.9 of IEEE 802.3) |
| Crc32.CheckValue | src/slotted_page.c:11-27 | the standard CRC-32 named here is the one with the check value 0xCBF43926 for the digits 1 to 9 |
| Crc32.OneByteChangesRegister | src/slotted_page.c:22-25 | inputs that differ in exactly one byte lead to different registers, by injectivity of the step in register and byte |
| PageChecksum.ComputeChecksum | src/slotted_page.c:41-45 | afterwards bytes 12 to 15, read little-endian, are the complement of standard CRC-32 of the page with these bytes cleared; no other byte changed |
| PageChecksum.VerifyChecksum | src/slotted_page.c:47-58 | accepts exactly the pages of which the same is true |
| PageChecksum.AcceptedExactly | src/slotted_page.c:47-58 | what an accepted page is, written out in its bytes |
| PageChecksum.OneByteIsDetected | src/slotted_page.c:41-58 | an accepted page is rejected after any change to exactly one byte, wherever it is, checksum field included |
| SlottedPage.Init | src/slotted_page.c:29-39 | a fresh page is well formed and holds no tuples; id, type, 24, 4096 and 0 are at bytes 8, 16, 18, 20 and 22, zeros before |
| SlottedPage.InsertTuple | src/slotted_page.c:60-82 | succeeds exactly while 24 + the sum of (4 + length) stays within 4096; then the tuple is the last of an otherwise unchanged list, slots and tuples do not overlap, and the bytes of header, slot and tuple are written out with their offsets; else the page is unchanged |
| SlottedPage.ExtendedPage | src/slotted_page.c:60-82 | the stores of an insertion keep every earlier tuple's bytes and length |
| SlottedPage.GetTuple | src/slotted_page.c:84-98 | yields exactly the i-th inserted tuple, at the offset and of the length its slot says, and nothing past the last |
| Wal.HeaderRoundTrip | include/wal.h:20-29 | the 23 packed header bytes decode to the fields they were made from |
| Wal.RecordLayout | include/wal.h:20-29 | where each field of a record lies: LSN in bytes 0 to 8, transaction 8 to 12, kind 12, page 13 to 17, slot 17 to 19, length 19 to 23, then the payload |
| Bytes.LittleEndian | include/wal.h:20-29 | what decoding a field means, byte by byte |
| Wal.WalManager.constructor | src/wal.c:8-22 | opens any file - whole records, then whatever was left of a cut one - with the LSN at the file size |
| Wal.WalManager.Append | src/wal.c:24-49 | writes one record behind the file as it is, its LSN one above the last and every field at its offset; nothing becomes durable |
| Wal.WalManager.Flush | src/wal.c:51-56 | everything appended so far is durable |
| Wal.Replay | src/wal.c:58-87 | the read loop hands over exactly the records its specification `Replayed` reads, for any file; the first of them has its fields from the first bytes of the file |
| Wal.FirstReplayed | src/wal.c:58-84 | on any file whose first record is whole, the fields of the first record replayed, decoded from their offsets |
| Wal.ReplayRoundTrip | src/wal.c:58-87 | replaying a whole log yields exactly its records, in order |
| Wal.TornReplay | src/wal.c:64-76 | a log cut inside its last record replays to its whole records exactly if the cut is not inside a header or the length then read from stale bytes is not zero; else one bogus record follows |
| Wal.SessionsReplay | src/wal.c:8-49 | over any number of open/append/close sessions, replay yields exactly the appended records in order, with strictly increasing LSNs |
| Wal.WalManager.IsSession | src/wal.c:24-49 | the records of an open log are those found and then a session of the requests appended since |
| Wal.ReplayedIsPrefix | src/wal.c:64-84 | the bytes of what replay yields, but for at most a last record without payload, begin the file; for any stale header bytes |
| Wal.ReopenedReplay | src/wal.c:12-20 | a log cut inside a record, reopened and appended to replays the new records exactly if nothing was left of the cut one, or what was left continues itself in the new bytes and what is left over reads as no record; with eight bytes left it never does; for any stale header bytes |
| Wal.LostDeletion | src/wal.c:64-84 | a deletion cut one byte before its end, and one logged after reopening: no replay yields the second |
| Wal.WalManager.ReplayRecovery | src/wal.c:58-87 | hands over what the open file reads as: exactly the records found and appended, if the file held whole records when it was opened |
| BufferPool.Pool.constructor | src/buffer_pool.c:7-31 | an empty pool shows the file as it is |
| BufferPool.Pool.ClockScan | src/buffer_pool.c:68-82 | in two rounds the clock finds the first replaceable frame on its way, if there is one, and stands behind it; otherwise it is back where it was |
| BufferPool.Pool.FindVictim | src/buffer_pool.c:68-82 | fails exactly when every frame is occupied and pinned; the victim is clean and unpinned |
| BufferPool.Pool.FlushPage | src/buffer_pool.c:41-66 | writes a dirty resident page to its place in the file, the log first, and cleans its frame; no logical content, no other frame and no other page of the file changes |
| BufferPool.Pool.Fetch | src/buffer_pool.c:84-120 | logical contents stay, no pinned page moves; a hit pins its frame once more, a miss puts the page of the file, or a fresh row page behind its end, into an empty or unpinned frame whose dirty page it writes out; NULL exactly when the page is not resident and all frames are pinned, and then nothing changes |
| BufferPool.Pool.Unpin | src/buffer_pool.c:122-139 | one pin less unless there is none, dirty if it was or if asked, all other frames as before; the sequential hint makes the frame the next victim exactly when its last pin goes |
| BufferPool.Pool.Modify | src/buffer_pool.c:84-120 | a store through a pinned frame changes the logical content of that page only |
| BufferPool.Pool.NewPage | src/inverted_index.c:48-75 | zeros written at the end of the file, then a fetched and filled frame, make a page with exactly that content, even if the page was cached before it existed |
| BufferPool.Pool.FlushAll | src/buffer_pool.c:141-194 | afterwards every frame is clean and the file equals the logical view, which has not changed |
| PoolState.InstalledInv | src/buffer_pool.c:84-120 | replacing a clean unpinned frame keeps: no page in two frames, frame or file agree with the logical view, log before data |
| PoolState.WrittenBackInv | src/buffer_pool.c:46-61 | writing a page back behind the flushed log keeps the same invariant |
| PoolState.FetchFacts | src/buffer_pool.c:84-120 | what a fetch step means for contents, pins and failure |
| PoolState.AllPinnedCount | src/buffer_pool.c:68-82 | if every frame is pinned there are at least as many pins as frames, so two frames suffice for one pin and a fetch |
| ScanRun.SequentialRun | src/buffer_pool.c:122-139 | reading any number of distinct non-resident pages with the sequential hint displaces at most one page that was resident |
| Tombstone.MarkDeleted | src/fts_indexer.c:40-47 | sets bit id modulo 8 of byte 24 + (id modulo 32768) / 8, if the page has that byte, and no other |
| Tombstone.ReadDeleted | src/fts_indexer.c:49-57 | reads that bit |
| Tombstone.BitOf | src/fts_indexer.c:49-57 | what it means for an id to be deleted, as a bit of the bitset |
| Tombstone.MarkedDeletes | src/fts_indexer.c:40-57 | after marking an id exactly the ids that share its bit are deleted in addition; an id without a bit deletes nothing |
| Tombstone.DeletesExactly | src/fts_indexer.c:40-57 | whatever is deleted already, marking an id acts as insertion into the set of deleted ids below n exactly when the id has a bit (below 32576 modulo 32768) and is deleted already or is below 32768 and shares the bit with no other id below n |
| BTree.BTree.constructor | src/btree.c:8-26 | a root page that is no node becomes an empty leaf; an existing root is kept |
| BTree.BTree.Search | src/btree.c:28-72 | returns the page and slot of the first entry of the key in the concatenated leaves, without changing any page, fetching no more pages than there are leaves, one pin at a time |
| BTree.BTree.Update | src/btree.c:121-149 | gives the first entry of the key a new page and slot and keeps all others; fails exactly if there is none |
| BTree.BTree.Insert | src/btree.c:151-222 | the entries gain exactly one, still sorted; a present key still maps to its old location; its log record names the leaf, the index and the key; at most one leaf is added, at most the number of leaves + 4 fetches and two pins |
| BTree.BTree.SplitLeaf | src/btree.c:74-119 | the concatenated entries do not change; the new leaf follows the old one; the log record names both |
| BTree.ShiftInsert | src/btree.c:194-211 | the in-place shift inserts behind all keys not above the new one |
| LeafChain.InsertBetween | src/btree.c:194-211 | inserting at the place the walk finds keeps the order and changes the map only at an absent key |
| LeafChain.UpdatedLookup | src/btree.c:131-139 | redirecting changes what one key maps to, and only if it is present |
| LeafChain.FirstEntry | src/btree.c:28-50 | what looking up and redirecting mean: both are about the first entry of the key |
| LeafChain.SplitTree | src/btree.c:94-104 | a split keeps the chain acyclic, complete and between 125 and 250 entries per leaf |
| LeafChain.InsertTree | src/btree.c:194-211 | an insertion keeps all of that |
| LeafChain.OccupancyBound | include/btree.h:12 | n keys occupy at most max(1, n / 125) leaves |
| BTree.BTree.LeafCount | src/btree.c:28-72 | the same for the tree in any reachable state, so for the pages a search fetches |
| InvertedIndex.Index.AddPosting | src/inverted_index.c:13-102 | the posting list of the term is extended by the occurrence, every other term's list and every page outside the index is untouched; at most two new pages, two log records, two pins |
| InvertedIndex.Index.GetPostings | src/inverted_index.c:104-138 | returns the first `max` postings of the chain, newest page first; no guard of the walk ever ends it early |
| PostingChain.SamePostings | src/inverted_index.c:64-75 | the walk's list and the list in order of insertion hold the same postings |
| PostingChain.Decreasing | src/inverted_index.c:48-64 | page ids fall along a chain, so a walk ends |
| PostingChain.OnePage | src/inverted_index.c:39-75 | a term has one page exactly if it has at most 92 postings |
| PostingChain.PageAdded | src/inverted_index.c:47-93 | a new newest page keeps every other term's chain |
| Documents.HitExtends | src/inverted_index.c:29-46 | one more occurrence of the current document turns its posting into the one its longer occurrence list calls for |
| Documents.ExpectedExactly | src/unified_shard.c:192-198 | exactly the documents that contain the term have a posting, with their place and first eight positions |
| Documents.ExpectedAscends | src/unified_shard.c:158-198 | in order of insertion a list ascends by document id, one posting per document |
| Documents.PositionsAreIndices | src/unified_shard.c:192-195 | for a term other than 0 the positions are its indices in the term list, ascending |
| Documents.StoredIndices | src/inverted_index.c:29-46 | the positions stored for a term other than 0 are its first eight indices in the term list, ascending |
| Documents.IndexedUnder | src/unified_shard.c:192-198 | a document is indexed under exactly the terms of its list and 0 |
| Documents.TermZero | src/unified_shard.c:197-198 | every document is indexed under term 0; with position 0 only, if its terms are not 0 |
| Shard.Shard.constructor | src/unified_shard.c:33-53 | on an empty file: no documents, nothing deleted, pages 0 to 2 are root, tombstones and data, the averages are 10 |
| Shard.Shard.InsertDocument | src/unified_shard.c:146-201 | the document joins the list; its log record comes first and holds node, four frequencies, four lengths, embedding and id at their offsets; the tuple at its place is this very record; lengths are added to the totals and the averages divided anew; every posting list is what the documents call for, tombstones and earlier places stay; at most two pins, none left |
| Pages.DocLayout | include/unified_shard.h:24-32 | where each field of a record lies in its 1588 bytes: node 0 to 16, frequencies to 32, lengths to 48, embedding to 1584, id |
| Pages.DecodedDoc | include/unified_shard.h:24-32 | reading these bytes gives the record back |
| Pages.EncodedDoc | include/unified_shard.h:24-32 | and writing what was read gives the bytes back |
| Shard.Shard.StoreRecord | src/unified_shard.c:160-184 | the record goes into the active data page or a new one behind its log record, whose payload holds its fields at their offsets; no posting list changes |
| Shard.Shard.PutRecord | src/unified_shard.c:160-184 | which of the two, exactly when, and that the log record with these fields precedes the change |
| Shard.Shard.DeleteDocument | src/unified_shard.c:222-229 | exactly the ids that share the bit, if it is below 32576, become deleted; one log record of kind 6 with the id; documents and postings stay |
| Shard.Shard.IsDeleted | src/unified_shard.c:231-237 | answers from the tombstone page and changes nothing |
| DataPages.RecordAppended | src/unified_shard.c:162-184 | appending to the active page keeps the records in order and every place valid |
| DataPages.PageStarted | src/unified_shard.c:167-178 | so does starting a new data page |
| DataPages.HasRoomIsFit | src/unified_shard.c:164-178 | the room test on records is the byte-level test of the slotted page |
| Guarantees.PageOwnership | src/unified_shard.c:60 | every page from 3 below next_page_id belongs to exactly one of the leaf chain, one term's chain, the data pages |
| Guarantees.PostingsAreDocuments | src/unified_shard.c:192-198 | in every reachable state a posting is in a term's list exactly if its document contains the term, and its locator leads to the tuple with that document id |
| Guarantees.PostingsOfTerm | src/unified_shard.c:192-198 | in every reachable state a term's list names, in ascending order and once each, exactly the documents whose term list has it - all for term 0 - with its first eight indices there |
| Guarantees.CrashRecovery | src/buffer_pool.c:46-61 | after a crash at any moment the log, if it held whole records when opened, may end anywhere behind its durable part; it replays to a list that begins with the durable records, and every page of the file comes from it: each record of a data page is decoded from the payload of a replayed insertion, each index key, split leaf and deletion bit from that of a replayed record of its kind |
| Guarantees.JustifiedIsLogged | src/buffer_pool.c:46-61 | what log before data means for each kind of page, in the bytes of the log records |
| Guarantees.LeafIsBehindLog | src/btree.c:107-118 | a leaf on disk with LSN L means all records up to L are durable |
| PageBytes.ScanReadsPosting | include/inverted_index.h:14-31 | what a scan takes for page type, slot count and tuple lengths of a posting page are a data page id, a position count and upper halves of positions |
| PageBytes.ScanReadsData | src/unified_shard.c:264-274 | in a data page they are the type of vector data and one slot of record length per record |
| PageBytes.InitDataPage | src/unified_shard.c:177 | a data page starts with its id, type 7 and no records |
| PageBytes.AddRecord | src/unified_shard.c:164-178 | and keeps its layout; a record is added exactly if there is room for it, with every field at its offset |
| Search.NoFalseRecords | src/unified_shard.c:264-274 | no posting page passes a scan's length test while term lists stay below 1588 * 65536 entries |
| Search.ShortIsReadable | src/unified_shard.c:264-274 | so a scan reads no false record then |
| Search.Scan | src/unified_shard.c:250-392 | both sequential scans return the best max of all live records (of positive score for text), best first, with two pins at most - and of as many false records as slots of posting pages read as records, none exactly if there is no such slot; result by result: node and score are those of a document that is not deleted, none shown twice, none left out with a higher score, none at all while there is room |
| Search.SearchIndexed | src/inverted_index.c:140-221 | the same for the documents with positive scores that the list of postings names, cut at 1,000,000, newest page first; below the cap these are all documents of the term |
| Search.IndexedIsScan | src/inverted_index.c:140-221 | the indexed search on term 0 and the scan return the same descending list of scores |
| Queries.CandidatesPermute | src/inverted_index.c:159-205 | the order in which records are visited does not matter to the multiset of candidates |
| Queries.RankingPicks | src/unified_shard.c:280-323 | a ranking takes different candidates, in descending order, and leaves out one only if it is full of none lower |
| Queries.RankedShowsBest | src/unified_shard.c:250-392 | a ranking of candidates shows live records of acceptable score, each once, with their node and score in the right field, and leaves out none that is better |
| Ranking.Offer | src/unified_shard.c:280-307 | append while there is room, then replace the minimum by anything better: keeps the top scores of all that was offered |
| Ranking.ExchangeSort | src/unified_shard.c:312-320 | descending, the same results, and nothing moves if they were in order |
| Ranking.TopUnique | src/unified_shard.c:280-323 | the best k scores of a multiset, in descending order, are one list only |
| MergeJoin.AlignCursors | src/inverted_index.c:272-284 | one round of the cursor loop succeeds exactly if the document is in the leading ascending part of every list, and keeps the cursors aligned |
| MergeJoin.PositionsMatch | src/inverted_index.c:286-313 | finds whether some stored position of the first term is followed by positions of all others |
| MergeJoin.SelectedExactly | src/inverted_index.c:272-315 | the selected postings are exactly those of the first term's leading part whose document matches |
| Phrase.NewestIsFront | src/inverted_index.c:64-75 | a list read newest page first starts with the newest page, ascending; everything behind it names older documents |
| Phrase.AscendsIffOnePage | src/inverted_index.c:64-75 | the list of a term ascends exactly if it has at most 92 postings |
| PhraseMeaning.NewestExactly | src/inverted_index.c:39-75 | a posting is on the newest page of a term exactly if `OnNewestPage` says so of its document |
| PhraseMeaning.NewestCounts | src/inverted_index.c:39-75 | which documents these are: those that contain the term and before which so many documents contain it as fill all of its pages of 92 but the newest |
| PhraseMeaning.CandidatesOfFound | src/inverted_index.c:263-360 | the candidates of the phrase search are those of the documents `Finds` names, each once, in order |
| PhraseMeaning.StoredIsContiguous | src/inverted_index.c:286-313 | soundness: a found document's term list contains the phrase contiguously, for terms other than 0 |
| PhraseMeaning.KeptPositions | src/inverted_index.c:39-43 | of a term in a document exactly the first eight occurrences are stored as positions |
| PhraseMeaning.StoredExactly | src/inverted_index.c:286-313 | the positions match exactly if the phrase occurs somewhere with none of its terms for the ninth time or later |
| PhraseMeaning.KeptOccurs | src/inverted_index.c:286-313 | such an occurrence is the phrase, contiguously |
| PhraseMeaning.FindsExactly | src/inverted_index.c:272-313 | a document is found exactly if the phrase occurs in its term list at a place before which none of its terms has occurred eight times already, and, for each term, the older documents that contain it fill all of its pages of 92 but the newest; in terms of the documents alone |
| PhraseMeaning.NineOnes | src/inverted_index.c:39-43 | a document with nine times 1 and then 2 contains 1, 2 and is never found |
| PhraseMeaning.FindsContiguous | src/inverted_index.c:223-380 | with at most 92 documents per term and eight occurrences per document, found means: contains the phrase contiguously |
| PhraseMeaning.NinetyThreeDocuments | src/inverted_index.c:272-284 | of 93 documents 1, 2 the search for the phrase 1, 2 finds the newest only |
| PhraseSearch.SearchPhrase | src/inverted_index.c:223-380 | returns the best max live documents of positive score among those it finds, best first, result by result as for a scan; one term falls back to the indexed search and ranks the first 1,000,000 postings of its chain, none to nothing |
| ScatterGather.KeptPart | src/unified_shard.c:418-510 | keeping the best 64 of a part does not change the best k of the whole, for k up to 64 |
| ScatterGather.BestOfBests | src/unified_shard.c:431-444 | so merging the shards' bests yields the best of all their candidates |
| ScatterGather.RankAll | src/unified_shard.c:446-457 | the sort assigns each result the rank of its final place |
| NodeMerge.MergeNodes | src/unified_shard.c:476-489 | merging by node: the first entry of a node takes every later result for it, a new node is appended; for any two lists |
| NodeMerge.FirstOnes | src/unified_shard.c:476-489 | the entries appended are those results, in order, whose node neither an old entry nor an earlier result has |
| NodeMerge.FoldedCosine | src/unified_shard.c:478-484 | an entry ends up with the cosine score and rank of its node's last result |
| NodeMerge.FoldedSum | src/async_search.c:98-106 | an entry of a text query ends up with the sum of its node's scores |
| NodeMerge.SumIs | src/async_search.c:98-106 | what that sum is: additive over lists, and the score of a single result |
| NodeMerge.DistinctMerged | src/unified_shard.c:476-489 | over distinct nodes nothing changes |
| NodeMerge.MergedWithRoom | src/async_search.c:98-110 | a merge into a list with room for 64 is the start of the merge without a bound: a known node adds its score, a new one is appended while there is room, else dropped |
| ScatterGather.MergedIsLowest | src/unified_shard.c:459-489 | in a list sorted by cosine the last result of a node is its lowest, so that is what the merge keeps |
| ScatterGather.RepeatedNode | src/unified_shard.c:478-484 | of two results for one node the better one is lost |
| VectorTop.TopExactly | src/unified_shard.c:472-509 | the merged and cut vector list holds the best max scores of what the shards return exactly if, at every score found, as many nodes have no result below it as there are results not below it, up to max; then this is so at every bound |
| VectorTop.BestExactly | src/unified_shard.c:429-509 | under the same condition, and no other, it holds the best max scores of all candidates of all shards |
| ScatterGather.Fuse | src/unified_shard.c:472-509 | text: sorting again moves nothing, each result's rank is its place; vectors: one entry per node, with its lowest score among the results, which is the same if the nodes are distinct |
| Engine.SearchShard | src/async_search.c:76-142 | a shard's part of a query with one mode: the best 64 of the records the query asks for, by a scan, the index of term 0 or the phrase - each result that of a live document, none better left out - or, for terms, the rankings of all of them added up by node in a list of 64; logical contents and pins stay as they were, with two pages pinned at most; the asynchronous search copies the one score to the fused score |
| Engine.AddTermResults | src/async_search.c:98-110 | the results of a term join the others by node, adding scores: the first 64 entries of the merge, for any two lists |
| Engine.SearchTerms | src/async_search.c:88-111 | for any number of terms the list is the sum by node, within 64 entries, of one list per term: the ranking of the postings read for it, which are all of the term up to 1,000,000 |
| Engine.SumsOfNodes | src/async_search.c:88-111 | what the list of a query by terms says: the first 64 nodes in the order in which the terms' lists name them, none twice, each with the sum of its scores in all these lists, also when the list was full before a later term came |
| Engine.ShownSums | src/async_search.c:88-111 | the lists that are added up are, term by term, the best 64 live documents that contain the term, and each node shown has the sum of its scores in them |
| Engine.EngineSearch | src/unified_shard.c:418-510 | text: all results of all shards - each what its shard may show - sorted by score, each with its place as rank, cut at max; for a scan, term 0, a phrase, or one term over distinct nodes each result has node and score of a live document asked for, and no other such document of any shard scores higher than one shown; vectors: one entry per node with the cosine of a live document of it, the lowest among the shards' best, and the best max of all exactly under the condition of VectorTop.BestExactly; every shard keeps its contents and pins |
| Answers.RankedAnswers | src/unified_shard.c:418-510 | the best of the candidates of all shards are the best of their live documents, shown once each with their node and score |
| Answers.VectorAnswers | src/unified_shard.c:459-509 | every entry of a vector search shows a live document, no two the same; none better is left out if the condition of VectorTop.BestExactly holds |
| Engine.BothWays | src/async_search.c:112-118 | the synchronous and the asynchronous search show the same scores |
| Answers.AskedExactly | src/async_search.c:86-118 | which documents a query asks for: all, those of the phrase, or those that contain the first term |
| Rrf.MergeRrf | src/async_search.c:29-74 | for any two lists the merged list sorted and cut; over distinct text results: distinct nodes from the union, each with the sum of 1/(60 + place) over its places in the two lists, its scores and ranks, descending, exactly min(max, union size), and nothing omitted scores above anything kept |
| Rrf.MergedEntries | src/async_search.c:35-59 | every entry of the merged list: a text result adds its node's vector shares if it is the first of its node; a node without text result has one entry with its shares |
| Rrf.ShareOfDistinct | src/async_search.c:38-56 | in a list of distinct nodes a node's share is that of its place |
| Rrf.ScoreOfPlaces | src/async_search.c:38-56 | the fused score of a node: 1/(60 + t) if it is at place t of the texts plus 1/(60 + v) if it is at place v of the vectors, counted from 1 |
| Rrf.EarlierIsHigher | src/async_search.c:38-74 | a node placed earlier in one list and no later in the other has the higher fused score and comes first |
| Lexicon.ComputeHash | src/lexicon_map.c:10-18 | FNV-1a with 0 replaced by 1 |
| Lexicon.PublishedHashes | src/lexicon_map.c:10-18 | the published FNV-1a values of three words, and 1 for a word of hash 0 |
| Lexicon.Dictionary.Insert | src/lexicon_map.c:48-77 | the insertion joins the history; the id is that of the entry found, or the hash of the term, and never 0; below 255 bytes always the hash |
| Lexicon.Dictionary.Lookup | src/lexicon_map.c:79-94 | returns exactly what the history implies; an inserted term is found exactly if it has at most 255 bytes; below 255 bytes under its hash with the number of its insertions, whatever else was inserted |
| Lexicon.LookupExactly | src/lexicon_map.c:48-94 | for every history and term: the entry found is the one `Known` derives; an alias leaves its own id, counts as one insertion and hides what was before |
| Lexicon.InsertedIsFound | src/lexicon_map.c:48-94 | an inserted term is found exactly if it has at most 255 bytes |
| Lexicon.NoAlias | src/lexicon_map.c:67-68 | terms below 255 bytes have no alias |
| Lexicon.AliasIsKnown | src/lexicon_map.c:67-68 | inserting one word of 256 bytes makes its first 255 bytes known, which were never inserted |
| Lexicon.LookupCounts | src/lexicon_map.c:48-94 | a term of at most 255 bytes without an alias - a longer term stored as it in its bucket - is known exactly if inserted, under its hash, counted |
| Lexicon.TotalCounts | src/lexicon_map.c:73-74 | without terms over 255 bytes total_terms counts distinct terms |
| Lexicon.Dictionary.CountsTerms | src/lexicon_map.c:73-74 | the same of the counter of the dictionary in any reachable state |
| Lexicon.LongIsNeverFound | src/lexicon_map.c:67-68 | a term over 255 bytes is stored cut, so it is never found, however often it was inserted |
| Lexicon.TotalExactly | src/lexicon_map.c:73-74 | for every history total_terms counts every insertion of a term over 255 bytes and once each other term that no alias preceded |
| Lexicon.SameId | src/lexicon_map.c:69 | two different words get the same id |
| Lexicon.Tokenize | src/lexicon_map.c:111-142 | the tokens are the first max maximal runs of letters and digits of what fits the buffer, in order; in the buffer capital letters are small, and every other byte that is no letter or digit is 0 |
| Lexicon.TokensAreStarts | src/lexicon_map.c:129-139 | the tokens are the first max places where a byte that is not 0 follows a 0 or nothing |
| Lexicon.StartsExactly | src/lexicon_map.c:129-139 | run starts are exactly the letters or digits not preceded by one, in order |

## Left out

- System calls, io_uring, threads and shared memory: the file is a sequence of pages, the log a byte string with a durable
  length, and writes, reads and allocations succeed.
- NULL results of a fetch inside B-tree, shard and search operations: proved unreachable, so the branches that handle them
  do not appear.
- Checksums of leaves in the file: computing and checking them is modelled on byte arrays only, since no code path checks
  them on a read.
- The page_lsn field of a frame: nothing reads it.
- Log records whose payload argument is missing.
- The byte layout of leaf and tombstone pages in the file: pages above the cache are values, so aliasing between a frame and
  what is read from it is that of the frame, not of single fields.
- Shard.Shard.constructor: starts on an empty file; reopening a shard and its statistics file are not modelled. The log may
  have a history.
- BM25F and cosine formulas and their rounding: `Queries.Query` takes the score as a function.
- Queries with text and vector together in engine_search and engine_search_async; `Rrf.MergeRrf` covers the fusion of two
  given lists.
- Routing of documents to shards by node id, and the global averages: easy members.
- Engine.EngineSearch: takes the shards' documents, deletions and candidates as ghost arguments, and copies each shard's results from a buffer of its
  own where the code writes into one large array. For several terms, or one term over repeated nodes, it says what is shown
  but does not compare this with a ranking of all documents: the scores are then sums over the 64 best of each term and
  shard (`Engine.SumsOfNodes`), of the nodes that come first.
- Search.Scan: the false records of a posting page are any records; that their bytes are those of the page is not modelled.
- Lexicon.Dictionary: the chains of a bucket are sequences, not linked cells; counters are unbounded.
- Internal B-tree nodes, field-length maps, the SQLite bridge, the demonstration programs, deletion and compaction in slotted
  pages: not reachable from the shard, or not implemented.
