# DeepSearch indexing and search core, in Dafny

DeepSearch is a desktop file-search tool. Its engine builds two on-disk
inverted indexes: one over file names and one over file contents. Each
index is a B+ tree of terms plus a postings file. Queries are answered
from these indexes. This project models that engine and proves properties
of the model:

- **Codec and pages.** `UtfEncoder.getUTFLength`, the "modified UTF-8"
  length that `DataOutput.writeUTF` uses; `IndexEntry`; the leaf and
  internal pages of the tree (`canFit`, `addEntry`, `addChild`,
  `serialize`); and the `DataInput` reads the searcher parses them with
  (modules `Utf`, `DataStream`, `Pages`, `PageReader`).
- **SPIMI builder** (`SPIMIInvertedIndex`). The memory-accounted term
  dictionary (`addToTempIndex`) and spilling it to block files
  (`writeBlockToDisk`) are in module `Spimi`. The k-way merge of the blocks
  (`mergeAndWriteLeafPages`, `mergePostings`, `readNextTerm`) is in `Merge`
  and `Postings`. Writing the postings (`writePostingsToFile`) and packing
  the leaves are in `TreeBuild`. The internal levels
  (`writeInternalLevels`) are in `Levels`. The 32-byte tree header
  (`writeTemporaryTreeHeader`, `updateTreeHeader`) is in `TreeFile`. Block
  files are sequences of records; the postings and tree files are byte
  sequences.
- **Disk B+ tree searcher** (`BPlusTreeSearcher`, modules `Searcher` and
  `Cache`). This covers:
  - header and page reads;
  - page-type checks;
  - routing (`findChildPageId`) and the leaf scans;
  - the descent depth;
  - the ten-page access-ordered cache that never holds the root;
  - `loadFileLengths`.
- **Query engine** (`IndexSearcherService`). `findExactSequence` is in
  module `Phrase`. `findExactMatchesWithMerge`, `performSearch`,
  `performExactSearch` and `PathResolver.getPath` are in `Query`. The union
  and ordering of `performFuzzySearchWithRanking` are in `Ranked`. The
  multi-term search takes a flag `aligned`: false runs `findExactSequence`
  as written, and true runs the corrected merge of "## Findings".
- **Indexing bookkeeping** (`FileProcessor`, module `Documents`). This
  covers the document id rule, the name text, which tokens are indexed and
  at which positions, the lengths records, and the lengths file header
  patched on close.
- **File categories** (`FileType`, module `FileTypes`). This covers the
  extension, the classification precedence, `matches` and
  `fromDisplayName`.

Java strings are sequences of UTF-16 code units (`JString`, values
0..0xFFFF), because `compareTo` and `getUTFLength` work on code units.
Bytes are 0..255. Java `int` and `long` values are mathematical integers;
every writer reduces them modulo 2^k explicitly, and every reader
sign-extends explicitly. The tokenizer, the normalizer, the
supported-file test, text extraction and the BM25 score are function
parameters.

## Model

| member | source | states |
|---|---|---|
| Utf.UtfLength | src/main/java/project/Builder/UtfEncoder.java:4-17 | The encoded length of a string lies between its length and three times its length. |
| Utf.GetUtfLength | src/main/java/project/Builder/UtfEncoder.java:4-17 | The counting loop computes the per-code-unit sum `UtfLength`, within the same bounds. |
| Utf.CharWidths | src/main/java/project/Builder/UtfEncoder.java:8-13 | A code unit takes 1 byte iff it is in 0x0001..0x007F, 2 bytes iff it is NUL or in 0x0080..0x07FF, and 3 bytes iff it is above 0x07FF; NUL takes 2. |
| Utf.AsciiUtfLength | src/main/java/project/Builder/UtfEncoder.java:8-9 | A string of code units in 0x0001..0x007F encodes to exactly its length. |
| Utf.UtfLengthAppend | src/main/java/project/Builder/UtfEncoder.java:5-16 | The encoded length is additive over concatenation. |
| Utf.EncodeUtfLength | src/main/java/project/Builder/UtfEncoder.java:4-17 | The length the capacity checks count is exactly the number of bytes `writeUTF` emits for the body. |
| Utf.DecodeEncodeUtf | src/main/java/project/Searcher/BPlusTreeSearcher.java:255 | `readUTF`'s decoding of an encoded body gives back the original string. |
| DataStream.WriteUtf | src/main/java/project/Builder/BPlusTreeLeafPage.java:48 | `writeUTF` fails exactly when the encoded length exceeds 65535; otherwise it writes a 2-byte length and the body. |
| DataStream.ReadWriteUtf | src/main/java/project/Searcher/BPlusTreeSearcher.java:255 | Reading a string from what `writeUTF` wrote gives the string and leaves the rest of the input. |
| DataStream.ReadWriteInt | src/main/java/project/Searcher/BPlusTreeSearcher.java:256 | `readInt` inverts `writeInt` for every 32-bit value. |
| DataStream.ReadWriteLong | src/main/java/project/Searcher/BPlusTreeSearcher.java:257 | `readLong` inverts `writeLong` for every 64-bit value. |
| DataStream.ReadWriteShort | src/main/java/project/Searcher/BPlusTreeSearcher.java:249 | `readShort` inverts `writeShort` for every 16-bit value. |
| DataStream.UnsignedBigEndian | src/main/java/project/Searcher/BPlusTreeSearcher.java:256-257 | The big-endian bytes of a value below 256^n read back as that value. |
| Pages.EntrySizeFacts | src/main/java/project/Builder/IndexEntry.java:16-18 | An entry's size depends only on its term and lies between 14 plus the term's length and 14 plus three times it. |
| Pages.NewLeafPageFacts | src/main/java/project/Builder/BPlusTreeLeafPage.java:17-22 | A new leaf is empty, has next page -1, and fits any page size of at least 8 bytes. |
| Pages.LeafAddKeepsFit | src/main/java/project/Builder/BPlusTreeLeafPage.java:24-32 | Adding an entry that `canFit` admits appends it at the end and keeps the page within its size. |
| Pages.LeafCanFitMonotone | src/main/java/project/Builder/BPlusTreeLeafPage.java:24-32 | Once `canFit` rejects an entry it keeps rejecting it after any further `addEntry`. |
| Pages.SerializeLeaf | src/main/java/project/Builder/BPlusTreeLeafPage.java:36-60 | Serialisation succeeds iff every term is encodable, and it always gives exactly `pageSize` bytes. |
| Pages.LeafNoTruncation | src/main/java/project/Builder/BPlusTreeLeafPage.java:24-30 | A page within its size has a body of 8 plus the entries' sizes; the body is copied whole and followed by zeros. |
| Pages.LeafHeaderLayout | src/main/java/project/Builder/BPlusTreeLeafPage.java:41-44 | Bytes 0..7 are type 2, reserved 0, the 16-bit entry count and the 32-bit next page id. |
| Pages.InternalPageFacts | src/main/java/project/Builder/BPlusTreeInternalPage.java:17-35 | A new page is empty; `addChild` and `addFirstChild` keep keys and pointers in lock-step; a page is non-empty after `addFirstChild` of a non-negative id or after any `addChild`. |
| Pages.InternalAddKeepsFit | src/main/java/project/Builder/BPlusTreeInternalPage.java:38-50 | Adding a key that `canFit` admits keeps the page within its size. |
| Pages.InternalCanFitMonotone | src/main/java/project/Builder/BPlusTreeInternalPage.java:38-50 | Once `canFit` rejects a key it keeps rejecting it after any further `addChild`. |
| Pages.SerializeInternal | src/main/java/project/Builder/BPlusTreeInternalPage.java:52-74 | Serialisation succeeds iff every key is encodable, and it always gives exactly `pageSize` bytes. |
| Pages.InternalNoTruncation | src/main/java/project/Builder/BPlusTreeInternalPage.java:38-50 | A page within its size has a body of 8 plus 6 and the encoded length per key; the body is copied whole and followed by zeros. |
| Pages.InternalHeaderLayout | src/main/java/project/Builder/BPlusTreeInternalPage.java:57-61 | Bytes 0..7 are type 1, reserved 0, the 16-bit key count and the 32-bit first pointer. |
| PageReader.LeafRoundTrip | src/main/java/project/Searcher/BPlusTreeSearcher.java:239-263 | Parsing a serialised leaf gives back its next page id and all its entries. |
| PageReader.InternalRoundTrip | src/main/java/project/Searcher/BPlusTreeSearcher.java:211-236 | Parsing a serialised internal page gives back its first pointer, keys and child pointers. |
| PageReader.PageTypeValidated | src/main/java/project/Searcher/BPlusTreeSearcher.java:215-218 | A leaf read as an internal page fails with its type tag 2, and an internal page read as a leaf fails with tag 1. |
| Spimi.NewBuilderValid | src/main/java/project/Builder/SPIMIInvertedIndex.java:26-39 | A new builder has no blocks, a zero estimate, and an estimate equal to what its index holds. |
| Spimi.AddToTempIndex | src/main/java/project/Builder/SPIMIInvertedIndex.java:42-67 | An empty term or one over 255 characters changes nothing. Below the ceiling, the occurrence is inserted and the estimate grows by the charge. At the ceiling, the index is spilled and the estimate reset. Blocks grow only by that spill. |
| Spimi.Insert | src/main/java/project/Builder/SPIMIInvertedIndex.java:47-62 | The position is appended to the term's list for the document, and every other list is unchanged. |
| Spimi.InsertCost | src/main/java/project/Builder/SPIMIInvertedIndex.java:51-62 | The charge (2 plus the encoded length for a new term, 8 for a new document, 4 per position) is exactly the cost the insertion adds. |
| Spimi.AddToTempIndexValid | src/main/java/project/Builder/SPIMIInvertedIndex.java:42-67 | `addToTempIndex` keeps the estimate equal to the cost of what the index holds. |
| Spimi.AddContent | src/main/java/project/Builder/SPIMIInvertedIndex.java:42-67 | When no spill happens, or the spill writes the whole block, what the builder holds on disk and in memory grows by exactly the accepted occurrence. |
| Spimi.WriteBlockToDisk | src/main/java/project/Builder/SPIMIInvertedIndex.java:70-114 | An empty index is a no-op. Otherwise the index is cleared and the estimate zeroed however the write ends. A complete write adds the whole block. A write that fails before `blockCounter++` adds no block. A failure at the closing flush, after `blockCounter++`, adds the block cut to its first records. |
| Spimi.BlockOf | src/main/java/project/Builder/SPIMIInvertedIndex.java:85-103 | The block holds one record per term of the index, with that term's postings, strictly ascending. |
| Spimi.WriteBlockContent | src/main/java/project/Builder/SPIMIInvertedIndex.java:105-113 | A complete spill moves the index to disk unchanged. One that fails before the count loses exactly the in-memory part. One cut at the close keeps on disk the postings of exactly the terms whose records reached the file. A spill never adds content. |
| Postings.MergePostings | src/main/java/project/Builder/SPIMIInvertedIndex.java:277-292 | The documents are the union. A shared document's positions are both lists' positions together, sorted. A document of one side keeps its list. |
| Postings.MergeOrderInsensitive | src/main/java/project/Builder/SPIMIInvertedIndex.java:277-292 | Up to list order, merging b then c gives what merging c then b gives. |
| Postings.Listing | src/main/java/project/Builder/SPIMIInvertedIndex.java:418-435 | The records written list each document once, ascending, each with its positions sorted. |
| Postings.WritePostings | src/main/java/project/Builder/SPIMIInvertedIndex.java:413-438 | The offset returned is the offset given plus 8 per document plus 4 per position. |
| Postings.LoadWrittenPostings | src/main/java/project/Searcher/BPlusTreeSearcher.java:350-369 | Reading back at the written offset with the document count gives exactly the written records. |
| Merge.MergeBlocks | src/main/java/project/Builder/SPIMIInvertedIndex.java:201-263 | The merge loop emits every term of the blocks once, strictly ascending, each with the postings of all blocks combined. |
| Merge.MergeTerms | src/main/java/project/Builder/SPIMIInvertedIndex.java:201-263 | The reference merge emits exactly the blocks' terms, strictly ascending. |
| Merge.MergeCombines | src/main/java/project/Builder/SPIMIInvertedIndex.java:206-230 | Each emitted term carries `mergePostings` of every block's record for it. |
| Merge.CombineOcc | src/main/java/project/Builder/SPIMIInvertedIndex.java:277-292 | For every document, a merged term holds exactly the positions the blocks hold. |
| Merge.CombineDocs | src/main/java/project/Builder/SPIMIInvertedIndex.java:277-292 | A document is listed under a merged term iff some block holds a position of the term in it. |
| Merge.LeastHead | src/main/java/project/Builder/SPIMIInvertedIndex.java:204-205 | The term polled is the least current term of the streams, and there is one iff some stream is not exhausted. |
| TreeBuild.TermEntriesFacts | src/main/java/project/Builder/SPIMIInvertedIndex.java:232-239 | Entry k names the k-th term and its document count. The first entry's offset is the starting offset, and each later one starts where the previous term's postings end. |
| TreeBuild.LoadEveryTerm | src/main/java/project/Builder/SPIMIInvertedIndex.java:232-239 | Loading at any recorded entry's offset with its count gives that term's written postings. |
| TreeBuild.NextLeafId | src/main/java/project/Builder/SPIMIInvertedIndex.java:246-247 | A full leaf links to the next id only while that id stays below `Integer.MAX_VALUE`, and to -1 otherwise. |
| TreeBuild.WriteLeafPages | src/main/java/project/Builder/SPIMIInvertedIndex.java:241-270 | Leaves get ids 0, 1, 2, ... and hold the entries in order. Each is non-empty and within its size. Each is reported with its first term. Each non-final leaf links to its successor and was closed because the next entry did not fit. The last leaf keeps -1. |
| Levels.BuildLevelFacts | src/main/java/project/Builder/SPIMIInvertedIndex.java:337-370 | One level covers its children once each and in order. Every separator is its child's first key. Ids are consecutive. It has fewer pages than children unless it has a single child. |
| Levels.ParentsInherit | src/main/java/project/Builder/SPIMIInvertedIndex.java:352-369 | A level passes up real ids and keys that fit; when the children's first keys ascend, so do the parents'. |
| Levels.WriteInternalLevels | src/main/java/project/Builder/SPIMIInvertedIndex.java:329-377 | Levels are built bottom-up until one page is left, which is the root. Page ids continue after the last leaf. The page counter ends at the start plus all pages written. |
| TreeFile.TemporaryHeader | src/main/java/project/Builder/SPIMIInvertedIndex.java:381-410 | The temporary header is 32 bytes and starts with the magic "BPT1". |
| TreeFile.UpdateTreeHeader | src/main/java/project/Builder/SPIMIInvertedIndex.java:441-457 | The patch rewrites only bytes 10..19; the magic, version, page size and everything after are kept. |
| TreeFile.BuildTree | src/main/java/project/Builder/SPIMIInvertedIndex.java:161-185 | There is no tree iff there are no entries. The leaves are the packed leaves and the levels chain up to the root. The page count is the leaves plus all level pages. The height is one plus the number of levels. |
| TreeFile.TreeFileBytes | src/main/java/project/Builder/SPIMIInvertedIndex.java:161-185 | The tree file is the 32-byte header followed by one page-sized slot per page. |
| TreeFile.BuildTreeAndPostingLists | src/main/java/project/Builder/SPIMIInvertedIndex.java:161-185 | Building fails with "no terms" exactly for an empty merge; otherwise the postings file is every merged term's postings back to back from offset 0. |
| TreeFile.MergedAccepted | src/main/java/project/Builder/SPIMIInvertedIndex.java:43-45 | Merged well-formed blocks give accepted, strictly ascending terms, and the merge is empty iff the blocks hold no term. |
| TreeFile.MergeIndex | src/main/java/project/Builder/SPIMIInvertedIndex.java:118-158 | `mergeBlocks` first flushes the in-memory index as a last block (`writeBlockToDisk`, with any of its three outcomes), then builds the files from the merge of all counted blocks. It fails with "no terms" exactly when the flushed blocks hold none. |
| Searcher.ReadTreeHeader | src/main/java/project/Searcher/BPlusTreeSearcher.java:181-208 | A header is read only from a file that starts with the magic "BPT1". |
| Searcher.HeaderRoundTrip | src/main/java/project/Searcher/BPlusTreeSearcher.java:181-208 | The patched header the builder writes reads back as version 1, its page size, root, page count and height. |
| Searcher.LoadPageFromDisk | src/main/java/project/Searcher/BPlusTreeSearcher.java:285-299 | A successful page read gives exactly `pageSize` bytes. |
| Searcher.PageAddressing | src/main/java/project/Searcher/BPlusTreeSearcher.java:287-291 | Page k of a written tree file is read back as exactly the bytes written for page k, at 32 + k * pageSize. |
| Searcher.PagePastEnd | src/main/java/project/Searcher/BPlusTreeSearcher.java:293-296 | A page id past the last page is a short read, which is an error. |
| Searcher.FindChildPageId | src/main/java/project/Searcher/BPlusTreeSearcher.java:302-323 | The child chosen is always one of the page's pointers. |
| Searcher.FindChildRoutes | src/main/java/project/Searcher/BPlusTreeSearcher.java:302-323 | With ascending keys, the child is the first pointer when no key is at most the term, and otherwise the pointer of the largest key at most the term. |
| Searcher.FindEntry | src/main/java/project/Searcher/BPlusTreeSearcher.java:326-347 | The leaf scan finds nothing iff no entry has the term, and otherwise the first entry with exactly that term. |
| Searcher.LoadRootPage | src/main/java/project/Searcher/BPlusTreeSearcher.java:52-82 | There is no root page in memory iff the height is 1; a loaded root is well formed. |
| Searcher.Open | src/main/java/project/Searcher/BPlusTreeSearcher.java:34-49 | An opened searcher holds the header read from the file, an empty cache, and a root consistent with the height. |
| Searcher.DescendDepth | src/main/java/project/Searcher/BPlusTreeSearcher.java:130-137 | A descent of n levels loads at most n internal pages, starting from its first page, and exactly n when it reaches a leaf. |
| Searcher.LookupDepth | src/main/java/project/Searcher/BPlusTreeSearcher.java:118-141 | In a one-level tree the root id is the leaf and no internal page is loaded. In a taller tree a lookup that reaches a leaf loads `treeHeight - 2` internal pages below the in-memory root. |
| Searcher.TermInfoDirect | src/main/java/project/Searcher/BPlusTreeSearcher.java:144-178 | An empty term gives nothing, and a term that is found is exactly the term asked for. |
| Searcher.SearchIsTermInfoThenPostings | src/main/java/project/Searcher/BPlusTreeSearcher.java:110-142 | `searchTerm` is `getTermInfo` followed by reading the postings at the reported offset and count. |
| Searcher.LoadPageTransparent | src/main/java/project/Searcher/BPlusTreeSearcher.java:266-282 | A cached load gives what the disk holds. The cache stays consistent with the disk and never holds the root. A non-root page just loaded becomes the most recent. |
| Searcher.LocateLeafCached | src/main/java/project/Searcher/BPlusTreeSearcher.java:115-137 | The route through the cache reaches the same leaf as reading every page from disk. |
| Searcher.SearchTerm | src/main/java/project/Searcher/BPlusTreeSearcher.java:110-142 | `searchTerm` through the cache answers as reading every page from disk does; only the cache changes. |
| Searcher.GetTermInfo | src/main/java/project/Searcher/BPlusTreeSearcher.java:144-178 | `getTermInfo` through the cache answers as reading every page from disk does; only the cache changes. |
| Searcher.ToInt32 | src/main/java/project/Searcher/BPlusTreeSearcher.java:98 | The narrowing cast gives a 32-bit value, and it is the identity on 32-bit values. |
| Searcher.LoadFileLengths | src/main/java/project/Searcher/BPlusTreeSearcher.java:84-107 | A missing file, or one too short for the two counts, gives zero counts and no lengths. |
| Cache.CacheGetFacts | src/main/java/project/Searcher/BPlusTreeSearcher.java:266-271 | A hit returns the stored page and moves it to the most recent place. A miss changes nothing. Neither changes the stored pages. |
| Cache.CachePutFacts | src/main/java/project/Searcher/BPlusTreeSearcher.java:27-32 | A new page becomes the most recent. Below ten pages nothing is evicted. A full cache evicts exactly the least recently used page, so it never holds more than ten. |
| Cache.Remove | src/main/java/project/Searcher/BPlusTreeSearcher.java:27-32 | Taking an id out of the access order keeps the other ids in order and once each. |
| Phrase.FindExactSequence | src/main/java/project/Searcher/IndexSearcherService.java:308-376 | Corrected phrase merge; see `Phrase.FindExactSequenceCorrect`. |
| Phrase.FindExactSequenceCorrect | src/main/java/project/Searcher/IndexSearcherService.java:308-376 | For ascending lists, the corrected merge reports exactly the starts p with p + i in list i for every i, strictly ascending. |
| Phrase.AsWrittenSound | src/main/java/project/Searcher/IndexSearcherService.java:339-351 | As written, every reported start is a phrase start, and the reports ascend strictly when the first list does. |
| Phrase.AsWrittenCompleteWhenDisjoint | src/main/java/project/Searcher/IndexSearcherService.java:318-373 | As written, the merge is complete, and equal to the corrected one, when no position occurs in two lists. |
| Phrase.RepeatedTermMissesPhrase | src/main/java/project/Searcher/IndexSearcherService.java:357-371 | For the lists [0, 1] and [0, 1], 0 starts the phrase, but the code as written reports nothing. |
| Phrase.RepeatedTermFound | src/main/java/project/Searcher/IndexSearcherService.java:357-371 | The corrected merge reports 0 for the same lists. |
| Query.GetPath | src/main/java/project/Searcher/IndexSearcherService.java:425-433 | A negative id is a seek error, and an id at or past the end of the paths file gives null. |
| Query.GetPathOfWritten | src/main/java/project/Builder/FileProcessor.java:95-100 | The path written at an offset is the path read back at that document id. |
| Query.ResolveAllSound | src/main/java/project/Searcher/IndexSearcherService.java:170-181 | Every exact result comes from a posting whose path resolves. |
| Query.ResolveAllComplete | src/main/java/project/Searcher/IndexSearcherService.java:170-181 | Every posting whose path resolves gives its result; unresolved ones are dropped. |
| Query.ResolveAllAscending | src/main/java/project/Searcher/IndexSearcherService.java:170-181 | Postings in ascending document order give results in ascending document order. |
| Query.PerformSearch | src/main/java/project/Searcher/IndexSearcherService.java:156-182 | An empty normalised query or an absent term gives no results. A failed lookup is an error. A found term gives its resolved postings. |
| Query.LookupAll | src/main/java/project/Searcher/IndexSearcherService.java:193-211 | The term loop gives every term's postings in query order, or stops at a term the index lacks. It succeeds when every lookup does. |
| Query.FindExactMatchesCorrect | src/main/java/project/Searcher/IndexSearcherService.java:226-304 | For ascending document lists, the intersection reports exactly the due documents, ascending. A document is due when it is in every list, its phrase merge is non-empty and its path resolves. With `aligned` false the phrase merge is `findExactSequence` as written. It fails only on a path read error. |
| Query.ReportedPositions | src/main/java/project/Searcher/IndexSearcherService.java:275-281 | Every reported position of a due document starts the phrase there. With the corrected merge, or with as-written merge when no position belongs to two terms, every phrase start is reported. |
| Query.NormalizeAll | src/main/java/project/Searcher/IndexSearcherService.java:186-191 | Token i of the normalised query is the normalised token i. |
| Query.PerformExactSearch | src/main/java/project/Searcher/IndexSearcherService.java:184-222 | No tokens give no results, and one token falls through to the whole-query lookup. Its multi-term results are stated by `Query.ExactSearchCorrect`. |
| Query.ExactSearchAbsentTerm | src/main/java/project/Searcher/IndexSearcherService.java:197-205 | A multi-term query with an absent term, including one normalised to empty, gives no results. |
| Query.ExactSearchCorrect | src/main/java/project/Searcher/IndexSearcherService.java:184-222 | A multi-term query whose terms are all found reports exactly the due documents of their postings, ascending, for the phrase merge as written (`aligned` false) and for the corrected one. |
| Ranked.FoundHits | src/main/java/project/Searcher/IndexSearcherService.java:86-96 | The term loop succeeds iff every lookup does; no term is kept iff none is found. |
| Ranked.FoundHitsCorrect | src/main/java/project/Searcher/IndexSearcherService.java:86-91 | Each kept term is found and appears once, and every found query term is kept. |
| Ranked.CandidateMatched | src/main/java/project/Searcher/IndexSearcherService.java:99-112 | A document is a candidate iff some found term occurs in it. |
| Ranked.MatchedTerms | src/main/java/project/Searcher/IndexSearcherService.java:101-111 | A document's matched terms are found terms present in it, with their positions there; every found term present in it is matched. |
| Ranked.ResolveRanked | src/main/java/project/Searcher/IndexSearcherService.java:116-132 | The candidate loop fails iff some candidate's path read fails. |
| Ranked.ResolveRankedMembers | src/main/java/project/Searcher/IndexSearcherService.java:116-132 | A result is produced iff its document is a candidate whose path resolves, with all its matched positions sorted, its score and the inexact flag. |
| Ranked.ResolveRankedAscending | src/main/java/project/Searcher/IndexSearcherService.java:116-132 | Candidates taken in ascending order give results in ascending document order, each for a candidate. |
| Ranked.InsertByScore | src/main/java/project/Searcher/IndexSearcherService.java:137 | Inserting a result adds exactly it. |
| Ranked.SortByScore | src/main/java/project/Searcher/IndexSearcherService.java:137 | The sort is a permutation with scores descending. |
| Ranked.PerformRankedSearch | src/main/java/project/Searcher/IndexSearcherService.java:68-140 | No tokens give no results, and any result list is ordered by descending score. |
| Ranked.RankedNothingFound | src/main/java/project/Searcher/IndexSearcherService.java:94-96 | When no query term is in the index the ranked search gives no results. |
| Ranked.RankedSearchCorrect | src/main/java/project/Searcher/IndexSearcherService.java:68-140 | The ranked results are exactly the due ranked results of the found terms, each document once. |
| Documents.NameText | src/main/java/project/Builder/FileProcessor.java:103-105 | The name text is the whole name without a '.', and otherwise the part before the last '.'. |
| Documents.NonEmptyMembers | src/main/java/project/Builder/FileProcessor.java:110-116 | The indexed tokens are exactly the non-empty normalised ones. |
| Documents.NonEmptyAppend | src/main/java/project/Builder/FileProcessor.java:110-116 | Filtering distributes over concatenation, so the kept tokens stay in token order. |
| Documents.NonEmptyKeepsAll | src/main/java/project/Builder/FileProcessor.java:110-116 | Nothing is dropped when no token normalises to empty. |
| Documents.Occurrences | src/main/java/project/Builder/FileProcessor.java:121-124 | One occurrence per indexed token, with positions 0..n-1 in token order. |
| Documents.ProcessFileOrDirectory | src/main/java/project/Builder/FileProcessor.java:70-103 | A path too long for `writeUTF` changes nothing. Otherwise the document id is the paths file's length before the record, and the file grows by 2 plus the path's encoded length. The path reads back at that id. A path without a file name (a crawl root) records nothing else. Otherwise the name length and name terms are recorded, and content is recorded exactly for a supported file, from its extracted text. |
| Documents.ProcessKeepsConsistent | src/main/java/project/Builder/FileProcessor.java:70-93 | Processing keeps the counts equal to the records. Record ids stay ascending and below the paths file's length, and each name record's id resolves to a path. |
| Documents.CrawledConsistent | src/main/java/project/Builder/FileProcessor.java:70-93 | Any sequence of visits keeps that consistency. |
| Documents.CrawledNames | src/main/java/project/Builder/FileProcessor.java:74-118 | A crawl adds exactly one name record per visit whose path `writeUTF` accepts and which has a file name. |
| Documents.RecordKeeps | src/main/java/project/Builder/FileProcessor.java:150-174 | A record with an id above all earlier ones keeps the counts right and the ids ascending. |
| Documents.Patch | src/main/java/project/Builder/FileProcessor.java:186-201 | Patching on close rewrites only the two leading longs. |
| Documents.LengthsRoundTrip | src/main/java/project/Searcher/BPlusTreeSearcher.java:84-107 | The closed lengths file reads back with its document count (narrowed), its total, and each record's length under its id. |
| Documents.CrawlLengths | src/main/java/project/Builder/FileProcessor.java:186-201 | After any crawl the name-lengths file reads back with one length per recorded document. The count is the number of named visits, and every recorded id resolves to a path. |
| Documents.SumSizesBound | src/main/java/project/Builder/FileProcessor.java:152 | The total of the 32-bit sizes of fewer than 2^31 records fits a long. |
| Documents.IdsCount | src/main/java/project/Builder/FileProcessor.java:95-100 | Strictly ascending ids in [lo, hi) number at most hi - lo. |
| FileTypes.FindByName | src/main/java/project/UI/Model/FileType.java:35-42 | The loop finds a constant with the given display name, and finds none iff no constant in the list has that name. |
| FileTypes.FromDisplayName | src/main/java/project/UI/Model/FileType.java:35-42 | A found constant has that display name, and null means no constant has it. |
| FileTypes.DisplayNamesDistinct | src/main/java/project/UI/Model/FileType.java:11-17 | No two constants share a display name. |
| FileTypes.FromDisplayNameRoundTrip | src/main/java/project/UI/Model/FileType.java:11-42 | Every constant is found again from its display name. |
| FileTypes.UnknownDisplayName | src/main/java/project/UI/Model/FileType.java:35-42 | An unknown name gives null. |
| FileTypes.Extension | src/main/java/project/UI/Model/FileType.java:112-118 | The extension is the text after the last '.', and it is empty when there is no '.', the '.' is first, or it is last. |
| FileTypes.Classify | src/main/java/project/UI/Model/FileType.java:90-103 | Patterns are tested in the order text, image, document, video, audio; the first match wins and no match gives text. |
| FileTypes.GetFileType | src/main/java/project/UI/Model/FileType.java:81-104 | A directory is a folder, a file never is, and the result is never "all". |
| FileTypes.Matches | src/main/java/project/UI/Model/FileType.java:55-78 | "All" accepts every name, and "folder" accepts none. |
| FileTypes.DocumentOnlyFor | src/main/java/project/UI/Model/FileType.java:44-48 | Because text comes first, only pdf, ppt, pptx, ods and odp classify as documents; doc and docx classify as text. |
| FileTypes.MatchesAgreesWithType | src/main/java/project/UI/Model/FileType.java:55-104 | A name a category accepts classifies as that category, except that the document filter also accepts names classified as text. |
| FileTypes.ClassifiedButNotMatched | src/main/java/project/UI/Model/FileType.java:44-78 | raw, mpg, mpeg and opus classify into a category whose `matches` rejects them. |
| FileTypes.TextFilterGap | src/main/java/project/UI/Model/FileType.java:44-64 | log, md, json, xml, html, css, js, py, java, c, cpp and h classify as text, but the text filter rejects them. |
| FileTypes.OwnTypeMatches | src/main/java/project/UI/Model/FileType.java:55-104 | A file's own category accepts it exactly when its extension is an alternative of one of the five filter patterns. |
| FileTypes.NoExtensionIsText | src/main/java/project/UI/Model/FileType.java:112-118 | A name whose only '.' is its first or last character has no extension and classifies as text. |

## Left out

- File I/O is modelled as byte sequences and block files as record sequences. Seeks, buffering, `available()`, temporary directories and block deletion are not modelled.
- Spimi.WriteBlockToDisk: a block cut by a failure at the closing flush is modelled by how many whole records reached the file (`Spill.CutAtClose`). The cut inside a record is not modelled at byte level. Nor is `readNextTerm` (SPIMIInvertedIndex.java:297-324), which reads up to the cut, catches the end-of-file and drops the rest of the block.
- Concurrency is left out: the searcher, its cache and its files have a single owner.
- `TextAnalyzer.tokenize`/`normalize`, `TextExtractor.isSupportedFile` and `extractText` are function parameters (Unicode regex, PDF/Office parsing). `extractText` catches every exception and returns the empty text, so the extracted text is always a string.
- The BM25 score (`RankingEngine`) is a function parameter, because it is floating-point `log` and division.
- `Config` is left out; the page size and memory ceiling are parameters.
- Viewers, the JavaFX UI, `IndexBuilderService`'s file walk, `Main` and `SecureIndexFolder` are left out as presentation and process glue.
- Ranked.PerformRankedSearch: the `HashMap` iteration orders are fixed. Found terms are taken in query order, a repeated query term keeps one entry, and candidates are taken in ascending document order. The source's order is unspecified, and only score ties depend on it.
- Ranked.SortByScore: stability among equal scores is not stated, because the source's order of equal-score results depends on `HashMap` order.
- Searcher.SearchTerm: the query engine is stated over `SearchDirect`, which reads every page from disk. `Searcher.SearchTerm` proves the cached search gives the same answers.
- Searcher.LoadFileLengths: the `docsCount` and `totalLength` fields it also sets are not modelled, because nothing in the core reads them.
- TreeBuild.WriteLeafPages: requires a page size of at least 787 bytes (8 + 14 + 3 * 255), so that every accepted term fits an empty leaf and every key fits an internal page. Below that the source writes an empty leaf with a null first key, or never finishes building the levels.
- Levels.WriteInternalLevels: requires at least one leaf, because an index with no terms fails at `currentLevel.get(0)` in the source (SPIMIInvertedIndex.java:376). The model returns a `NoTerms` error instead.
- PageReader.LeafRoundTrip: requires fewer than 2^15 entries, because `writeShort(entries.size())` (BPlusTreeLeafPage.java:43) keeps 16 bits and the reader's `short numEntries` (BPlusTreeSearcher.java:249) is signed. The builder does not bound the count. With a page size of 491,528 bytes or more (8 + 15 * 32768), a leaf of one-character terms reaches 32768 entries, and the count reads back negative. The round trip is not claimed for such pages.
- PageReader.InternalRoundTrip: requires fewer than 2^15 keys for the same reason. An internal page reaches 32768 one-character keys from a page size of 229,384 bytes (8 + 7 * 32768). The builder does not bound the count.
- Page ids and positions are unbounded integers. Overflow beyond 2^31 pages, documents or positions is not modelled.
- Documents.ProcessFileOrDirectory: the document id is the paths file's byte length, unbounded. Past 2^31 - 1 bytes `CountingOutputStream.getCount()` throws `ArithmeticException`. Neither `processFileOrDirectory` (which catches `IOException`) nor `safeProcess` (which catches `NullPointerException`) catches it, so the crawl aborts. The model goes on, and `Documents.CrawlLengths` requires the paths file to stay within an `int`.
- Documents.Crawled: the static counters are shared by all `FileProcessor` instances. They are modelled as belonging to one processor.
- Documents.ClosedFile: the lengths file is encoded at close from the records. This gives the same bytes as the incremental writes.
- Documents.ProcessFileOrDirectory: the failure of the constructor's header writes is not modelled.
- Documents.AddedTerms: the name and content occurrences are stated as `(term, docId, position)` sequences. They are not fed through the `Spimi` builder in one combined theorem.
- FileTypes.ToLower: lower-cases ASCII letters only. Java's `toLowerCase()` follows the default locale and also maps other letters. Under a Turkish locale "X.GIF" gives "gıf" (dotless i), which matches no image pattern and so classifies as text. Outside ASCII it maps letters such as the Kelvin sign to 'k'. The model follows a locale-neutral, ASCII-only reading.
- FileTypes.Matches: nothing in the indexing or search core calls it; it is modelled as written.
- The end-to-end property that every term of a built tree is found by the searcher is not stated. The pieces are proved separately:
  - page round trips;
  - page addressing;
  - routing by separators that are first keys;
  - postings offsets.

## Findings

| source | as written | input that shows it | evidently intended | confidence | as-written member | corrected member |
|---|---|---|---|---|---|---|
| src/main/java/project/Searcher/IndexSearcherService.java:357-371 | When the positions are not aligned, every cursor holding the least raw position moves on. | A query repeating a term: both position lists are [0, 1]. Start 0 is a phrase (0 in list 0, 1 in list 1). Every round advances both cursors together, so it is never reported. | Advance the cursors whose implied start (position minus list index) is least. This reports exactly the phrase starts. The query engine runs either merge (`aligned`). | not executed | Phrase.FindExactSequenceAsWritten (shown by Phrase.RepeatedTermMissesPhrase) | Phrase.FindExactSequence (proved by Phrase.FindExactSequenceCorrect) |
