# Verified model of the Colibri runtime

The runtime streams mixture-of-experts weights from disk. This project models the data structures
and algorithms around the tensor mathematics and proves what they promise, for every input and
every run:

- **Byte-budgeted caches.** `ProbeTable` is open addressing with linear probing, backshift deletion
  and doubling. `CacheSpec` is the C cache on values (an ordered list of items), `Cache` the same
  cache as it is in memory: a table, an intrusive recency list and counters, each operation proved
  to compute the operation on values. `CacheHistory` says, in numbers and fields, what each operation
  does to an entry and what an entry owes to the run before it. `ExpertCache` is the Python cache.
- **Expert prefetch.** `ExpertStore` is the protocol of futures, speculative requests, ready keys
  and the cache: one consumer, and loads that complete at any moment.
- **Tokenizer.** `Json` compares the flat value skipper with the recursive parser, and `JsonText`
  proves that the parser accepts exactly the values of the grammar of RFC 8259. `Bpe` is the merge loop
  with its rank array, `MergeRanks` says which pair it merges first in terms of the lines of the file.
  `ByteForms` is the reversible byte alphabet. `Pretoken` is the cutting of plain text, `PretokenScan`
  its loops, and `PretokenPattern` compares it with the split pattern of the tokenizer as a backtracking
  matcher. `Tokenizer` states loading, encoding and decoding and proves the round trip, `EncodeRules`
  says what the ids of a text stand for; `TokenizerLoad`, `TokenizerEncode` and `TokenizerDecode` are the
  loops, and `TokenizerRoundTrip` runs them one after the other, from a vocabulary to a decoded text.
- **Row reads and the I/O pool.** `RowRequests` and `RowIo` are the C row reader of the Python package,
  `RowFallback` its Python counterpart, `ReaderBlock` the read loop of the C runtime. `IoPool` is the pool as a system of interleaved critical sections, `IoRing` its
  growing ring buffer and the critical sections themselves.
- **N-gram hashing.** `Primes` and `Ngram` are the table geometry, `NgramIds` the ids.
- **Kernels in exact arithmetic.** `TopK` is quickselect, `QuantGemm` the 4-bit matrix product,
  `CausalConv` the dilated causal convolution and its saved state.
- **Routing and masks.** `Moe` and `MoeSlots` are the two forms of expert dispatch, `SparseMask` the
  sparse attention mask.

`Options` holds optional values, `Chunks` what sequences processed in chunks have in common, and
`Arithmetic` products by repeated addition, which keep offsets out of nonlinear arithmetic.

The functions on values are themselves pinned down by lemmas that speak of fields, constructors, bytes
and numbers only: what a hit does to the entry it finds (`CacheHistory.HitCounts`), which bytes an escape
stands for (`JsonText.StringExactly`), which line of the file gives a merge its rank
(`MergeRanks.RankIsPlace`), where a piece of text ends (`PretokenPattern.PieceIsMatch`), which digits an
n-gram id has (`NgramIds.IdExactly`), or which products a convolution sums (`CausalConv.OutputExactly`).

A structure that the source updates in place is a class or an array here, and each of its methods is
proved equal to a function on values; the properties are lemmas about those functions. Where the
source does not meet a property, the condition under which it does is proved as an equivalence, and
an input that fails is given:

- the LFU or adaptive victim has the least score of its heat class: `CacheSpec.LeastScoreExactly`,
  with `CacheSpec.LfuVictimNotLeastFrequent`;
- a refused put leaves the entries alone: `CacheSpec.RefusedPutKeepsExactly`, with
  `CacheSpec.RefusedPutEvicts`;
- the flat skipper stops where the parser does: `Json.SkipAgreesOnScalars`, with
  `Json.SkipPassesColon`;
- a piece of text ends where the split pattern does: `PretokenPattern.PieceIsMatch`, with
  `Tokenizer.NoBreakSpaceStands`;
- a block is right after short reads in the C runtime: `ReaderBlock.RightExactly`, with
  `ReaderBlock.SecondReadOverwrites`;
- every piece is encoded: `Pretoken.StuckExactly` and `Tokenizer.TextEncodesExactly`, with
  `Tokenizer.EncodeMayStandStill`;
- all selections of the best blocks give one mask: `SparseMask.MasksAgreeExactly`, with
  `SparseMask.TiedMasksDiffer`.

`dafny verify dfyconfig.toml` checks the whole project.

## Model

| member | source | states |
|---|---|---|
| `ProbeTable.RingArithmetic` | c/src/cache.c:27-34 | the modelled step and distance are the remainders that the masks of the source compute |
| `ProbeTable.EmptySlotMeansAbsent` | c/src/cache.c:27-34 | a probe that met only other keys and then an empty slot proves that the key is not in the map |
| `ProbeTable.InsertKeepsTable` | c/src/cache.c:82-96 | an entry placed in the first empty slot from its home keeps every entry reachable and adds exactly that pair to the map |
| `ProbeTable.OverwriteKeepsTable` | c/src/tokenizer.c:77-94 | replacing a value in its slot changes the map at that key only |
| `ProbeTable.EmptySlotExists` | c/src/cache.c:27-34 | a table whose map is smaller than the array has an empty slot, so every probe ends |
| `ProbeTable.DeletionStep` | c/src/cache.c:55-74 | each round of a deletion keeps the map and leaves the hole as the only empty slot between an entry and its home, and comes nearer to an empty slot |
| `ProbeTable.RemovalEnds` | c/src/cache.c:55-74 | when the scan meets an empty slot, every entry is reachable from its home with no empty slot between |
| `ProbeTable.Backshift` | c/src/cache.c:55-74 | the backshift loop ends and leaves a well-formed table of the map without the removed key |
| `ProbeTable.Table.Find` | c/src/cache.c:27-34 | returns the value of a key exactly when the map has it, and always terminates |
| `ProbeTable.Table.Put` | c/src/tokenizer.c:77-94 | binds the key in the map, whatever the hash, growing at a load of three quarters |
| `ProbeTable.Table.Grow` | c/src/cache.c:82-96 | doubles the array and keeps the map |
| `ProbeTable.Table.Remove` | c/src/cache.c:55-74 | removes exactly the key from the map |
| `CacheSpec.VictimExists` | c/src/cache.c:99-163 | there is a victim exactly when some entry is unpinned: the fairness and heat filters never empty the candidates, and a hot entry goes only when every eligible entry is hot |
| `CacheSpec.LruVictim` | c/src/cache.c:99-163 | under LRU the victim is the least recently touched eligible entry of its heat class, nearest the tail among equals |
| `CacheSpec.LruVictimNearestTail` | c/src/cache.c:120-161 | without partitions the LRU scan of a recency list takes the cold unpinned entry nearest the tail, or the unpinned one nearest the tail when none is cold |
| `CacheSpec.ScoredVictim` | c/src/cache.c:120-161 | under LFU and the adaptive policy the victim has the least score of its heat class unless the scan meets a hot entry before a cold one |
| `CacheSpec.ResetVictim` | c/src/cache.c:131-134 | when it does, the recorded score is reset and the victim is the cold entry nearest the tail, whatever the scores |
| `CacheSpec.LeastScoreExactly` | c/src/cache.c:120-161 | hence the victim has the least score of its heat class exactly when no hot entry is met before a cold one, or the cold eligible entry nearest the tail has the least score of the cold ones |
| `CacheSpec.LfuVictimNotLeastFrequent` | c/src/cache.c:131-134 | a cache in which LFU evicts an entry that is not the least frequently used |
| `CacheSpec.EvictFindsRoom` | c/src/cache.c:221-266 | the eviction loop finds room exactly when the pinned entries leave it; when it does not, exactly the pinned entries are left |
| `CacheSpec.EvictSublist` | c/src/cache.c:221-266 | eviction keeps a sublist that holds every pinned entry |
| `CacheSpec.EvictsOnlyWhenNeeded` | c/src/cache.c:221-266 | with the last victim back the new entry would not fit |
| `CacheSpec.PutRefusedExactly` | c/src/cache.c:221-266 | a put is refused exactly when the entry is larger than the budget or does not fit beside the pinned entries under other keys |
| `CacheSpec.RefusedPutLosesEntries` | c/src/cache.c:221-266 | a refused put leaves the entries alone when the entry is larger than the budget; otherwise every unpinned entry and the old entry under the key are gone |
| `CacheSpec.RefusedPutKeepsExactly` | c/src/cache.c:221-266 | a refused put leaves the entries alone exactly when the entry is larger than the budget, or the key is new and every entry is pinned |
| `CacheSpec.RefusedPutEvicts` | c/src/cache.c:221-266 | a cache of two entries in which a put evicts one and is then refused |
| `CacheSpec.AcceptedPut` | c/src/cache.c:221-266 | an accepted put puts the entry first and keeps a sublist of the others with every pinned one, within the budget |
| `CacheSpec.PeekFinds` | c/src/cache.c:185-191 | peek finds exactly the listed entries |
| `CacheSpec.PutAsMap` | c/src/cache.c:221-266 | as a map a put binds its key and keeps or evicts every other one; pinned keys stay |
| `CacheSpec.GetKeepsMap` | c/src/cache.c:193-209 | a lookup never changes the map |
| `CacheSpec.ApplyKeepsInv` | c/src/cache.c:193-304 | each operation keeps distinct keys, the recency order by last touch, and the bytes within the budget |
| `CacheSpec.EveryRunKeepsInv` | c/src/cache.c:165-304 | in every run of operations under a monotonic clock these hold of every state |
| `CacheHistory.HitCounts` | c/src/cache.c:193-209 | a hit adds one to the frequency of its entry, stamps it with the time, puts it first, counts one hit, and leaves every other entry as it is and in order |
| `CacheHistory.MissCounts` | c/src/cache.c:193-209 | a lookup that finds nothing changes no entry and counts one miss |
| `CacheHistory.PutEntry` | c/src/cache.c:221-266 | an accepted put leaves in front the entry with the given value and size, frequency one and the time, pinned or hot if asked for or if an entry under the key was, and counts the evictions and the peak |
| `CacheHistory.RefusedPutLeaves` | c/src/cache.c:221-266 | a refused put leaves every entry when it is larger than the budget, and otherwise exactly the pinned ones under other keys, and counts one refusal |
| `CacheHistory.PinSets` | c/src/cache.c:268-292 | pin and unpin set the flag of the entry under the key and change nothing else, and answer whether it changed |
| `CacheHistory.HotSets` | c/src/cache.c:294-304 | the same for the hot flag, and the answer is whether the key is present |
| `CacheHistory.EligibleExactly` | c/src/cache.c:99-118 | a candidate is unpinned, and in a partition over its share of the bytes if any unpinned entry is in one |
| `CacheHistory.ShareExceeded` | c/src/cache.c:99-118 | a partition is over its share exactly when its bytes times the number of partitions exceed the budget |
| `CacheHistory.AtMostExactly` | c/src/cache.c:120-161 | the order of victims: by last touch; by frequency and then touch; by frequency, plus four when hot, per byte and then touch, compared by cross products |
| `CacheHistory.EveryEntryOwes` | c/src/cache.c:165-304 | in every run the value, size and last use of a cached entry are those of the last put that fits and the lookups since on its key, and its frequency is one plus the number of those lookups |
| `CacheHistory.EveryRunDistinct` | c/src/cache.c:165-304 | in every run, under any clock, no two entries have one key |
| `Cache.Recency.Unlink` | c/src/cache.c:36-42 | the pointer writes take exactly the given entry out of the list |
| `Cache.Recency.LinkFront` | c/src/cache.c:44-53 | the pointer writes put a new entry in front of the list |
| `Cache.Recency.Touch` | c/src/cache.c:193-209 | the pointer writes compute a hit of the cache on values, which `CacheHistory.HitCounts` describes field by field |
| `Cache.Store.constructor` | c/src/cache.c:165-173 | the empty cache |
| `Cache.Store.PeekValue` | c/src/cache.c:185-191 | the lookup of the cache on values |
| `Cache.Store.GetValue` | c/src/cache.c:193-209 | the new state and the answer are those of the cache on values (`CacheHistory.HitCounts`, `CacheHistory.MissCounts`), and table and list hold the same entries, once each |
| `Cache.Store.DropEntry` | c/src/cache.c:211-219 | one entry leaves table and list, and the byte, entry and pin counts stay the sums over the entries |
| `Cache.Store.PickVictim` | c/src/cache.c:99-163 | both scans over the list compute the victim of the cache on values |
| `Cache.Store.PutValue` | c/src/cache.c:221-266 | the new state and the answer are those of the cache on values, with table, list and counters in agreement |
| `Cache.Store.GrowTable` | c/src/cache.c:82-96 | after it one more entry leaves the load at most three quarters |
| `Cache.Store.SetPin` | c/src/cache.c:268-292 | pin and unpin: the flag, the pin count and the answer of the cache on values (`CacheHistory.PinSets`) |
| `Cache.Store.SetHot` | c/src/cache.c:294-304 | the hot flag of the entry under the key (`CacheHistory.HotSets`) |
| `ExpertCache.FairShareAgrees` | src/colibri_runtime/expert_cache.py:176-202 | the true division of Python and the truncated one of C agree on which partitions are over their share |
| `ExpertCache.VictimIsLeast` | src/colibri_runtime/expert_cache.py:176-202 | the victim passes all three filters and has the least score, then the least recent touch, then the first place |
| `ExpertCache.VictimExistsHere` | src/colibri_runtime/expert_cache.py:176-202 | there is no victim exactly when every entry is pinned |
| `ExpertCache.EvictForFindsRoom` | src/colibri_runtime/expert_cache.py:105-118 | the eviction loop of put succeeds exactly when the pinned entries leave room |
| `ExpertCache.RefusedExactly` | src/colibri_runtime/expert_cache.py:81-126 | a put is refused exactly when the entry is larger than the byte limit or the pinned entries under other keys leave no room for it in items or bytes |
| `ExpertCache.StoredKeepsInvariant` | src/colibri_runtime/expert_cache.py:81-126 | after a put keys are distinct, limits hold and counts are sums; a stored entry comes last after a sublist of the others with every pinned one |
| `ExpertCache.StoredEntries` | src/colibri_runtime/expert_cache.py:81-126 | every entry after a put is the new one or was there before under another key |
| `ExpertCache.StoredEntry` | src/colibri_runtime/expert_cache.py:81-126 | the stored entry comes last with the given value and size, frequency one and the time, pinned or hot if asked for or if the entry it replaces was |
| `ExpertCache.LookedCounts` | src/colibri_runtime/expert_cache.py:63-74 | a hit adds one to the frequency of its entry, stamps it, moves it to the end, counts one hit and leaves every other entry in order |
| `ExpertCache.LookedMisses` | src/colibri_runtime/expert_cache.py:63-74 | a lookup that finds nothing changes no entry and counts a miss when asked to |
| `ExpertCache.LookedKeepsInvariant` | src/colibri_runtime/expert_cache.py:63-74 | a lookup keeps the invariant |
| `ExpertCache.FlaggedKeepsInvariant` | src/colibri_runtime/expert_cache.py:128-150 | changing flags keeps the invariant once the pin count is recomputed |
| `ExpertCache.Cache.Create` | src/colibri_runtime/expert_cache.py:33-57 | a cache is made exactly for valid limits |
| `ExpertCache.Cache.Get` | src/colibri_runtime/expert_cache.py:63-74 | the value under the key and the exact new contents and statistics |
| `ExpertCache.Cache.Put` | src/colibri_runtime/expert_cache.py:81-126 | the answer and the exact new contents; a refused put restores items, order, partition usage and bytes |
| `ExpertCache.Cache.Pin` | src/colibri_runtime/expert_cache.py:128-134 | the entry under the key equals the old one with the pin flag set, every other entry is unchanged, and the pins are recounted |
| `ExpertCache.Cache.Unpin` | src/colibri_runtime/expert_cache.py:136-143 | the entry under the key equals the old one with the pin flag cleared, every other entry is unchanged, and nothing is evicted |
| `ExpertCache.Cache.MarkHot` | src/colibri_runtime/expert_cache.py:145-150 | the entry under the key equals the old one with the hot flag set as asked, and every other entry is unchanged |
| `ExpertCache.Cache.EvictIfNeeded` | src/colibri_runtime/expert_cache.py:204-212 | ends within the limits or with pinned entries only, and changes nothing when the limits hold |
| `ExpertStore.StepOk` | src/colibri_runtime/streaming.py:226-470 | every step of consumer or loader keeps: at most one outstanding load a key, exactly one for each key in flight while the store is open, speculative keys in flight and within their bound, hits, waste, speculative and ready keys together at most the prefetches submitted |
| `ExpertStore.EveryStateOk` | src/colibri_runtime/streaming.py:226-470 | hence these hold in every reachable state; a key never has two outstanding loads, not even after the store is closed |
| `ExpertStore.EveryStateCounts` | src/colibri_runtime/streaming.py:226-470 | in every run the prefetches submitted are exactly those open, ready, hit and wasted, plus one for each step that harvests a prefetch of a key still ready or gives up a prefetch whose load failed |
| `ExpertStore.WantedOnce` | src/colibri_runtime/streaming.py:235-245 | the keys a request asks for are requested, neither cached nor in flight, each once, within the speculative limit, and all of them when the request is not speculative |
| `ExpertStore.Store.Missing` | src/colibri_runtime/streaming.py:235-245 | the requested keys that are neither cached nor in flight, each at its first place in the request; a speculative call stops at as many as the limit leaves |
| `ExpertStore.Store.RequestMany` | src/colibri_runtime/streaming.py:226-269 | the keys asked for are exactly the missing ones, cut at the speculative limit; each gets its future, the speculative ones join the speculative set and are counted, and loads may complete meanwhile |
| `ExpertStore.Store.Request` | src/colibri_runtime/streaming.py:271-284 | the future of a key in flight, or none when it is cached or not requested |
| `ExpertStore.Store.HarvestOne` | src/colibri_runtime/streaming.py:309-344 | a settled prefetch leaves the speculative set and the futures; exactly when its load succeeded, could be materialized and the cache accepts it, its key becomes ready and cached, and otherwise one more prefetch is wasted; nothing else is counted |
| `ExpertStore.Store.HarvestPrefetches` | src/colibri_runtime/streaming.py:309-344 | every prefetch settled at the call leaves the speculative set and the futures, no prefetch joins it, and every ready key is cached |
| `ExpertStore.Store.AwaitKey` | src/colibri_runtime/streaming.py:346-398 | the future of a key that is not cached is the one in flight or the next one, and it is settled when the wait ends |
| `ExpertStore.Store.GetMissing` | src/colibri_runtime/streaming.py:346-398 | a key that is not cached is answered with its slice exactly when its load succeeded and could be materialized, and with an error otherwise; a slice is cached exactly when the cache accepts it, pinned if configured and hot from four routes on |
| `ExpertStore.Store.RecordRoute` | src/colibri_runtime/streaming.py:400-413 | each routed expert is counted as often as it was routed, and exactly the entries of routed experts become hot or cold by a count of four |
| `ExpertStore.Store.Prepare` | src/colibri_runtime/streaming.py:286-292 | the different experts of a layer are requested in groups of 32, each is then cached or in flight, and a call is refused exactly when the layer or an expert is out of range |
| `ExpertStore.Store.Get` | src/colibri_runtime/streaming.py:346-398 | a cached key is answered with its slice and counted, and a ready one is a hit; a missing one is answered with the slice on disk exactly when its load succeeded and could be materialized, and with an error otherwise; the slice is cached exactly when the cache accepts it, and an error changes no entry |
| `ExpertStore.Store.CloseStore` | src/colibri_runtime/streaming.py:459-470 | clears futures and speculative keys, counts them as wasted, and keeps the accounting |
| `Json.QuoteAgrees` | c/src/json.c:37-145 | the flat loop over a string stops at the closing quote of every string the parser accepts |
| `Json.FlatStepsValue` | c/src/tokenizer.c:319-367 | inside a container the depth-counting loop passes over every value the parser accepts as a whole |
| `Json.SkipAgreesOnContainers` | c/src/tokenizer.c:319-367 | for every string, array and object the parser accepts, the flat skipper stops at exactly the same offset |
| `Json.SkipAgreesOnScalars` | c/src/tokenizer.c:319-367 | for literals and numbers the two agree exactly when the value is followed by the end of the text, a comma, a closing bracket or brace, or space |
| `Json.SkipPassesColon` | c/src/tokenizer.c:362-366 | a number followed by a colon, on which they differ |
| `Json.SkipAcceptsMore` | c/src/tokenizer.c:319-367 | a text the skipper accepts and the parser rejects |
| `Json.Cursor.SkipSpaces` | c/src/json.c:24-26 | the cursor moves to the first character that is no space |
| `Json.Cursor.SkipValue` | c/src/tokenizer.c:319-367 | the cursor ends where the flat skipper on values ends, or the call fails with it |
| `Json.Cursor.ReadString` | c/src/tokenizer.c:201-304 | the bytes written and the cursor are those of the string grammar, escapes and surrogate pairs included, or the call fails |
| `Json.Cursor.ParseValue` | c/src/json.c:147-292 | accepts exactly the values of the grammar and leaves the cursor after them |
| `Json.Cursor.ParseElements` | c/src/json.c:147-292 | the array loop accepts exactly the element lists of the grammar |
| `Json.Cursor.ParseMembers` | c/src/json.c:147-292 | the object loop accepts exactly the member lists of the grammar |
| `JsonText.Utf8Bits` | c/src/json.c:107-127 | the bytes of a code point carry its bits six by six after the marks of its length |
| `JsonText.HexReads` | c/src/json.c:68-90 | four characters are read as a code unit exactly when they are its four hexadecimal digits, in either case |
| `JsonText.StringExactly` | c/src/json.c:37-145 | a text is read as a string exactly when it is written in plain characters, short escapes and code units, two of which form one code point above U+FFFF, and the bytes are those that were meant |
| `JsonText.DerivedIsAccepted` | c/src/json.c:147-292 | every value of the grammar is accepted, up to where it ends |
| `JsonText.AcceptedIsDerived` | c/src/json.c:147-292 | whatever is accepted has a derivation that ends at the same offset |
| `JsonText.AcceptsExactly` | c/src/json.c:147-292 | hence the parser accepts exactly the values of the grammar |
| `Bpe.BestFromIsBest` | c/src/tokenizer.c:861-869 | the rule picks a usable pair of least rank, the leftmost among equals, if any pair is usable |
| `Bpe.MergesTheBest` | c/src/tokenizer.c:860-892 | merging the best pair is a step of the rule |
| `Bpe.MergedIsFinal` | c/src/tokenizer.c:860-892 | the rule ends with no usable pair left and never with more tokens |
| `Bpe.RanksAfterMerge` | c/src/tokenizer.c:876-891 | the shifted rank array with two entries looked up again describes the merged tokens |
| `Bpe.ScanFindsBest` | c/src/tokenizer.c:861-869 | the scan over a correct rank array finds the best pair, or shows that none is usable |
| `Bpe.FindBest` | c/src/tokenizer.c:861-868 | the leftmost least nonnegative rank below INT32_MAX |
| `Bpe.ApplyMerge` | c/src/tokenizer.c:876-891 | the arrays hold the merged tokens and a correct rank array |
| `Bpe.MergeLoop` | c/src/tokenizer.c:860-892 | the loop terminates and leaves exactly the tokens of the naive rule, with no usable pair |
| `ByteForms.FormsDiffer` | c/src/tokenizer.c:390-410 | different bytes have different forms |
| `ByteForms.FormShape` | c/src/tokenizer.c:390-410 | the first byte of a form tells its length, and a one-byte form is the byte itself: no form is a prefix of another |
| `ByteForms.FormExactly` | c/src/tokenizer.c:390-410 | the whole table of forms: printable bytes as themselves, the space as U+0120, and so on for every byte |
| `ByteForms.AllFormsBelow` | c/src/tokenizer.c:656-659 | the map of all forms sends each form to its byte and has nothing else |
| `ByteForms.ReadSpelled` | c/src/tokenizer.c:965-974 | reading the forms of a byte string gives the string back |
| `ByteForms.SpellConcat` | c/src/tokenizer.c:766-780 | the forms of a concatenation are the forms of its parts |
| `ByteForms.SpellingDiffers` | c/src/tokenizer.c:390-410 | different byte strings have different spellings |
| `ByteForms.ReadAscii` | c/src/tokenizer.c:965-974 | ASCII strings read as themselves |
| `ByteForms.ByteToUnicode` | c/src/tokenizer.c:390-410 | the loop computes the form of every byte |
| `ByteForms.FillUni` | c/src/tokenizer.c:656-659 | the reverse table answers every form and nothing else |
| `Pretoken.StuckExactly` | c/src/tokenizer.c:541-545 | a piece after the first position ends where it starts exactly when it is a whitespace run, without newlines and not at the end, whose bytes after the first all continue characters |
| `Pretoken.AsciiSpacesAdvance` | c/src/tokenizer.c:478-550 | when all whitespace is one ASCII byte every piece is nonempty |
| `PretokenScan.FindRun` | c/src/tokenizer.c:447-475 | the three run loops stop at the first character outside their class |
| `PretokenScan.FindLastNewline` | c/src/tokenizer.c:520-536 | the whitespace loop finds the end of the last newlines of the run |
| `PretokenScan.ScanSpaces` | c/src/tokenizer.c:538-546 | whitespace without newlines: all of it at the end of the text, otherwise back to the start of its last character |
| `PretokenScan.ScanPiece` | c/src/tokenizer.c:478-550 | the loops find the end of the piece |
| `PretokenPattern.CodePointAt` | c/src/tokenizer.c:419-445 | the bytes of a code point in UTF-8 are read as that code point, and the next character follows them |
| `PretokenPattern.SpelledAligned` | c/src/tokenizer.c:439-445 | in UTF-8 text every character starts with a byte that continues none |
| `PretokenPattern.SuffixesMatch` | c/src/tokenizer.c:482-493 | the contractions are those of the pattern, in either case |
| `PretokenPattern.WordsMatch` | c/src/tokenizer.c:495-504 | an optional character that is no newline, letter or number, then letters and marks |
| `PretokenPattern.SymbolsEnd` | c/src/tokenizer.c:509-518 | an optional space, symbols, and newlines |
| `PretokenPattern.LinesMatch` | c/src/tokenizer.c:520-536 | the last newlines of a whitespace run, found from the left, are those the pattern finds by backtracking |
| `PretokenPattern.PieceIsMatch` | c/src/tokenizer.c:478-550 | in UTF-8 text a piece ends where the first matching alternative of the split pattern ends its match, except exactly where only the last alternative matches and takes a character of several bytes inside the text: there the scanner stands still |
| `Tokenizer.LoadedMergesJoinKeys` | c/src/tokenizer.c:743-789 | every loaded merge joins two vocabulary keys into the id of their concatenation |
| `MergeRanks.CutAtLastSpace` | c/src/tokenizer.c:748-765 | a line joins two keys exactly when they stand before and after its last space |
| `MergeRanks.RankIsPlace` | c/src/tokenizer.c:743-789 | a pair is loaded exactly when a line joins it; its rank is the place of the last such line in the file, and it merges into the id of the two keys together |
| `MergeRanks.RanksFollowFile` | c/src/tokenizer.c:743-789 | of two pairs the one whose last line comes first has the lower rank |
| `MergeRanks.MergesLeastRank` | c/src/tokenizer.c:860-892 | encoding merges a pair of least rank, the leftmost of these, and goes on, until no pair has a token to merge into |
| `MergeRanks.FirstLineFirst` | c/src/tokenizer.c:743-892 | of the lines "a b" and "b c" the first is applied first: "abc" becomes "ab", "c" |
| `Tokenizer.IdTableContents` | c/src/tokenizer.c:706-727 | the id table answers every vocabulary key and every added token |
| `Tokenizer.BestAddedIsLongest` | c/src/tokenizer.c:904-916 | the added token found is the longest match, the first among equals |
| `Tokenizer.CutsTile` | c/src/tokenizer.c:918-950 | added tokens and pieces cut the text into adjacent nonempty segments, up to one at which the loop stands still |
| `EncodeRules.AddedExactly` | c/src/tokenizer.c:904-916 | the added token taken at a place is the longest that stands there, the first of these in the file, with a usable id |
| `EncodeRules.NextAddedIs` | c/src/tokenizer.c:932-938 | plain text reaches up to the first place at which an added token is taken |
| `EncodeRules.CutsAre` | c/src/tokenizer.c:918-950 | every segment is an added token that is taken or a piece of the plain text around it |
| `EncodeRules.EncodedBySegments` | c/src/tokenizer.c:918-950 | the ids of a text are those of segments that tile it: the id of each added token, and for each piece the merged tokens of the forms of its bytes |
| `Tokenizer.MergedTokenSpells` | c/src/tokenizer.c:766-780 | a merged token spells what its two parts spell |
| `Tokenizer.MergedDecodes` | c/src/tokenizer.c:860-892 | merging does not change what the tokens decode to |
| `Tokenizer.PieceDecodes` | c/src/tokenizer.c:840-902 | the tokens of a piece decode to the piece |
| `Tokenizer.RoundTrip` | c/src/tokenizer.c:918-978 | whenever encoding succeeds, decoding gives the text back and the capacity was kept, for distinct ids and ASCII added tokens whose ids do not clash |
| `Tokenizer.EncodesExactly` | c/src/tokenizer.c:918-950 | with all byte forms and one id of room a byte, encoding succeeds exactly when no segment stands still |
| `Tokenizer.TextEncodesExactly` | c/src/tokenizer.c:918-950 | so a whole text is encoded exactly when none of its segments stands still, and otherwise encoding never ends |
| `Tokenizer.EncodeEnds` | c/src/tokenizer.c:918-950 | encoding a text with ASCII whitespace never runs forever, whatever the vocabulary |
| `Tokenizer.EncodeSucceeds` | c/src/tokenizer.c:918-950 | with all byte forms and enough room such a text is always encoded |
| `Tokenizer.EncodeMayStandStill` | c/src/tokenizer.c:541-545 | a text with a no-break space on which the loop never ends |
| `TokenizerLoad.LoadMerges` | c/src/tokenizer.c:743-789 | the merge table holds exactly the pairs that some line joins, each ranked by the place of the last such line in the file and merged into the id of its two keys together |
| `TokenizerLoad.FillKeys` | c/src/tokenizer.c:710-716 | the id table holds the vocabulary key of each id |
| `TokenizerLoad.FillAdded` | c/src/tokenizer.c:717-727 | and the added tokens over them |
| `TokenizerEncode.MergePiece` | c/src/tokenizer.c:840-892 | the array holds the tokens of the piece, or some byte form is missing |
| `TokenizerEncode.EncodeChunk` | c/src/tokenizer.c:840-902 | appends exactly the tokens of the piece, or fails when a byte form is missing or the room is too small |
| `TokenizerEncode.FindAdded` | c/src/tokenizer.c:904-916 | the id and length of the added token to take, or a negative id exactly when there is none |
| `TokenizerEncode.EncodePlain` | c/src/tokenizer.c:939-947 | the inner loop encodes plain text up to its limit |
| `TokenizerEncode.EncodeText` | c/src/tokenizer.c:918-950 | the array and the result are those of encoding on values; a loop without progress is reported, not entered |
| `TokenizerDecode.ReadKey` | c/src/tokenizer.c:960-974 | one key is read into the buffer form by form |
| `TokenizerDecode.DecodeIds` | c/src/tokenizer.c:952-978 | the buffer, sized by a first pass, holds exactly the decoded bytes and a NUL |
| `TokenizerRoundTrip.BuildTables` | c/src/tokenizer.c:654-789 | the merge, byte-form and id tables are those of the loaded vocabulary, with ranks by the place of the lines in the file |
| `TokenizerRoundTrip.EncodeDecode` | c/src/tokenizer.c:918-978 | the bytes decoded from the encoded ids are the text and a NUL follows; with all byte forms and room encoding succeeds exactly when no segment stands still, and always for ASCII whitespace |
| `TokenizerRoundTrip.LoadEncodeDecode` | c/src/tokenizer.c:654-978 | the same from the vocabulary, the merge lines and the added tokens on |
| `RowRequests.CompareRowsIsOrder` | native/rowio.c:16-32 | the comparison is a total order on requests |
| `RowRequests.SortSorts` | native/rowio.c:143-147 | sorting gives a sorted permutation |
| `RowRequests.AscendingIsSorted` | native/rowio.c:138-147 | requests of nondecreasing rows need no sorting |
| `RowRequests.PermutedServes` | native/rowio.c:143-147 | a permutation of the requests serves every row once |
| `RowRequests.RunSpan` | native/rowio.c:151-163 | a run spans as many rows as it has different ones |
| `RowRequests.DistinctRows` | native/rowio.c:158-163 | the counted row changes of sorted requests are the number of different rows |
| `RowRequests.StartsAreFirstRows` | native/rowio.c:197-202 | there are as many runs as requested rows without a requested predecessor |
| `RowIo.CheckedOffsetExactly` | native/rowio.c:34-45 | the offset is the exact sum, refused exactly above LLONG_MAX: nothing wraps around |
| `RowIo.SlotsAreNaive` | native/rowio.c:228-232 | a buffer that holds each requested row in its slot is the row-by-row read |
| `RowIo.RowInBlock` | native/rowio.c:228-232 | the row at its distance in a block is the row of the file |
| `RowIo.BlockReadable` | native/rowio.c:210-223 | all rows of a run can be read exactly when its block lies in the file |
| `RowIo.BlockIsSmall` | native/rowio.c:164-170 | no block overflows a size_t |
| `RowIo.Disk.Pread` | native/rowio.c:55-56 | one read: interrupted, failing, short or complete |
| `RowIo.ReadFully` | native/rowio.c:47-72 | on success the buffer holds the bytes of the file whatever short reads happened; the errno tells a block beyond the largest offset, a block beyond the end of the file, or a read that failed; and it succeeds when no read fails and the bytes exist |
| `RowIo.MakeRequests` | native/rowio.c:117-147 | the first faulty row decides the error; otherwise sorted requests that serve every row |
| `RowIo.EarlyEndExactly` | native/rowio.c:87-147 | which calls go on to read: nonnegative sizes within the limits and rows inside the tensor; a negative row size is a ValueError, no rows give no bytes |
| `RowIo.BadRowExactly` | native/rowio.c:107-137 | the first bad row is an IndexError when a C long long holds it and an OverflowError otherwise, and so is every size that is too large |
| `RowIo.SlotIsRead` | native/rowio.c:228-232 | a filled slot holds the bytes of the file at base plus row times row size |
| `RowIo.MaxBlock` | native/rowio.c:149-175 | every run fits a block of the computed size |
| `RowIo.ReadRun` | native/rowio.c:196-234 | a round reads one run and fills the slots of all its requests |
| `RowIo.ReadRows` | native/rowio.c:74-248 | for any rows and any pattern of short reads the output is the row-by-row read in request order, byte for byte, bytes are distinct rows times row size, one call a run when reads are complete, the errno is explained by a requested row or a failed read, and without failing reads it fails exactly when some row is not in the file |
| `RowFallback.SortedSetIs` | src/colibri_runtime/storage.py:223 | the ascending different rows |
| `RowFallback.FindRuns` | src/colibri_runtime/storage.py:225-232 | the ranges, laid end to end, are exactly the sorted rows |
| `RowFallback.ReadRowsFallback` | src/colibri_runtime/storage.py:200-242 | the data and byte count are those of the C reader: the row-by-row read, byte for byte; out-of-range rows are refused exactly |
| `ReaderBlock.RightExactly` | c/src/reader.c:79-96 | reads that come to the length of a block leave the bytes of every file in it exactly when there is one of them, since each is written to the start of the block |
| `ReaderBlock.SecondReadOverwrites` | c/src/reader.c:79-96 | a block of two bytes read one at a time: the second lands on the first |
| `ReaderBlock.ReadBlock` | c/src/reader.c:79-96 | the block after the loop is that of its reads, right after one read, and one read is enough when none is short |
| `IoPool.StepOk` | c/src/reader.c:115-206 | every critical section of submitters, workers, waiters and destroy keeps: first in first out, each job handled by one worker, in-flight count equal to queued plus running, and no lost wake-up |
| `IoPool.EveryStateOk` | c/src/reader.c:115-206 | hence in every interleaving |
| `IoPool.JobsRunOnce` | c/src/reader.c:115-147 | each job is read at most once, and is done exactly when it was read |
| `IoPool.WorkersStay` | c/src/reader.c:149-162 | there are as many workers as asked for, at least one, in every state |
| `IoPool.CanSubmit` | c/src/reader.c:164-187 | until the pool stops a job can always be submitted |
| `IoPool.ReturnsAfterRead` | c/src/reader.c:189-194 | in every run a caller of io_job_wait waits for the one job it asked for, and returns only after a worker has read that job |
| `IoPool.DoneReturns` | c/src/reader.c:189-194 | once its job is done a caller is awake and returns as soon as it looks |
| `IoPool.QueuedMeansAwake` | c/src/reader.c:117-127 | a queued job never coexists with sleeping workers only |
| `IoPool.JoinedMeansDone` | c/src/reader.c:196-201 | when all workers are gone every submitted job is done, nothing is in flight, and every caller still waiting is awake with its job done |
| `IoPool.StoppedDrains` | c/src/reader.c:115-147 | in a stopped pool each worker step uses up one of finitely many |
| `IoPool.StoppedMoves` | c/src/reader.c:196-206 | a stopped pool can step exactly until every worker has exited |
| `IoPool.DestroyEnds` | c/src/reader.c:196-206 | so destroy returns, with every submitted job done |
| `IoPool.DestroyReturns` | c/src/reader.c:196-206 | in every run, once destroy has set the stop flag the workers take a bounded number of steps, after the last of which all have exited and every submitted job is done |
| `IoRing.Ring.Grow` | c/src/reader.c:170-183 | doubling keeps the queued jobs in order and makes room |
| `IoRing.Ring.Push` | c/src/reader.c:169-185 | appends the job at the end |
| `IoRing.Ring.Pop` | c/src/reader.c:125-126 | takes the oldest job |
| `IoRing.Monitor.constructor` | c/src/reader.c:149-162 | the initial pool with at least one worker |
| `IoRing.Monitor.Submit` | c/src/reader.c:164-187 | takes the submit step of the protocol |
| `IoRing.Monitor.Take` | c/src/reader.c:117-127 | takes the worker's first step: a job, a wait or an exit |
| `IoRing.Monitor.Retire` | c/src/reader.c:142-145 | takes the worker's last step; the count never goes below zero |
| `IoRing.Monitor.Destroy` | c/src/reader.c:196-200 | takes the stop step |
| `Primes.SquareRootSuffices` | c/src/ngram.c:19-26 | an odd number without an odd divisor up to its square root is prime |
| `Primes.IsPrime` | c/src/ngram.c:19-26 | decides primality |
| `Primes.LargerPrime` | c/src/ngram.c:28-35 | there is always a larger prime |
| `Primes.NthPrimesOrdered` | c/src/ngram.c:28-35 | larger counts give larger primes, so the count-th prime is unique |
| `Primes.NthPrimeAfter` | c/src/ngram.c:28-35 | terminates and returns the count-th prime above the start |
| `Ngram.HeadTables` | c/src/ngram.c:44-52 | the sizes are the primes that follow the base and the offsets tile the total |
| `Ngram.SizesIncrease` | c/src/ngram.c:44-52 | the sizes are strictly increasing primes at or above the base |
| `Ngram.HeadOf` | c/src/ngram.c:44-52 | every id below the total belongs to exactly one head |
| `Ngram.SplitMixVectors` | c/src/ngram.c:12-17 | the hash gives the published numbers of the SplitMix64 generator |
| `Ngram.MultiplierVectors` | c/src/ngram.c:53-59 | the multipliers for the seed 0 and 100 tokens, as numbers |
| `Ngram.SeedMoves` | c/src/ngram.c:56-59 | from a seed one step further on the first multiplier is the second |
| `Ngram.ProductFits` | c/src/ngram.c:53-59 | whatever the hash, a token of the vocabulary times its multiplier fits an int64 |
| `Ngram.Compute` | c/src/ngram.c:37-60 | the whole geometry, refused exactly above sixteen heads |
| `NgramIds.ShiftedIsWindow` | c/src/ngram.c:66-84 | the scan for the last end-of-sequence token picks the token of the window |
| `NgramIds.ShiftRightIsWindow` | src/colibri_runtime/model.py:546-557 | the cumulative maximum of the Python code picks the same token |
| `NgramIds.WindowAfterPadding` | src/colibri_runtime/model.py:685-689 | context of end-of-sequence tokens is like no context |
| `NgramIds.ComputedProductsFit` | c/src/ngram.c:53-85 | with tokens of the vocabulary no product overflows |
| `NgramIds.MixedFits` | c/src/ngram.c:75-86 | and no mixed value sets the sign bit |
| `NgramIds.IdInRange` | c/src/ngram.c:87-91 | C's corrected remainder is Python's, and the id is in the range of its head |
| `NgramIds.HeadIdInRange` | c/src/ngram.c:87-91 | every id lies in its own head's table |
| `NgramIds.XorBits` | c/src/ngram.c:85-86 | an exclusive or has the binary digits in which the two numbers differ |
| `NgramIds.IdExactly` | c/src/ngram.c:71-92 | the id of a head is the number whose binary digits an odd number of the products of window tokens and multipliers has, reduced to the size of its table, plus its offset |
| `NgramIds.IdsAreLocal` | c/src/ngram.c:71-92 | ids depend only on the last ngram_size tokens |
| `NgramIds.SplitIds` | src/colibri_runtime/model.py:559-572 | splitting a chunk and carrying the context gives the same ids |
| `NgramIds.ChunksDoNotMatter` | src/colibri_runtime/model.py:685-689 | any split into chunks gives the ids of one pass |
| `NgramIds.PrevEos` | c/src/ngram.c:66-70 | the array of last end-of-sequence positions |
| `NgramIds.Mix` | c/src/ngram.c:74-86 | the mixed value of the window |
| `NgramIds.Indices` | c/src/ngram.c:62-94 | every output is the id of its position and head |
| `TopK.FrontIsTopK` | c/src/kernel.c:112-138 | the front of a partitioned permutation is a selection of the k largest |
| `TopK.TopKExists` | c/src/kernel.c:140-150 | there is a selection of every size |
| `TopK.ChosenAreLargest` | c/src/kernel.c:112-138 | if a score left out is finite, every chosen one is finite and at least as large |
| `TopK.Partition` | c/src/kernel.c:117-133 | a round keeps the range's indices and puts the pivot between larger and not larger values |
| `TopK.KthLargest` | c/src/kernel.c:114-138 | terminates with a permutation in which, if a score after the first k is finite, each of the first k is finite and at least as large |
| `TopK.TopKIndices` | c/src/kernel.c:140-150 | k different indices, or all; if the score at an index left out is finite, every chosen one is finite and at least as large |
| `QuantGemm.GroupFactors` | c/src/kernel.c:263-283 | scale times the nibble sum plus bias times the element sum is the dot product with the dequantized group |
| `QuantGemm.FactoredIsDot` | c/src/kernel.c:230-309 | the factored accumulator is the dot product with the dequantized row |
| `QuantGemm.PackedNibbles` | c/src/kernel.c:152-173 | nibble i of a word is the i-th one packed from its lowest bits up |
| `QuantGemm.RowValuesAt` | c/src/kernel.c:152-173 | a value of a row is a nibble of its word times the scale of its group plus its bias, eight to a word and the groups in order |
| `QuantGemm.DotGrows` | c/src/kernel.c:230-309 | a dot product is zero for nothing, and one more value adds one product |
| `QuantGemm.DequantRow` | c/src/kernel.c:152-173 | the array holds the values of all groups in order |
| `QuantGemm.GemmRow` | c/src/kernel.c:238-306 | four at a time and then one at a time, every output is the row times a dequantized row |
| `QuantGemm.Gemm` | c/src/kernel.c:230-309 | every entry of the product; nothing is written when a dimension is not positive |
| `CausalConv.OutputIsLocal` | c/src/kernel.c:311-324 | an output depends on its own row and the rows of one state before it only |
| `CausalConv.OutputExactly` | c/src/kernel.c:311-324 | an output sums each weight times the value as many rows back as its distance from the last weight times the dilation, where there is such a row |
| `CausalConv.SavedIsSuffix` | c/src/model.c:1180 | saving after two chunks is saving after both, however short they are |
| `CausalConv.SplitOutputs` | c/src/model.c:1177-1186 | processing two chunks gives the outputs of both at once |
| `CausalConv.ChunksDoNotMatter` | c/src/model.c:1513-1522 | any chunking gives one convolution over the state and all rows, for any dilation |
| `CausalConv.StreamedIsCausal` | c/src/model.c:1513-1522 | from a zero state it is the plain causal convolution |
| `CausalConv.Convolve` | c/src/kernel.c:311-324 | the array holds the convolution |
| `CausalConv.Layer.Step` | c/src/model.c:1177-1186 | the outputs of the chunk, and the state becomes the last rows of everything so far |
| `Moe.UniqueExperts` | c/src/model.c:1321-1332 | each selected expert once, and no other |
| `Moe.HandledOnce` | c/src/model.c:1321-1387 | every slot of every token is handled in the round of exactly one expert |
| `Moe.SumAddsExpert` | c/src/model.c:1376-1386 | the round of one more expert adds exactly its terms |
| `Moe.TokenSumExactly` | c/src/model.c:1376-1386 | the result of a token sums the weight of each slot times what the expert of the slot computes from the token |
| `Moe.Gather` | c/src/model.c:1354-1363 | the tokens that selected the expert, each once, in order |
| `Moe.ExpertRound` | c/src/model.c:1336-1387 | gathering, computing and scattering add the expert's terms to every token and nothing else |
| `Moe.Dispatch` | c/src/model.c:1320-1387 | the result is the token-wise weighted sum |
| `MoeSlots.PositionsDiffer` | src/colibri_runtime/model.py:438-440 | different slots have different positions |
| `MoeSlots.SlotsOf` | src/colibri_runtime/model.py:438-439 | the slots of an expert in row-major order |
| `MoeSlots.PositionsPermute` | src/colibri_runtime/model.py:438-448 | the positions of all experts together are a permutation of all slot positions |
| `MoeSlots.PutAlongAxis` | src/colibri_runtime/model.py:450-455 | every placed result is found at its position |
| `MoeSlots.DispatchSlots` | src/colibri_runtime/model.py:433-457 | the result is the token-wise weighted sum, as in C |
| `SparseMask.EnoughBlocks` | c/src/model.c:955-959 | there are at least as many blocks as are chosen |
| `SparseMask.VisibleExactly` | c/src/model.c:1045-1046 | the visible blocks are those before the own tail |
| `SparseMask.KeptExactly` | c/src/model.c:1064-1079 | in plain numbers: the keys up to the query that lie in a chosen block, or after the last block that ends at or before the query |
| `SparseMask.SameKeys` | c/src/model.c:1064-1079 | for one selection the C and the Python mask keep the same keys, though C leaves invisible blocks in it |
| `SparseMask.SelectionsKeepSame` | c/src/model.c:1049-1079 | for two selections the masks keep the same keys exactly when these agree on the visible blocks |
| `SparseMask.MasksAgreeExactly` | src/colibri_runtime/model.py:278-294 | all selections of the best blocks keep the same keys exactly when no visible score is tied across the cut |
| `SparseMask.TiedMasksDiffer` | src/colibri_runtime/model.py:278-294 | two blocks with equal scores of which one is chosen: the two selections keep different keys |
| `SparseMask.KeptAtMost` | c/src/model.c:1064-1079 | a query keeps at most budget plus ratio minus one keys |
| `SparseMask.KeptAtLeastOne` | c/src/model.c:1064-1079 | and at least one |
| `SparseMask.ApplyMask` | c/src/model.c:1064-1080 | exactly the keys up to the query that are not kept get minus infinity |

## Left out

- ProbeTable.Table.Find: hash functions are arbitrary; slot counts are any positive number, of which the powers of two of the source are a case.
- Cache.Store.PutValue: value ownership (freeing a refused or evicted value), the lock, `cache_destroy` and `cache_snapshot` are not modelled; byte counters are unbounded integers.
- CacheSpec.ScoredVictim: scores are real numbers, not doubles.
- ExpertCache.FairShareAgrees: division is exact, while Python rounds the quotient to a double, which can differ for byte limits above 2^53.
- ExpertCache.Cache.Get: statistics that only report (seconds, load counts) and the snapshot are left out.
- ExpertStore.Store.RequestMany: the children of one group of reads complete one by one in any order, which includes their completing together; reads are atomic and the lock makes each step atomic.
- ExpertStore.Store.PrefetchAll: the choice of predicted keys by counting transitions is a parameter; requests are those of one consumer.
- Json.Cursor.ParseValue: value trees are not built, only offsets and string bytes; numbers are recognised by an arbitrary scanner in place of strtod.
- Pretoken.StuckExactly: character classes are an arbitrary function of the code point, in place of ICU.
- PretokenPattern.PieceIsMatch: the classes of the space and the two newline characters are space, and case is that of ASCII letters, as in the source.
- ExpertStore.Store.Get: whether the value of a future can be materialized is an arbitrary outcome for each future.
- Tokenizer.RoundTrip: texts are the bytes before the terminating NUL; parsing the vocabulary file into keys, lines and added tokens is left out.
- TokenizerEncode.EncodeText: where the source would loop without end the method reports it; the merge table has slots, while the source leaves it without any when the vocabulary file has no "merges" key (c/src/tokenizer.c:743), and its lookup is then undefined for a piece of two or more bytes.
- TokenizerRoundTrip.BuildTables: the largest id is given; the source tracks it while it parses the file.
- RowIo.Disk.Pread: a file does not change while it is read; a script of events stands for the operating system.
- RowFallback.ReadRowsFallback: unlike the C reader, the source treats a short read as an error, and so does the model.
- ReaderBlock.ReadBlock: only the read loop of `read_rows_impl`; its runs and its scattering are those proved on native/rowio.c.
- IoPool.StepOk: what a job reads and its status are not modelled; a signal wakes one sleeping worker, more is covered by spurious wake-ups; jobs are submitted once and before the pool stops.
- Primes.IsPrime: exact integers; the square in the loop condition overflows an int64 only for candidates near 2^63.
- Ngram.Compute: the arrays are sequences; the seed is given.
- NgramIds.Indices: rows of the output are rows of a matrix; exclusive or is on nonnegative integers, which the products are for tokens of the vocabulary.
- NgramIds.ChunksDoNotMatter: the carried context is that of the Python code; c/src/model.c keeps two tokens of its own (lines 1651-1662), which is not modelled.
- QuantGemm.Gemm: rows of the flat buffers are sequences and sums are exact; the heap buffer for more than 512 groups is like the one on the stack.
- CausalConv.Layer.Step: bf16 weights are real numbers; the activation after the convolution is left out.
- Moe.Dispatch: an expert is an arbitrary function of a token's vector; routing weights are given; loading experts and its errors are left out, and so is the shared expert.
- MoeSlots.DispatchSlots: the sorted distinct experts are given in any order.
- SparseMask.MasksAgreeExactly: the block scores are given; that C and Python compute different scores is left out.
- Floating-point rounding, softmax, normalisation, rotary embedding and the vendor matrix libraries.
- The per-layer embedding store, the key and value caches, configuration, file opening, the command line and benchmarks.
