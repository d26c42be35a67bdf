# namfinder core, modelled in Dafny

This project models the sequential core of namfinder, a read mapper that finds NAMs ("non-overlapping
approximate matches", chains of colinear seed hits) between a read and a set of reference sequences.
The model covers:

- the bit-packed records of the strobemer index: the `RefRandstrobe` occurrence word, the
  direct/indirect `RandstrobeMapEntry`, and the `StrobemerIndex` accessors (`index_records.dfy`);
- the seeding parameters: validating constructor, derived fields, six-integer serialisation,
  equality and file-name extension (`index_params.dfy`);
- the NAM finder: hit collection with the running-minimum filter (`add_to_hits_per_ref`), the
  seed loop of `find_nams` with its good/total counting, and the colinear sweep of
  `merge_hits_into_nams` with extension, flushing, scoring and identifiers (`nam_types.dfy`,
  `nam_merge.dfy`, `nam_finder.dfy`);
- per-read post-processing: the strand check and flip of `reverse_nam_if_needed`, the two NAM
  orders, and the sort / keep-best-L / re-sort selection of `align_SE_read` (`aln.dfy`);
- the sequential parts of the producer/consumer driver: `distribute_interleaved`, the reorder
  buffer of `OutputBuffer::output_records`, and the chunk counter of `InputBuffer` (`pc.dfy`).

The model is purely functional. Source containers become `seq`, `map` and `set`. Unsigned machine
integers are subset types of `int`, with conversions written out where the source relies on them.
Thrown exceptions and failed lookups become `Result` and `Option`. `std::sort` is a sorted
permutation built by a generic insertion sort (`sorting.dfy`). The iteration order of the
`hits_per_ref` hash map is a parameter: any order that lists every key once.

The code is followed where it differs from its documentation:

- `k = 8` is accepted (the test is `k <= 7`).
- `max_dist` is always set to 255, so its range error can never be raised.
- `filename_extension` always returns `".sti"`.

`DirectEntryKeepsOnly23ReferenceBits` records one observation. A direct map entry keeps only 31
bits of the packed occurrence word, so its reference index loses bit 23. Whether such entries are
ever built is decided in `populate`, which is not part of this model.

## Model

| member | source | states |
|---|---|---|
| IndexRecords.PackRoundTrip | src/index.hpp:39-45 | A reference index below 2^24 and an offset below 256 packed as `(ref << 8) \| off` come back unchanged from `reference_index` and `strobe2_offset`. |
| IndexRecords.UnpackRoundTrip | src/index.hpp:39-45 | The two fields cover the whole 32-bit word: repacking them gives the original word. |
| IndexRecords.RefRandstrobe.ReferenceIndex | src/index.hpp:39-41 | `m_packed >> 8` is always below 2^24. |
| IndexRecords.RefRandstrobe.Strobe2Offset | src/index.hpp:43-45 | `m_packed & 255` is always below 256. |
| IndexRecords.IsDirectIffHighBit | src/index.hpp:89-91 | An entry is direct exactly when bit 31 of its count word is set. |
| IndexRecords.RandstrobeMapEntry.Count | src/index.hpp:76-82 | The count is 1 for a direct entry and the stored count word otherwise, and it never has bit 31 set. |
| IndexRecords.RandstrobeMapEntry.Offset | src/index.hpp:84-87 | The offset of an indirect entry is what `set_offset` stored: setting it back to the value read leaves the entry unchanged. |
| IndexRecords.RandstrobeMapEntry.AsRefRandstrobe | src/index.hpp:93-96 | A direct entry gives its offset word as position and its count word with bit 31 cleared as the packed word. |
| IndexRecords.RandstrobeMapEntry.SetCount | src/index.hpp:98-100 | Setting the count keeps the offset, and the entry becomes direct exactly when the new count has bit 31 set. A word without bit 31 reads back as the count. A word with it reads back as the occurrence at the kept offset, whose packed word is the new word without bit 31. |
| IndexRecords.RandstrobeMapEntry.SetOffset | src/index.hpp:102-105 | Setting the offset of an indirect entry keeps it indirect, with the same count and the new offset. |
| IndexRecords.DirectRoundTrip | src/index.hpp:89-96 | An occurrence whose packed word leaves bit 31 free, stored as a direct entry, comes back whole, with count 1. |
| IndexRecords.IndirectRoundTrip | src/index.hpp:74-91 | An indirect entry with a count below 2^31 gives back its offset and count. |
| IndexRecords.DirectEntryKeepsOnly23ReferenceBits | src/index.hpp:93-96 | A direct entry for an occurrence on reference 2^23 reads back as reference 0. |
| IndexRecords.StrobemerIndex.Find | src/index.hpp:147 | `find` yields a position exactly when the hash is present. |
| IndexRecords.StrobemerIndex.GetCount | src/index.hpp:148-149 | `get_count` is the top 28 bits of the stored hash, so it is below 2^28. |
| IndexRecords.CountInHashRoundTrip | src/index.hpp:174-177 | A hash whose top 28 bits hold a count yields that count, whatever its low 36 bits. |
| IndexRecords.GetHashSentinel | src/index.hpp:154-160 | `get_hash` returns the stored hash in range and 2^64 - 1 (the converted -1) out of range. |
| IndexRecords.StrobemerIndex.GetHash | src/index.hpp:154-160 | — (no contract of its own; `GetHashSentinel` states what it returns) |
| IndexRecords.StrobemerIndex.GetStrob1Position | src/index.hpp:162-164 | — (no contract of its own; `IndexAccessorsRoundTrip` states what it returns) |
| IndexRecords.StrobemerIndex.Strobe2Offset | src/index.hpp:166-168 | The vector accessor uses the same 8-bit split as `RefRandstrobe`. |
| IndexRecords.StrobemerIndex.ReferenceIndex | src/index.hpp:170-172 | The vector accessor uses the same 8-bit split as `RefRandstrobe`. |
| IndexRecords.IndexAccessorsRoundTrip | src/index.hpp:162-172 | An occurrence packed into a vector element is read back by `get_strob1_position`, `reference_index` and `strobe2_offset`. |
| IndexParams.Verify | src/indexparameters.hpp:46-59 | `verify` passes exactly when k is in [8, 32], s <= k, k - s is even and `max_dist` <= 255. It reports `max_dist` only when the first three checks pass. |
| IndexParams.Make | src/indexparameters.hpp:24-36 | Construction succeeds exactly when 8 <= k <= 32, s <= k and k - s is even. It stores k, s, l, u and the filter cutoff as given, forces `max_dist` to 255, sets the syncmer threshold to (k - s) / 2 + 1, and sets both window bounds to at least 1. It never reports the `max_dist` error. |
| IndexParams.MakeErrorOrder | src/indexparameters.hpp:46-55 | The error reported is the first check that fails: k range, then s > k, then parity. |
| IndexParams.EqualityLaws | src/indexparameters.cpp:43-54 | `==` compares all nine fields, so it is value equality: reflexive and symmetric. `!=` is its negation. |
| IndexParams.ConstructedEqualIff | src/indexparameters.hpp:24-33 | Two constructed objects are equal exactly when their k, s, l, u and filter cutoff agree. |
| IndexParams.Write | src/indexparameters.cpp:23-31 | `write` emits six integers: k, s, l, u, max_dist, filter_cutoff. |
| IndexParams.Read | src/indexparameters.cpp:33-41 | On six or more integers, `read` succeeds exactly when the constructor accepts the first two (k and s) and fails with an `Invalid` error otherwise. A success is a valid object whose k, s, l, u and filter cutoff are the first, second, third, fourth and sixth integers. Its `max_dist` is 255 whatever the fifth integer is, and the rest of the stream is returned. A stream of fewer than six integers gives the model's own `StreamTooShort`, which stands in for the unmodelled end-of-stream behaviour of `read_int_from_istream`. |
| IndexParams.WriteReadRoundTrip | src/indexparameters.cpp:23-41 | Reading what `write` wrote gives back the same object and leaves the rest of the stream. |
| IndexParams.FilenameExtensionConstant | src/indexparameters.cpp:61-69 | The extension is ".sti" for every parameter object. |
| NamMerge.Extend | src/nam.cpp:98-111 | Extending by a colinear hit keeps the identifier, the starts, the reference and the strand. The ends become maxima, the previous-hit starts become the hit's starts, the hit count grows by one, and the NAM's coordinate shape is kept. |
| NamMerge.NewNam | src/nam.cpp:115-132 | A new NAM has the next identifier, one hit, the hit's spans and strand, and the group's reference. |
| NamMerge.FirstExtendable | src/nam.cpp:75-113 | The open NAM chosen is the first one the hit is colinear with, and there is none exactly when no open NAM is colinear with it. |
| NamMerge.Finalize | src/nam.cpp:140-145 | Scoring changes only the score. The score is 1 when 2 * min_span - max_span is not positive. It is never below n_hits * (2 * min_span - max_span), at least 1, and at most n_hits * min_span (or 1). |
| NamMerge.FlushDue | src/nam.cpp:135 | — (no contract of its own; `FlushDueWithoutWrap` and `ProcessHitFlush` state its meaning) |
| NamMerge.FlushDueWithoutWrap | src/nam.cpp:135 | When `prev_q_start + k` and the hit's start fit in 32 bits, the unsigned test is the plain `h.query_s > prev_q_start + k`. |
| NamMerge.AddHit | src/nam.cpp:73-132 | — (no contract of its own; `FirstExtendable`, `Extend`, `NewNam` and `SweepHitsInv` state what it does) |
| NamMerge.ProcessHit | src/nam.cpp:73-155 | — (no contract of its own; `ProcessHitFlush` and `SweepHitsInv` state what it does) |
| NamMerge.SweepHits | src/nam.cpp:72-156 | — (no contract of its own; `SweepHitsInv` states the invariant it keeps) |
| NamMerge.FinalizeOneHit | src/nam.cpp:140-145 | A one-hit NAM whose 2 * min_span - max_span is positive scores exactly that amount. |
| NamMerge.FinalizePerHit | src/nam.cpp:140-145 | With the spans fixed and 2 * min_span - max_span positive, each further hit adds exactly 2 * min_span - max_span to the score, so the score is n_hits times that amount. |
| NamMerge.SplitIds | src/nam.cpp:138-153 | The NAMs a flush emits and the NAMs it keeps open together hold every open identifier exactly once, because both steps use the predicate `query_e < h.query_s`. |
| NamMerge.SplitHits | src/nam.cpp:138-153 | A flush keeps the total hit count of emitted plus open NAMs. |
| NamMerge.SplitMembers | src/nam.cpp:138-153 | Emitted NAMs end before the hit; NAMs kept open reach it. |
| NamMerge.SurvivorsIncreasing | src/nam.cpp:153 | The stable removal keeps the open NAMs in creation order. |
| NamMerge.ProcessHitFlush | src/nam.cpp:134-155 | A flush happens only when the hit passes the checkpoint by more than k, compared as unsigned values. It moves the checkpoint to the hit, appends only NAMs ending before the hit, and keeps open only NAMs that reach it. Without a flush, the checkpoint and the emitted NAMs do not change. |
| NamMerge.SweepHitsInv | src/nam.cpp:73-156 | The sweep over a group's hits keeps four facts. Identifiers from the first to the next are held once each, with the open NAMs in creation order. Every processed hit is counted in exactly one NAM. Every NAM starts at a processed hit, on the group's reference and strand. With well-formed hits, every NAM keeps its shape. |
| NamMerge.FinishFacts | src/nam.cpp:158-167 | Scoring and emitting the NAMs still open at the end of a group leaves every identifier emitted once, every hit counted once and every score at least 1. |
| NamMerge.HitBeforeIsStrictOrder | src/nam.cpp:64-67 | The optional hit sort (query start, then reference start) is a strict order. |
| NamMerge.GroupOrder | src/nam.cpp:63-69 | With sorting, the hits are a sorted permutation of the group. Without it, they are the group as stored. |
| NamMerge.MergeGroup | src/nam.cpp:62-168 | For one group: identifiers `first .. next - 1` each used once, n_hits adding up to the group size, scores at least 1, every NAM starting at one of the group's hits, shape kept for well-formed hits. |
| NamMerge.MergeGroups | src/nam.cpp:61-168 | Over the groups in map order, identifiers keep counting across groups, and every NAM lies on a visited reference and starts at one of its hits. |
| NamMerge.MergeHitsIntoNams | src/nam.cpp:55-171 | The NAM identifiers are exactly 0 .. n - 1. The n_hits add up to the number of hits in the map. Every score is at least 1. Every NAM starts at one of its reference's hits. |
| NamMerge.MergeExample | src/nam.cpp:98-167 | Three hits on one reference, the second colinear with the first, give two NAMs with identifiers 0 and 1 and scores 36 and 10. |
| NamFinder.OccurrenceHit | src/nam.cpp:43-47 | A hit built from an occurrence has the seed's query span and strand. Its reference start is the occurrence position as an `int`. Its reference span is the strobe-2 offset plus k. It goes to the occurrence's reference. |
| NamFinder.RunningMinIsLeast | src/nam.cpp:46-48 | The running minimum is the least of the starting bound and the earlier differences. |
| NamFinder.KeptIffWithinRunningMin | src/nam.cpp:45-50 | An occurrence is kept exactly when its difference is at most the bound and at most every earlier difference in the run. |
| NamFinder.KeptHitsCarry | src/nam.cpp:42-51 | A run of `count` occurrences yields at most `count` hits, each carrying the seed's query span and strand. |
| NamFinder.KeptHitsBounds | src/nam.cpp:45-48 | Every kept difference lies between the final running minimum and the starting bound. |
| NamFinder.KeptHitsNonIncreasing | src/nam.cpp:42-51 | The differences of the accepted hits never increase along the run. |
| NamFinder.SingleOccurrence | src/nam.cpp:30-39 | The `count == 1` branch is the loop with a run of one occurrence: the occurrence is kept exactly when its difference is within the bound. |
| NamFinder.AddToHitsPerRef | src/nam.cpp:15-53 | The pushes made are the kept hits of the run, in storage order, and `tot_hits` grows by exactly their number. |
| NamFinder.HitsPerRef | src/nam.cpp:36-47 | The map's keys are exactly the references that received a push. |
| NamFinder.PushOntoGroup | src/nam.cpp:36-47 | A push appends to the vector of its own reference and to no other. |
| NamFinder.GroupsPartitionHits | src/nam.cpp:62 | Visiting the map in any order that lists each key once visits every pushed hit exactly once. |
| NamFinder.GoodAtMostFound | src/nam.cpp:193-205 | 0 <= nr_good_hits <= total_hits <= the number of seeds. |
| NamFinder.OnlyGoodSeedsHit | src/nam.cpp:195-204 | An absent seed, or one above the filter cutoff, adds no hit. A good seed adds at most its count. |
| NamFinder.CollectHits | src/nam.cpp:193-206 | The seed loop pushes exactly the hits of the good seeds, with the running minimum restarting at 100000 for each. It counts found seeds and good seeds, and `tot_hits` is the number of pushes. |
| NamFinder.AllHitsWellFormed | src/nam.cpp:43-47 | With k >= 0 and seeds whose span is not reversed, every pushed hit is well formed. |
| NamFinder.MergedNamsFacts | src/nam.cpp:211 | The NAMs merged from the collected hits have identifiers 0 .. n - 1, account for every pushed hit once, score at least 1, and start at hits of their own reference. |
| NamFinder.FindNams | src/nam.cpp:181-215 | The fraction is good/total, and 1 when no seed is found, so it lies in [0, 1]. It is 1 exactly when every found seed is good. The NAMs satisfy everything `MergeHitsIntoNams` promises for the collected hits. |
| NamFinder.Fraction | src/nam.cpp:210 | good/total lies in [0, 1], is 1 when total is 0, and is 1 exactly when good == total. |
| Aln.Substr | src/aln.cpp:36-48 | `substr` throws exactly when the position is negative or past the end. A count reaching past the end takes the rest of the string. |
| Aln.Flip | src/aln.cpp:55-63 | The flipped NAM has the other strand, query coordinates mirrored through the read length, the same query span, and the reference side unchanged. |
| Aln.FlipInvolution | src/aln.cpp:55-56 | Mirroring twice through the read length gives back the NAM. |
| Aln.ReverseNamIfNeeded | src/aln.cpp:34-67 | The NAM returned is the input or its flip. |
| Aln.ReverseNamUnchangedIff | src/aln.cpp:36-51 | The result is `true` with the NAM unchanged exactly when both boundary k-mers match in the presumed orientation. |
| Aln.ReverseNamTrueIsConsistent | src/aln.cpp:49-65 | After a `true` result, the NAM's boundary k-mers match in its own orientation. |
| Aln.ReverseNamChangedIsFlipped | src/aln.cpp:55-65 | A changed NAM was flipped, and the result is `true`. |
| Aln.ReverseNamFalseMeansNoMatch | src/aln.cpp:49-66 | A `false` result leaves the NAM unchanged, and its boundary k-mers do not match as it stands. |
| Aln.ReverseNamFalseMeansNoFlippedMatch | src/aln.cpp:55-66 | After a `false` result, the flipped NAM's boundary k-mers do not match either. |
| Aln.ReverseNamKeepsReferenceSide | src/aln.cpp:34-67 | The reference, its span, the hit count, the score and the identifier are never modified, and the query span is kept. |
| Aln.InRangeNeverThrows | src/aln.cpp:36-59 | When every extracted k-mer position is in range, the function does not throw. |
| Aln.ReferenceOutOfRangeThrows | src/aln.cpp:36-37 | A reference k-mer position outside the reference throws. |
| Aln.ReverseNamIdempotent | src/aln.cpp:34-67 | Checking a NAM that the check accepted again returns `true` and changes nothing. |
| Aln.OrdersAreStrict | src/aln.cpp:76-82 | Both `compareByQueryCoord` and the score order of lines 20-22 are irreflexive and transitive. |
| Aln.OrdersAreWeak | src/aln.cpp:76-82 | Two NAMs are unordered exactly when their keys are equal, so `compareByQueryCoord` and the score order of lines 20-22 are strict weak orders as `std::sort` requires. |
| Aln.CompareByQueryCoordIsLexicographic | src/aln.cpp:76-82 | `compareByQueryCoord` is the lexicographic order on (reference id, query start, reference start). |
| Aln.TopByScore | src/aln.cpp:115-121 | After the descending-score sort and the cut, there are min(L, \|nams\|) NAMs taken from the input, in score order, none scoring below a dropped NAM. |
| Aln.SelectNams | src/aln.cpp:115-127 | The reported NAMs are the best min(L, \|nams\|) by score. They are sorted by coordinates unless `sort_on_scores` is set. |
| Aln.KeptOutscoreDropped | src/aln.cpp:119-121 | In a score-sorted sequence, no NAM after the cut outscores one before it. |
| Pc.PairingFlattens | src/pc.cpp:40-48 | The interleaved reading keeps every record once, in input order. |
| Pc.PairingIsGreedyByName | src/pc.cpp:41-47 | Pairs are made only of consecutive records with equal names. No single record is followed by a record of the same name. |
| Pc.PairingCounts | src/pc.cpp:40-48 | The two pair outputs grow equally, and the three outputs together receive every record once. |
| Pc.SplitCounts | src/pc.cpp:41-44 | Both halves of each pair are at the same place in the two pair outputs, with matching names. |
| Pc.DistributeInterleaved | src/pc.cpp:22-52 | The outputs are only appended to. They grow by the pairs and singles of the look-ahead and the chunk read together in order, so a pending look-ahead is paired with the first record when the names agree. The pair outputs grow equally, the total growth is \|records\| plus one for a pending look-ahead, and the look-ahead is always empty on return. |
| Pc.PiecesAsWritten | src/pc.cpp:22-52 | For a caller that distributes the chunks one after another, passing on the look-ahead each call leaves, every record is distributed once, in order. No caller appears in the source; `InputBuffer::lookahead1` suggests this one. |
| Pc.SplitPairNeverJoined | src/pc.cpp:40-51 | Two records of one pair, read in two chunks, come out as two single records. Read together, they are a pair. |
| Pc.HoldKeepsRecords | src/pc.cpp:40-51 | The corrected step emits the records before the held one, then holds at most one record. |
| Pc.HoldThenPairing | src/pc.cpp:40-51 | Holding the last record back and pairing it with what follows equals pairing the whole input. |
| Pc.CarriedPiecesPairWhole | src/pc.cpp:30-51 | With the look-ahead carried between chunks, the chunk boundaries do not change the pairing. |
| Pc.CarriedPairJoined | src/pc.cpp:30-51 | Under the same assumed chunk-by-chunk caller, the corrected look-ahead joins the pair that the code as written splits. |
| Pc.Drain | src/pc.cpp:96-104 | The write loop writes the waiting chunks from the due index on, in index order, stopping at the first index not waiting. It removes exactly those chunks and touches nothing else. |
| Pc.OutputRecords | src/pc.cpp:90-106 | The chunk must not be waiting already. Afterwards the due index is not waiting and has not moved back. The output grew by the chunks from the old due index to the new one, in order, and nothing is written unless the chunk handed in is the due one. |
| Pc.SubmitStep | src/pc.cpp:90-106 | Handing in a chunk not handed in before keeps the buffer in step: everything below the due index has been written, in order, and exactly the later submitted chunks are waiting. |
| Pc.SubmitAll | src/pc.cpp:90-106 | Any sequence of distinct new chunk indices keeps the buffer in step with the submissions. |
| Pc.SubmitPermutation | src/pc.cpp:93-104 | Handing in chunks 0 .. n - 1 once each, in any order, writes their concatenation in index order and leaves nothing waiting. |
| Pc.OutputOrderExample | src/pc.cpp:93-104 | Four chunks handed in as 2, 0, 3, 1 are written as "abcd". |
| Pc.ReadRecords | src/pc.cpp:55-78 | `read_records` returns the index from before the call and increments it. A count of -1 means the chunk size. The chunk is the next records of the stream, and an empty chunk marks the input finished. |
| Pc.RewindReset | src/pc.cpp:80-88 | After `rewind_reset`, the stream is at its start, the input is not finished and numbering restarts at 0, as after opening. |
| Pc.ReadAll | src/pc.cpp:55-78 | Reading chunks until an empty one gives consecutive indices and non-empty chunks that together are the rest of the stream. |
| Pc.RewindRereads | src/pc.cpp:80-88 | After a rewind, the whole stream is read again in chunks numbered from 0, exactly as on the first pass. |

## Left out

- `StrobemerIndex::find`, `populate`, `read`, `write` and `print_diagnostics` have no bodies to follow. `find` is a finite map from hash to vector position. The index is the flat vector plus that map. `WellFormed` states what lookups rely on: positions are `unsigned int`, and every found position starts a run of `count` entries inside the vector.
- NamFinder.AddToHitsPerRef: requires the run `position .. position + count - 1` to lie inside the vector. The source reads the vector without a bound check there, and `WellFormed` guarantees the condition for every position `find` returns.
- All C++ `int` arithmetic is modelled on unbounded integers, so signed overflow, which is undefined behaviour in C++, is not modelled anywhere. This covers `ref_e = ref_s + strobe2_offset + k`, the span differences, `read_len - query_e`, the score product `n_hits * (2 * min_span - max_span)`, and `k - s` in the parameter constructor and in `verify`. The conversion of the `unsigned` strobe-1 position to `int`, and the unsigned flush comparison `h.query_s > prev_q_start + k`, are modelled exactly.
- The NAM score is a `float` in the source. It is an `int` here. The products involved are integers, and the model does not round them.
- The `nonrepetitive_fraction` is a `float` in the source. It is an exact `real` here, together with the integer counts it is computed from.
- `std::sort` is unstable. The model sorts with one particular stable insertion sort and states only what holds for every sorted permutation: the multiset is kept and the order is sorted.
- The iteration order of `robin_hood::unordered_map` is unspecified. It is a parameter of `MergeHitsIntoNams` and `FindNams`.
- Aln.SelectNams: `L` is taken as a non-negative count. The source's conversion of a negative `L` to `unsigned` is not modelled.
- Aln.Read: `Read::size()` is not part of this model. It is taken to be the length of the read sequence.
- The reverse complement, `randstrobes_query`, `output_nams` and reference loading are outside the core. The read's reverse complement is an input.
- The mutexes, threads, `perform_task` and the FASTQ parsing are left out. The record stream is an abstract sequence of records, and `ks2` (the second input file) is not modelled.
- IndexParams.Make: the parameters are unbounded integers. For an `s` so negative that `k - s` overflows a 32-bit `int` (k = 10, s = -2147483640), the model accepts and derives t_syncmer = 1073741826, where the C++ has undefined behaviour. The guarantee `tSyncmer >= 1` holds only of the model.
- IndexParams.Read: `read_int_from_istream` is not part of this model, so its behaviour at the end of the stream is unknown. The model's `StreamTooShort` error stands in for it; the source has no such error.
- Pc.ReadRecords: requires the count to be -1 (with a non-negative chunk size) or non-negative. What the record reader does with other counts is not part of this model.
- Pc.OutputRecords: requires the chunk index not to be waiting, as the source's `assert` does. What a release build does when that assertion is compiled out is not modelled.
- `size_t` chunk indices are unbounded naturals. Their wrap-around after 2^64 chunks is not modelled.

## Findings

| source | as written | input that shows it | evidently intended | confidence | as-written member | corrected member |
|---|---|---|---|---|---|---|
| src/pc.cpp:40-51 | The scan loop runs until `it == records.end()`, so the look-ahead assignment at lines 49-51 never runs. A record whose mate starts the next chunk is emitted as single, and so is its mate. | Two chunks `[r]` and `[r']` whose records share a name, distributed by two calls that pass the look-ahead on. No caller appears in the source; `InputBuffer::lookahead1` suggests this one. The result is two single records rather than one pair. | The last unpaired record of a chunk is held back as the look-ahead and paired with the next chunk's first record when their names agree, so that how the input is cut into chunks does not change the pairing. | medium, not executed | Pc.SplitPairNeverJoined | Pc.CarriedPiecesPairWhole |
