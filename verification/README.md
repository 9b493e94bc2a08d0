# E-LSH fingerprints for fuzzy PSI over Hamming distance, in Dafny

This project models the deterministic core of FuzzyPSI-hamming. That core is the E-LSH
"Fmap" fingerprint scheme, which turns a binary vector into a set of tags `(l, parity)`,
so that two vectors within Hamming distance delta are likely to share a tag. The scheme
exists twice: as the C++ class `ELSHFmap` (elsh.h, elsh.cpp) and as the Python class of
the evaluation script (test.py). The project also models:

- that script's test-data generator and its confusion-matrix count;
- the C++ vector helpers (utils.cpp);
- the `CommStats` byte counters (utils.h);
- the XOR-based primitives of secure_primitives.h: equality shares, `testAnyOne`, and the
  simplified oblivious transfer.

Randomness and floating point are inputs to the model. The entropy of each dimension
enters as two things:

- a ranking: the order in which sorting by entropy leaves the dimensions;
- a predicate `high`: whether the entropy exceeds tau.

One consequence for the C++ pool: its top-up loop (elsh.cpp:60-68) never adds a dim,
for any entropies. A first pass shorter than k*L has already kept all d dims
(`ElshCpp.PoolIsFirstPass`).

Every PRNG outcome is an explicit argument: shuffles, `np.random.choice` draws, raw
`randint` draws, `getBit` results, mask bytes and keys. With these as inputs, every
operation is a pure function or a loop over sequences.

Modules, one per file:

- `SeqFacts` (seq_facts.dfy): distinctness, index ranges, permutations of 0..n-1.
- `Results` (results.dfy): the Python exceptions, as a `Result` type.
- `Vectors` (vectors.dfy): byte vectors, Hamming distance, flipping positions.
- `Tags` (tags.dfy): the tag `(l, p)` and its string key `"l||p"`.
- `Fingerprint` (fingerprint.dfy): what both implementations share. This is k, drawing
  subsets, parity, and ID sets.
- `ElshCpp` (elsh_cpp.dfy): the C++ class.
- `ElshPy` (elsh_py.dfy): the Python class.
- `Harness` (harness.dfy): test.py's `hamming_distance`, `generate_test_data_balanced`
  and the counting loop of `run_experiment`.
- `Utils` (utils.dfy): utils.cpp.
- `Stats` (comm_stats.dfy): `CommStats`.
- `SecurePrimitives` (secure_primitives.dfy): secure_primitives.h.

## Model

| member | source | states |
|---|---|---|
| `Fingerprint.SubsetSize` | elsh.cpp:10-11 | k satisfies k*(delta+1) >= d and (k-1)*(delta+1) < d, so k = ceil(d/(delta+1)). test.py:39 computes the same value. |
| `Fingerprint.SubsetSizeAtMostD` | elsh.cpp:10-11 | k never exceeds d, so k dims can always be found among the d dimensions. |
| `Fingerprint.DrawSubsets` | elsh.cpp:71-90 | There is one subset per shuffle. Each has min(k, \|pool\|) entries, all from the pool, with none repeated when the pool has no repeats. |
| `Fingerprint.DrawSubset` | elsh.cpp:80-86 | A subset is the first min(k, \|pool\|) candidates after the shuffle: that many pool entries, repetition-free for a repetition-free pool. |
| `Fingerprint.Parity` | elsh.cpp:96-101 | On a 0/1 vector the XOR of the subset's in-range entries is 0 or 1. test.py:92-94 computes the same XOR, without skipping dims. |
| `Fingerprint.ParityCountsOnes` | elsh.cpp:96-101 | On a 0/1 vector the parity is 0 or 1. It is 1 exactly when an odd number of the subset's in-range dims hold a 1. |
| `Fingerprint.ParityDependsOnSubsetOnly` | elsh.cpp:98-101 | Two equally long vectors that agree on every in-range dim of a subset have the same parity on it. Dims past the end are skipped. |
| `Fingerprint.TagsUpToMembers` | elsh.cpp:95-107 | After n rounds of the loop the set holds exactly the tags (l, parity on subset l) with l < n. |
| `Fingerprint.TagsUpToBelow` | elsh.cpp:95-107 | After n rounds every tag has a subset index below n. |
| `Fingerprint.TagsUpToSize` | elsh.cpp:95-107 | After n rounds the set holds n tags: the inserts never collide. |
| `Fingerprint.ComputeId` | elsh.cpp:92-110 | The ID set has exactly \|subsets\| tags. It contains (l, parity on subset l) for each l, and no other tag. |
| `Fingerprint.TagsCarryBits` | elsh.cpp:95-107 | For a 0/1 vector every tag's parity is 0 or 1. |
| `Fingerprint.AddFreshTags` | test.py:363-364 | Adding the tags of a new subset index to both ID sets grows their intersection by one exactly when the two new tags coincide. |
| `Fingerprint.IntersectionCountsAgreements` | test.py:363-364 | The intersection size of two ID sets equals the number of subsets on which the two vectors have equal parity. |
| `Fingerprint.AgreementsPositive` | test.py:363 | The agreement count is positive exactly when some subset gives both vectors equal parity. |
| `Fingerprint.IdsIntersect` | test.py:363 | Two ID sets intersect exactly when some subset gives both vectors the same parity. This holds in both directions. |
| `Fingerprint.AgreeingVectorsCollide` | elsh.cpp:92-110 | If two vectors agree on every in-range dim of subset l, both ID sets contain the tag for l. |
| `Tags.Decimal` | elsh.cpp:105 | `std::to_string` of a non-negative number is a non-empty digit string, with at least two digits from 10 on. |
| `Tags.ReadDecimalRoundTrip` | elsh.cpp:105 | Reading back the decimal rendering of n gives n. |
| `Tags.DigitRun` | elsh.cpp:105 | The leading run of digits of a string lies within the string and holds only digits. |
| `Tags.DigitRunStopsAtBar` | elsh.cpp:105 | In a key "digits\|\|...", the leading digit run is exactly the rendered index. |
| `Tags.Render` | elsh.cpp:105 | In the key of a tag, the leading digit run reads back as l. Two bars follow it, and the rest is digits that read back as the parity. test.py:96 builds the same key. |
| `Tags.ParseRender` | elsh.cpp:105 | Parsing the key "l\|\|p" of a tag gives the tag back. |
| `Tags.RenderInjective` | elsh.cpp:104-106 | Two tags have the same key exactly when they are equal. So the sets of string keys in both implementations behave like sets of tags. |
| `Tags.RenderKeepsMembership` | test.py:96-97 | A key is in the set of rendered keys exactly when its tag is in the ID set. |
| `Vectors.Mismatches` | utils.cpp:58-62 | The set of positions below m where the vectors differ, as an iff. |
| `Vectors.MismatchesStep` | utils.cpp:58-62 | One more position adds one mismatch exactly when the vectors differ there. |
| `Vectors.HammingSymmetric` | utils.cpp:54-65 | The Hamming distance is symmetric. |
| `Vectors.HammingBounded` | utils.cpp:54-65 | The Hamming distance is at most the length of the shorter vector. |
| `Vectors.HammingZeroIff` | utils.cpp:54-65 | The distance is 0 exactly when the vectors agree on their common prefix. |
| `Vectors.HammingSelf` | utils.cpp:54-65 | A vector is at distance 0 from itself. |
| `Vectors.FlipAt` | test.py:161 | Flipping changes exactly the listed positions, keeps the length, and keeps a 0/1 vector 0/1. |
| `Vectors.FlipDistance` | test.py:158-161 | Flipping k distinct in-range positions gives a vector exactly k away. |
| `ElshCpp.FirstPass` | elsh.cpp:53-58 | The first loop keeps at most all ranked dims and at least min(\|ranking\|, k*L) of them. |
| `ElshCpp.FirstPassMembers` | elsh.cpp:53-58 | The first loop keeps only ranked dims and every ranked dim above tau. It keeps no dim twice when the ranking has no repeats. |
| `ElshCpp.TopUp` | elsh.cpp:60-68 | The top-up loop appends only absent indices below d. It keeps the pool. It stops once it holds k*L dims, never going past k*L when it starts below that, or when every index is present. |
| `ElshCpp.FirstPassKeepsHigh` | elsh.cpp:54-58 | Every dimension whose entropy exceeds tau is in the first pass. |
| `ElshCpp.SelectHighEntropyDimensions` | elsh.cpp:29-69 | The pool holds indices in [0, d) with no duplicates. It includes every dim above tau and has at least min(d, k*L) dims. |
| `ElshCpp.TopUpKeepsFirst` | elsh.cpp:60-68 | After the top-up, every dim of the first pass is still present. |
| `ElshCpp.PoolIsFirstPass` | elsh.cpp:49-68 | For every entropy ranking, the pool is exactly what the first loop kept. The top-up loop never adds a dim: a first pass shorter than k*L has kept all d dims. |
| `ElshCpp.HighCount` | elsh.cpp:55 | The number of ranked dims above tau is at most the number of ranked dims. |
| `ElshCpp.FirstPassIsPrefix` | elsh.cpp:49-58 | With dims sorted by entropy, the first pass is the top max(#above tau, min(d, k*L)) dims of the ranking. |
| `ElshCpp.FirstPassDropsWhenFull` | elsh.cpp:55-57 | A ranked dim is skipped only once the pool already holds k*L dims. |
| `ElshCpp.FirstPassKeepsAllHigh` | elsh.cpp:54-58 | A ranking whose dims are all above tau is kept whole, in order. |
| `ElshCpp.FirstPassPrefix` | elsh.cpp:49-58 | With dims sorted by entropy, the first pass is a prefix of the ranking. |
| `ElshCpp.FirstPassLength` | elsh.cpp:49-58 | With dims sorted by entropy, the first pass holds max(#above tau, min(\|ranking\|, k*L)) dims. |
| `ElshCpp.HighFirstPrefix` | elsh.cpp:50-51 | Dropping the last ranked dim keeps the ranking sorted. |
| `ElshCpp.HighBeforeHigh` | elsh.cpp:50-51 | If the last ranked dim is above tau, every ranked dim is. |
| `ElshCpp.AllHigh` | elsh.cpp:55 | If the first m ranked dims are above tau, m of them are counted. |
| `ElshCpp.TopUpKeepsFullPool` | elsh.cpp:61-68 | The top-up adds nothing to a pool that already holds every index. |
| `ElshCpp.PoolIsTopOfRanking` | elsh.cpp:49-68 | With dims sorted by entropy, the whole pool is the top max(#above tau, min(d, k*L)) dims of the ranking. |
| `ElshCpp.Fmap.ComputeID` | elsh.cpp:92-110 | computeID returns exactly L tags, one (l, parity) per l < L, with parity computed over the in-range dims of subset l. For a 0/1 vector every parity is 0 or 1. |
| `ElshCpp.Create` | elsh.cpp:7-27 | The constructor keeps d, delta, L and tau. It fixes k = ceil(d/(delta+1)) and a valid pool. It draws L subsets of distinct pool dims. Each subset has exactly k dims, because the pool holds at least min(d, k*L) >= k dims once L >= 1. |
| `ElshCpp.PoolHoldsK` | elsh.cpp:61-68 | With at least one subset and k <= d, a pool of at least min(d, k*L) dims holds at least k dims. |
| `ElshCpp.Fmap.GetD` | elsh.h:25 | For a constructed object, getD bounds every pool dim, and k is ceil(getD()/(delta+1)). |
| `ElshCpp.Fmap.GetDelta` | elsh.h:26 | For a constructed object, k is ceil(d/(getDelta()+1)). |
| `ElshCpp.Fmap.GetL` | elsh.h:27 | With one subset per hash function, getL is the number of subsets, so it is the size of every ID set. |
| `ElshCpp.Fmap.GetK` | elsh.h:28 | For a constructed object, getK*(delta+1) >= d and (getK-1)*(delta+1) < d. |
| `ElshCpp.Fmap.GetSubsets` | elsh.h:31 | With one subset per hash function, as the constructor ensures, getSubsets has L entries. |
| `ElshCpp.CreateGetters` | elsh.h:15-31 | getD, getDelta and getL return the constructor's arguments and getK returns the k it computed. tau defaults to 0.5, and getSubsets has L entries. |
| `ElshCpp.ComputeIDBatch` | elsh.cpp:112-123 | There is one ID set per input vector, in input order, each equal to computeID of that vector. |
| `ElshPy.HighDims` | test.py:65 | The list comprehension is increasing. It holds exactly the dims below d whose entropy exceeds tau. |
| `ElshPy.IncreasingIsDistinct` | test.py:65 | An increasing list has no repetitions. |
| `ElshPy.SelectHighEntropyDimensions` | test.py:55-72 | Without fallback, the pool is the increasing list of exactly the dims above tau. With fallback (fewer than k), it is the whole ranking, a permutation of 0..d-1, because the slice bound max(k*L, d) >= d. Either way it is distinct, in range and contains every dim above tau. |
| `ElshPy.Create` | test.py:25-85 | k = ceil(d/(delta+1)). The pool is valid. There are L subsets, each of exactly k distinct pool dims (drawn without replacement), since the pool holds at least min(k, d) = k dims. The parameters and tau (default 0.5) are kept. |
| `ElshPy.ComputeId` | test.py:87-99 | Raises IndexError exactly when some subset dim is past the end of the vector. Otherwise it yields \|subsets\| tags (l, XOR of the subset's entries): the ID set the C++ code computes for the same subsets. |
| `ElshPy.SubsetParity` | test.py:92-94 | The inner XOR loop raises IndexError exactly when a dim is out of range. Otherwise it yields the parity of the subset. |
| `ElshPy.ComputeIdBatch` | test.py:101-103 | One ID set per vector, in order. The batch raises IndexError exactly when some vector is too short for some subset. |
| `Harness.CountDiffsIsMismatches` | test.py:106-108 | Summing `v1 != v2` counts exactly the mismatching positions. |
| `Harness.HammingDistance` | test.py:106-108 | `hamming_distance` equals the Hamming distance, the number of differing positions. |
| `Harness.HammingDistanceProperties` | test.py:106-108 | The distance is symmetric and at most d. It is 0 exactly when the vectors are equal. |
| `Harness.RandInt` | test.py:144-156 | A draw from a non-empty half-open range lies in it. An empty range raises ValueError. |
| `Harness.RandIntReachesRange` | test.py:144-156 | Every value of a non-empty range is the outcome of some draw. |
| `Harness.Splits` | test.py:136 | Five split points, the last one n. Split j is int(n*(j+1)/5): 5*s[j] <= (j+1)*n < 5*(s[j]+1). |
| `Harness.Band` | test.py:142-156 | The randint range for each fifth. First fifth: draws from 0 up to at most delta/2. Second: from a positive value no lower than (delta-1)/2, up to delta. Third: (delta, 1.5*delta]. Fourth: (1.5*delta, 2*delta]. Last: [0, d). The second fifth starts at delta//2, so for an even delta it includes delta/2, although the comment at test.py:146 gives (delta/2, delta]. The model follows the code. |
| `Harness.FlipCount` | test.py:144-158 | The clamped flip count is at most d and below the band's upper end. It lies in the band unless it was clamped to d. |
| `Harness.BandsNonEmpty` | test.py:142-156 | For delta >= 2 and d >= 1 none of the five flip-count ranges is empty. |
| `Harness.ThirdBandEmptyForDeltaOne` | test.py:148-150 | For delta = 1 the range for (delta, 1.5*delta] is empty, so randint raises there. |
| `Harness.Receiver` | test.py:138-161 | W[i] is Q[i] with the clamped flip count applied at distinct positions. It keeps the length and 0/1 entries, and its distance from Q[i] equals the clamped count. |
| `Harness.Receivers` | test.py:138-161 | There are n receiver vectors of length d, each a 0/1 vector at distance FlipCount(i) from Q[i]. |
| `Harness.DistanceMatrix` | test.py:163-167 | The matrix is n×n with distances[i][j] = hamming(Q[i], W[j]). |
| `Harness.GenerateTestDataBalanced` | test.py:111-169 | Raises ValueError exactly when some index falls in an empty band. Otherwise hamming(Q[i], W[i]) equals min(count, d), where count lies in the band's randint range, and distances[i][j] = hamming(Q[i], W[j]). |
| `Harness.Classify` | test.py:374-385 | A pair is TP or FN exactly when dist <= delta, and TP or FP exactly when the ID sets intersect. |
| `Harness.RowPartition` | test.py:360-385 | Within a row, TP+FN counts the close pairs and TN+FP the far pairs. Close plus far is the row length. |
| `Harness.RowsPartition` | test.py:360-385 | The same partition over whole rows. The count of full rows is i*n. |
| `Harness.ConfusionPartitions` | test.py:398-399 | tp+fn = number of pairs with dist <= delta, and tn+fp = number of pairs beyond it. Together they are n*n. |
| `Harness.CountOutcomes` | test.py:349-399 | Each of the n*n pairs increments exactly the counter of its verdict, and the four counters sum to n*n. close_pairs and far_pairs have tp+fn and tn+fp entries on the right side of delta. Each match_results row records pair (t/n, t mod n), with has_intersection exactly when intersection_size > 0. |
| `Harness.CountRow` | test.py:361-385 | The inner loop over j counts the n pairs of row i. Afterwards each counter, both pair lists and match_results cover every pair of rows 0..i. |
| `Harness.ZeroDistanceIsDetected` | test.py:360-379 | A receiver vector identical to the sender vector always shares a tag, so the pair is a true positive. |
| `Utils.BitByte` | utils.cpp:19 | A PRNG bit becomes the byte 1 or 0. |
| `Utils.GenerateRandomBinaryVector` | utils.cpp:16-22 | Length d. Every entry is 0 or 1, and entry i is 1 exactly when the i-th getBit is. |
| `Utils.FisherYates` | utils.cpp:35-44 | Starting from 0..d-1 and swapping with j in [0, i] keeps `positions` a permutation of 0..d-1. |
| `Utils.Swap` | utils.cpp:43 | A swap exchanges two entries, leaves the others alone, and keeps a permutation a permutation. |
| `Utils.FlipFirst` | utils.cpp:46-49 | The flip loop flips exactly the first max(count, 0) positions of the permutation. |
| `Utils.GenerateVectorWithDistance` | utils.cpp:24-52 | The length is preserved. The result is exactly max(0, min(distance, d)) away from the base, equals the base for distance <= 0, and is 0/1 when the base is. |
| `Utils.HammingDistance` | utils.cpp:54-65 | The loop counts the mismatches over the first min(\|v1\|, \|v2\|) positions. |
| `Utils.MakeBlock` | utils.cpp:82 | Under each layout, `block(low, high)` puts its arguments in the corresponding memory words. |
| `Utils.PackWord` | utils.cpp:70-80 | Bit i of the word is set exactly when vec[start+i] exists and is non-zero. |
| `Utils.VectorToBlock` | utils.cpp:67-83 | The low word packs vec[offset..offset+64) and the high word packs vec[offset+64..offset+128). The block is laid out per the layout. |
| `Utils.Unpack` | utils.cpp:85-102 | Unpacking gives d entries, each 0 or 1. |
| `Utils.BlockToVector` | utils.cpp:85-102 | The result has length d. Entry i < 64 is bit i of memory word 0, and entry 64+i is bit i of word 1. Entries from 128 on stay 0. |
| `Utils.PackUnpackRoundTrip` | utils.cpp:67-102 | If `block(a, b)` stores a in memory word 0, unpacking a packed 0/1 vector of at most 128 entries gives it back. |
| `Utils.PackUnpackSwapsHalves` | utils.cpp:82-91 | Under the other layout, the two 64-entry halves come back swapped. |
| `Stats.Add64` | utils.h:43-48 | uint64_t addition wraps modulo 2^64. |
| `Stats.CommStats.AddSent` | utils.h:43 | addSent raises sent by the byte count (mod 2^64) and leaves received unchanged. |
| `Stats.CommStats.AddReceived` | utils.h:44 | addReceived raises received by the byte count (mod 2^64) and leaves sent unchanged. |
| `Stats.CommStats.GetBytesSent` | utils.h:46 | getBytesSent returns the sent counter: with the received counter it makes up the whole object. |
| `Stats.CommStats.GetBytesReceived` | utils.h:47 | getBytesReceived returns the received counter: with the sent counter it makes up the whole object. |
| `Stats.CommStats.GetTotalBytes` | utils.h:48 | The total is sent + received, mod 2^64. |
| `Stats.CommStats.Reset` | utils.h:54-57 | reset sets both counters to 0, the state of a fresh object. |
| `Stats.Fresh` | utils.h:62-63 | A fresh object has sent = received = total = 0. |
| `Stats.AddsMoveTotal` | utils.h:43-48 | Either addition raises the total by the same byte count, mod 2^64. |
| `Stats.AddsCompose` | utils.h:43-44 | Two additions to one counter equal one addition of the wrapped sum. Additions to different counters commute. |
| `Stats.ReplayCounts` | utils.h:43-46 | After any sequence of addSent and addReceived calls, in any interleaving, each counter holds its start value plus the wrapped sum of the byte counts passed to its own add method. |
| `Stats.Sum64Cons` | utils.h:43-44 | The wrapped sum of a list with one more count in front is that count added, wrapping, to the rest. |
| `SecurePrimitives.GenerateShares` | secure_primitives.h:20-35 | share_a and share_b are bits, and share_a XOR share_b = (x == y ? 1 : 0). |
| `SecurePrimitives.ShareAHidesInputs` | secure_primitives.h:30-31 | share_a depends only on the random byte, not on x or y. |
| `SecurePrimitives.GenerateSharesBatch` | secure_primitives.h:38-52 | Both outputs have length \|x_vec\|. Each index satisfies the per-element contract with the i-th random byte. y_vec must be at least as long. |
| `SecurePrimitives.OrAllBits` | secure_primitives.h:189-192 | The OR of bits is a bit, and it is 1 exactly when some entry is 1. |
| `SecurePrimitives.OrAllZero` | secure_primitives.h:202-205 | The OR of bytes is 0 exactly when every byte is 0. |
| `SecurePrimitives.Masks` | secure_primitives.h:172-175 | The sender's masks are bits, one per flag. |
| `SecurePrimitives.MaskFlags` | secure_primitives.h:178-181 | masked[i] XOR masks[i] = flags[i]. |
| `SecurePrimitives.SenderResult` | secure_primitives.h:185-194 | For bit masks and a bit reply, the sender reports true exactly when the reply differs from the OR of its masks. |
| `SecurePrimitives.ReceiverReply` | secure_primitives.h:197-210 | The receiver's reply is 0 exactly when masked equals its flags everywhere. For bit inputs it is a bit, so the receiver reports true exactly when they differ somewhere. |
| `SecurePrimitives.ReceiverResult` | secure_primitives.h:210 | The receiver reports true only for a non-zero reply, and for a bit reply exactly then. |
| `SecurePrimitives.ReplyIsMaskOr` | secure_primitives.h:178-205 | When both parties hold the same flags, the receiver's reply is the OR of the sender's masks. |
| `SecurePrimitives.TestAnyOneAsWritten` | secure_primitives.h:161-211 | As composed by the two programs, with both parties holding the same flags: the sender always gets false, and the receiver gets true exactly when OR(masks) is 1. |
| `SecurePrimitives.AsWrittenIgnoresFlags` | secure_primitives.h:161-211 | As composed, the outcome is the same for any two flag vectors of one length. It depends on the masks alone. |
| `SecurePrimitives.AsWrittenMissesSetFlag` | secure_primitives.h:161-211 | With flags [1] and random byte 0, a flag is 1 yet both parties report false. |
| `SecurePrimitives.CorrectedComputesAnyOne` | secure_primitives.h:161-211 | With the corrected receiver, both parties learn whether at least one flag is 1, for every choice of masks. |
| `SecurePrimitives.EncryptMessage` | secure_primitives.h:269-280 | Output length = message length. Byte i XOR key byte (i mod 16) is message byte i. |
| `SecurePrimitives.DecryptMessage` | secure_primitives.h:282-292 | The output has the message type's size. Encrypting it again under the same key gives back the first `size` ciphertext bytes. |
| `SecurePrimitives.DecryptEncrypt` | secure_primitives.h:269-292 | Decrypting with the same key gives the message back byte for byte. |
| `SecurePrimitives.Send` | secure_primitives.h:221-243 | send puts both ciphertexts (one per message length) and both keys on the channel. |
| `SecurePrimitives.Receive` | secure_primitives.h:245-266 | The output has the message size. Re-encrypting it under key k0 gives enc0 for choice 0, and under k1 gives enc1 for any other choice. Only the chosen ciphertext needs to be that long. |
| `SecurePrimitives.ReceiveSend` | secure_primitives.h:221-266 | Over a faithful channel, receive(choice) returns msg0 for choice 0 and msg1 otherwise. |

## Left out

- Entropy values: uniform draws, `log2`, clipping, and the `> tau` comparison on doubles (elsh.cpp:34-47, test.py:58-63). These are floating point, so they enter as the ranking and the `high` predicate.
- The PRNGs (`mt19937(42)`, numpy's global generator, cryptoTools `PRNG`). Their outcomes are explicit arguments.
  - `np.random.randint(lo, hi)` is modelled as `lo + raw % (hi - lo)`. This can produce every value of the range, but it does not reproduce numpy's distribution.
- The theoretical collision probability, the percentages, the detection rates grouped by distance, and the megabyte figures (test.py:400-429, utils.h:50-52). These are report figures computed in floating point.
- `FHEThresholdComparison` (secure_primitives.h:58-154): SEAL encryption and decryption are foreign calls.
- Channels. A channel is faithful, so a two-party run is the composition of the two halves.
- File, CSV and log output, and plotting (test.py:172-257 and the rest of `run_experiment`). Also left out: `printVector`, `saveStats`, `CommStats::print`, `Timer` (wall clock), and the sender and receiver programs that call these primitives.
- `reinterpret_cast` byte layout: a message is a byte sequence whose length plays the role of `sizeof(T)`.
- `std::hash` and the ordering of `std::set<std::string>`. ID sets are sets of tags, and `Tags.RenderInjective` shows the string keys carry the same information.
- `Fingerprint.SubsetSize`: computes k on integers. The source computes `ceil` on a double, which agrees for all realistic d and delta.
- `Harness.Band`: models the split points `int(n*0.2)` … `int(n*0.8)` as n/5 … 4n/5, which ignores floating-point rounding of the products.
- `ElshCpp.Create`: takes d, delta and L as naturals and does not model overflow of the `int` product k*L. With a negative d or L the source fails in `reserve` or `resize`.
- `ElshPy.Create`: takes d, delta and L as naturals, so the script's error paths for negative parameters are not modelled. delta = -1 raises ZeroDivisionError at test.py:39. A negative d, or delta below -1, can make k negative, and `np.random.choice` (test.py:80-82) then raises ValueError once L > 0.
- `Utils.GenerateRandomBinaryVector` and `Utils.BlockToVector`: take d as a natural. A negative `int d` makes `std::vector<uint8_t> vec(d)` (utils.cpp:17, 86) throw, which is not modelled.
- `Utils.HammingDistance`: returns an unbounded natural where the source's `int` counter could overflow past 2^31-1 mismatches. `Utils.GenerateVectorWithDistance` likewise ignores `int d = vec.size()` overflow.
- `Harness.HammingDistance`: requires vectors of one length, the only case the script uses. numpy broadcasting of length-1 arrays, and its error on other mismatched shapes, are not modelled.
- `Utils.VectorToBlock`: takes a non-negative offset. A negative offset reads before the vector, which is undefined behaviour in the source.
- Error behaviour for a small pool or a vector of the wrong length. Neither implementation raises an error when the pool has fewer than k dims or when a vector's length differs from d. C++ skips out-of-range dims, and Python raises only IndexError on an out-of-range dim. The model follows the code.

## Findings

| source | as written | input that shows it | evidently intended | confidence | as-written member | corrected member |
|---|---|---|---|---|---|---|
| secure_primitives.h:161-211 | Both programs pass the same flags to `testAnyOne` (fpsi_sender1back.cpp:242, fpsi_receiver1backup.cpp:319). The receiver therefore replies OR(masks), the sender unmasks that to 0 and always returns false, and the receiver returns OR(masks). | flags = [1], random byte 0: both parties return false although one flag is 1 | both parties learn whether at least one flag is 1, as the doc comment at line 161 says | high; not executed | `SecurePrimitives.AsWrittenMissesSetFlag` | `SecurePrimitives.CorrectedComputesAnyOne` |
