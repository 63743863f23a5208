# Storage renter: a verified model

This project models the hard core of a Sia storage renter, with the in-memory host and the wallet
it is developed against, and proves what each part is for. Every statement holds for all inputs,
all runs or all reachable states; nothing is bounded except where the program itself has a fixed
size.

* **Erasure coding** (`Field`, `Linear`, `Matrix`, `Vandermonde`, `Gf256Tables`, `Galois`,
  `Erasure`, `ErasureCoder`). Data is split over `m` shards, extended to `n` with a systematic
  Vandermonde matrix over GF(2^8), and recovered from any `m` of them by inverting a sub-matrix in
  place. Main results: `ErasureCoder.EncodeShards`, which says what every byte of every shard is, and
  `ErasureCoder.RoundTrip`. Under them: Gaussian elimination gives a two-sided
  inverse and fails exactly on matrices with a kernel (over any field of characteristic two); a
  polynomial has no more roots than its degree, so any `m` rows of the matrix are invertible; and
  GF(2^8) with generating polynomial 29 is a field, proved from its bits.
* **Merkle trees** (`Bits`, `MerkleTree`, `ProofStack`, `Subtrees`, `AppendStack`, `RangeProof`,
  `RangeVerifier`, `DiffProof`, `SectorProof`). The reference is the recursive tree of section 2.1 of RFC 6962
  (with a zero hash for the empty tree): `MerkleTree.Root`. The 17-slot proof stack, the in-place
  eight-at-a-time append stack and the recursive split compute that root; range proofs and diff
  proofs are complete, and sound for injective hashes; the streaming verifier and the recursive one
  give the same verdict on every proof. Main results: `RangeProofs.ProofComplete`, `ProofSound`,
  `RangeVerifiers.StreamingVerdict`, `DiffProofs.DiffComplete`, `DiffProofs.DiffSound`, and for proofs
  of sector roots `SectorProofs.HashCount`, which says exactly when they work, with
  `SectorProofs.RangeComplete`, `RangeNever` and `RangeSound`.
* **The renter-host protocol** (`Formation`, `Messages`, `Contract`, `Protocol`, `Renewal`, `Session`,
  `Deletion`). `Protocol` is a step system of one renter and one host: forming, renewing, locking,
  reading, writing, with the connection lost after any message and messages too long to be read.
  `Renewal` says what becomes of a session that has renewed its contract. `Session` has the two sides
  as classes whose methods are proved to take exactly those steps. Main results: `Protocol.StepKeeps`,
  `Protocol.RunKeeps`, `Protocol.Reachable`, `Protocol.WriteCompletes`, `Renewals.RenewedExactly`,
  `Renewals.RenewedSession` and the methods of `Sessions.Session`; `Formation.TaxAdjustedPayout`;
  `Sessions.Session.DeleteSectors`.
* **Reading a file** (`Scheduler`, `Download`). The shard download scheduler: main loop, workers, two
  bounded channels, the shard buffers and the host locks as a step system; and the read that is built
  on it and on the erasure code. Main results: `Scheduler.StepKeeps`, `Progress`, `DownloadRuns`,
  `DownloadAnswers`, `DownloadEnds`; `FileReads.ReadAt`: whichever shards a run of the download has got,
  the bytes that come back are those of the file.
* **The wallet** (`Chain`, `Wallet`, `Store`, `Funding`). Main results: `Store.FollowChain`: after
  any run of consensus changes the store holds what a naive fold of the chain gives;
  `Funding.FundTransaction`: the least number of inputs that pay for themselves.
* **The wire encoding** (`Codec`, `Encoding`, `Layout`, `Buffer`). Codecs are combined from lawful parts;
  `Layout` says byte by byte what they write; `Buffer` has the cursor buffer and the marshalling of revisions as imperative code proved equal to
  them. Main results: `Encoding.TransactionRoundTrip`, `FileContractRevisionRoundTrip`,
  `HashedBytesInjective`; `Layouts.TransactionLayout`, `Layouts.FileContractRevisionLayout`.

`dafny verify dfyconfig.toml` checks all of it.

Places where the code and what is said or expected of it differ:

* A renewal makes the two sides sign different final revisions of the old contract:
  `Contracts.FinalRevisionsDiffer` proves that they always differ, and that the host's is balanced
  exactly when the old void output is zero.
* `Session.RenewContract` leaves the session open, with the renter's old revision on one side and a
  final contract that has left the table on the other. `Renewals.RenewedExactly` shows that sessions
  that have not renewed since they locked always agree; `Renewals.RenewedSession` says exactly what the
  two sides of one that has renewed have, `Renewals.RenewedRevisable` that the next `SectorRoots` makes
  the final contract revisable again and leaves the sides with different revisions. The contracts of
  the table are not affected, except that sector data is shared. A second renewal in the same session
  crashes the host (`Renewals.CrashesExactly`).
* A Write whose Merkle proof has more than 125 hashes is refused by the renter even from an honest host,
  because it reads the proof with a limit of 4096 bytes (`Protocol.WriteCompletes`). So one Write
  removes at most 125 sectors, and `DeleteSectors` of more fails (`Protocol.WriteBounds`,
  `Sessions.Session.DeleteSectors`); and it adds at most four.
* The proof stack has 17 entries, so the verifiers panic on contracts of 2^17 sectors or more, or 512 GiB
  (`SectorProofs.RangeComplete`, `DiffProofs.DiffComplete`). A Write that would make such a contract
  panics in the renter (`Sessions.Session.Write`), and no reachable contract is one
  (`Protocol.Reachable`).
* `VerifySectorRangeProof` does not accept every proof that `BuildSectorRangeProof` builds:
  `SectorProofs.HashCount` gives the exact condition and `SectorProofs.FourOfSeven` an example. Then
  `Session.SectorRoots` reports an invalid proof from an honest host after it has paid, and the verifier
  runs off the end of a proof of the size it asks for (`SectorProofs.RangeNever`).
  `DeleteSectors` is affected only in contracts of more than 130000 sectors.
* The host in the repository locks a contract for each session alone: `Protocol.TwoSessionsDisagree`
  shows how two sessions then come to disagree. Agreement is proved for one session at a time.
* `appendLeaves` overwrites nodes that are still buffered when it is given four leaves or more:
  `AppendStacks.AppendedRight` says exactly when it appends. Its callers start from an empty buffer.
* `Session.Write` skips the Merkle proof of a contract that becomes empty because the proof algorithm
  is said to choke on it. `DiffProofs.DiffComplete` covers that case: an honest proof is accepted.

## Model

| member | source | states |
|---|---|---|
| `Gf256.GfIsField` | internal/reedsolomon/galois.go:9-72 | bytes with xor and the product modulo x^8+x^4+x^3+x^2+1 satisfy every field law, with an inverse for every non-zero byte |
| `Gf256.GfIsCyclic` | internal/reedsolomon/galois.go:9-66 | 2 generates every non-zero byte, with period 255: the exponent and logarithm tables are inverse to each other |
| `Gf256.TimesTwo` | internal/reedsolomon/galois.go:9-66 | 2 times a byte is twice its number, reduced by 285, that is by 29 without the carry: the polynomial of the tables |
| `Gf256.ToByteInjective` | internal/reedsolomon/matrix.go:190-198 | the rows of the Vandermonde matrix are at distinct points |
| `LogArithmetic.Multiply` | internal/reedsolomon/galois.go:858-866 | adding logarithms gives the field's product, zero included |
| `LogArithmetic.Divide` | internal/reedsolomon/galois.go:869-885 | the quotient times the divisor is the dividend; only a non-zero dividend over zero is excluded, where the code panics |
| `LogArithmetic.Exponentiate` | internal/reedsolomon/galois.go:888-900 | multiplying and reducing the logarithm gives the n-th power by repeated multiplication |
| `ErasureCoder.PowerIsPow` | internal/reedsolomon/galois.go:888-900 | powers by the tables are the powers of the field |
| `ErasureCoder.TablePower` | internal/reedsolomon/galois.go:888-900 | galExp gives the field power that the Vandermonde matrix is made of |
| `ErasureCoder.VandermondeRow` | internal/reedsolomon/matrix.go:193-195 | one row: the powers of its point |
| `ErasureCoder.BuildVandermonde` | internal/reedsolomon/matrix.go:190-198 | the loops over galExp give the Vandermonde matrix of the points |
| `Matrices.Multiply` | internal/reedsolomon/matrix.go:51-66 | the nested accumulating loops give the matrix product, each entry a dot product of row and column |
| `Matrices.Augment` | internal/reedsolomon/matrix.go:69-85 | the two matrices side by side |
| `Matrices.SubMatrix` | internal/reedsolomon/matrix.go:88-97 | exactly the rows and columns of the given window |
| `Matrices.SwapRows` | internal/reedsolomon/matrix.go:100-106 | the two rows change places in the array and no other row changes |
| `Matrices.SwapKeepsKernel` | internal/reedsolomon/matrix.go:100-106 | a swap of rows keeps the set of vectors that the matrix kills |
| `Matrices.ScaleKeepsKernel` | internal/reedsolomon/matrix.go:152-158 | so does scaling a row by a non-zero factor |
| `Matrices.AddKeepsKernel` | internal/reedsolomon/matrix.go:159-169 | so does adding a multiple of one row to another |
| `Matrices.ScaleRow` | internal/reedsolomon/matrix.go:152-158 | the row in the array is scaled, every other row stays |
| `Matrices.AddScaledRow` | internal/reedsolomon/matrix.go:162-168 | a multiple of one row is added to another in place, every other row stays |
| `Matrices.FindPivot` | internal/reedsolomon/matrix.go:138-147 | keeps kernel and triangular shape; the diagonal is still zero only if the whole column below is |
| `Matrices.UnitPivot` | internal/reedsolomon/matrix.go:152-158 | the diagonal becomes one, kernel and shape are kept |
| `Matrices.PivotRow` | internal/reedsolomon/matrix.go:138-158 | either the diagonal is one or the column is zero from there down |
| `Matrices.ClearRowBelow` | internal/reedsolomon/matrix.go:162-168 | one entry below the diagonal becomes zero, kernel kept, other rows untouched |
| `Matrices.ClearBelow` | internal/reedsolomon/matrix.go:159-169 | one more column is unit upper triangular, kernel kept |
| `Matrices.ClearRowAbove` | internal/reedsolomon/matrix.go:175-181 | one entry above the diagonal becomes zero without disturbing cleared columns |
| `Matrices.ClearColumnAbove` | internal/reedsolomon/matrix.go:172-183 | one more column is cleared above the diagonal, kernel kept |
| `Matrices.BackSubstitute` | internal/reedsolomon/matrix.go:148-151 | where the elimination finds no pivot there is a vector with a one at that column which every row kills |
| `Matrices.KilledVector` | internal/reedsolomon/matrix.go:148-151 | hence a non-zero kernel vector of the matrix the elimination started from |
| `Matrices.GaussianElimination` | internal/reedsolomon/matrix.go:132-185 | on success the left square is the identity and the kernel is the original one; on errSingular the original matrix kills a non-zero vector |
| `Matrices.EliminatedIsInverse` | internal/reedsolomon/matrix.go:116-130 | if [I N] has the kernel of [M I] then M N = N M = I |
| `Matrices.InverseHasNoKernel` | internal/reedsolomon/matrix.go:116-130 | a matrix with an inverse kills no non-zero vector |
| `Matrices.Reduce` | internal/reedsolomon/matrix.go:121-129 | the elimination of the augmented matrix and the cut of its right half keep the kernel, or name a kernel vector |
| `Matrices.Invert` | internal/reedsolomon/matrix.go:116-130 | over any such field and size: a two-sided inverse, and errSingular if and only if there is a non-zero kernel vector |
| `Vandermonde.Factor` | internal/reedsolomon/matrix.go:187-198 | p(s) - p(r) = (s - r) q(s) for the quotient q |
| `Vandermonde.TooManyRoots` | internal/reedsolomon/matrix.go:187-198 | a polynomial with n coefficients and n distinct roots is zero |
| `Vandermonde.VandermondeRows` | internal/reedsolomon/matrix.go:187-198 | any square choice of distinct rows of a Vandermonde matrix is not singular |
| `Vandermonde.ProductRows` | internal/reedsolomon/reedsolomon.go:57-75 | multiplying by the inverse of the top square keeps that |
| `Vandermonde.ProductInterpolates` | internal/reedsolomon/reedsolomon.go:57-75 | V times the inverse of its top square takes the values of a polynomial of degree below m at the first m points to its values at all of them |
| `Vandermonde.BuildMatrix` | internal/reedsolomon/reedsolomon.go:57-75 | the top rows are the identity, any m distinct rows are not singular, and every row interpolates: it takes the values of a polynomial at the first m points to its value at the row's own point |
| `ErasureCoder.New` | internal/reedsolomon/reedsolomon.go:77-98 | the two errors exactly when the counts are out of range; otherwise a coder whose matrix has the identity on top, no singular choice of m rows, and in row r the interpolation from the bytes 0 to m-1 to the byte r |
| `ErasureCoder.RowPointsAre` | internal/reedsolomon/matrix.go:190-198 | the points of the rows are the bytes with the numbers 0, 1, 2 and so on, and no other sequence of bytes has those numbers |
| `Erasure.CodewordInterpolates` | internal/reedsolomon/reedsolomon.go:100-150 | every column of a codeword lies on one polynomial of degree below m |
| `Erasure.CodeRange` | internal/reedsolomon/reedsolomon.go:134-146 | one worker's columns of every output hold the coded bytes and no other byte of any buffer changes |
| `Erasure.CodeInput` | internal/reedsolomon/reedsolomon.go:135-144 | after input c the outputs hold the partial dot product over the inputs up to c |
| `Erasure.CodeSomeShards` | internal/reedsolomon/reedsolomon.go:118-150 | the chunks together write each output as its row times the inputs, and keep the rest of its buffer |
| `Erasure.CheckShards` | internal/reedsolomon/reedsolomon.go:153-167 | no data if and only if every shard is empty; a wrong size if and only if two sizes differ, an empty one counting or not; and otherwise no error |
| `Erasure.ComputeShardSize` | internal/reedsolomon/reedsolomon.go:170-178 | the size of the first non-empty shard, or zero |
| `Erasure.EncodeParity` | internal/reedsolomon/reedsolomon.go:110-115 | the shards become a codeword; the data shards stay |
| `Erasure.Encode` | internal/reedsolomon/reedsolomon.go:104-116 | its errors, with nothing changed; otherwise a codeword, with only parity shards changed |
| `Erasure.DecodeRow` | internal/reedsolomon/reedsolomon.go:247-270 | a row of the inverse of the surviving rows, times the surviving shards, is the lost data shard |
| `Erasure.PickShards` | internal/reedsolomon/reedsolomon.go:224-236 | m present shards with their contents, their rows increasing |
| `Erasure.DecodeMatrix` | internal/reedsolomon/reedsolomon.go:238-254 | never errSingular: the rows that survive have an inverse |
| `Erasure.DecodedRestores` | internal/reedsolomon/reedsolomon.go:256-270 | filling the missing data shards from the decode matrix restores them for every codeword that the present shards agree with |
| `Erasure.FillData` | internal/reedsolomon/reedsolomon.go:256-270 | every missing data shard is filled by its row of the decode matrix, which restores it; nothing else changes |
| `Erasure.DecodeData` | internal/reedsolomon/reedsolomon.go:224-270 | every data shard is restored, present and parity shards are untouched |
| `Erasure.EncodeMissing` | internal/reedsolomon/reedsolomon.go:276-289 | the missing parity shards complete the codeword |
| `Erasure.Reconstruct` | internal/reedsolomon/reedsolomon.go:194-291 | its exact errors with nothing changed; otherwise the shards (or the data shards) are those of any codeword that the surviving ones agree with |
| `ErasureCoder.Resize` | internal/reedsolomon/reedsolomon.go:303-310 | succeeds if and only if every shard has the capacity; the bytes stay |
| `ErasureCoder.SplitStripe` | internal/reedsolomon/reedsolomon.go:315-317 | one stripe over the data shards: the shards read back in stripes are the data so far |
| `ErasureCoder.CopyStripes` | internal/reedsolomon/reedsolomon.go:312-318 | all the data is a prefix of the shards read back in stripes |
| `ErasureCoder.SplitMulti` | internal/reedsolomon/reedsolomon.go:296-321 | fails if and only if a shard is too small; otherwise the data is a prefix of the interleaved data shards, and parity shards are only resized |
| `ErasureCoder.WriteSegment` | internal/reedsolomon/reedsolomon.go:351-366 | one segment: what is skipped, cut and written, and what is left to skip and write |
| `ErasureCoder.JoinStripe` | internal/reedsolomon/reedsolomon.go:350-367 | the output is still the slice of the interleaved shards from skip on |
| `ErasureCoder.Join` | internal/reedsolomon/reedsolomon.go:348-368 | writes exactly the wanted slice of the interleaved shards |
| `ErasureCoder.CheckData` | internal/reedsolomon/reedsolomon.go:333-346 | an empty shard before there are enough bytes, or too few bytes in all, exactly |
| `ErasureCoder.JoinMulti` | internal/reedsolomon/reedsolomon.go:326-370 | on shards of any sizes: its three errors exactly, the panic of a slice out of range exactly, and otherwise the slice [skip, skip+writeLen) of the interleaved buffers; the size check ignores skip, so a request past the end panics or reads beyond the shards |
| `ErasureCoder.JoinedAt` | internal/reedsolomon/reedsolomon.go:296-370 | byte by byte: segment i of the stripe at an offset is the segment at that offset of shard i |
| `ErasureCoder.SplitSizeIs` | internal/reedsolomon/reedsolomon.go:296-308 | the shards have the fewest whole segments that hold the data |
| `ErasureCoder.WholeShards` | internal/reedsolomon/reedsolomon.go:326-370 | of whole shards of one size: short of data if and only if there are fewer bytes than asked for; within them, their slice and no error |
| `ErasureCoder.EncodeData` | renter/reedsolomon.go:59-66 | the shards are a codeword whose interleaved data shards start with the data, and each byte of the data is at its place in its shard |
| `ErasureCoder.CodewordOnPolynomials` | internal/reedsolomon/reedsolomon.go:100-150 | byte k of shard r is the value at the byte r of the polynomial of degree below m that has byte k of the data shards at the bytes 0 to m-1 |
| `ErasureCoder.EncodeShards` | renter/reedsolomon.go:59-95 | NewRSCode and Encode together: what every byte of every shard is. The size is the least that is enough, each byte of the data is at its place, and the parity bytes are on the polynomials through the data bytes |
| `ErasureCoder.Recover` | renter/reedsolomon.go:72-79 | its exact errors and panic, those of the join on the restored shards; short of data if and only if the shards are; within the data, the slice of the data of any codeword that the present shards agree with |
| `ErasureCoder.ErasedIsRecoverable` | renter/reedsolomon.go:68-79 | a codeword with at least m survivors meets what recovery asks for, whatever bytes the erased buffers hold |
| `ErasureCoder.RecoverErased` | renter/reedsolomon.go:72-79 | recovery from any m survivors gives any slice of the encoded data |
| `ErasureCoder.RoundTrip` | renter/reedsolomon.go:59-79 | for 1 <= m < n <= 256, non-empty data and any at least m survivors: encode, erase, recover(off, len) writes data[off..off+len] |
| `ErasureCoder.SimpleRecover` | renter/reedsolomon.go:131-157 | without parity: fails if and only if a shard is missing, panics if and only if a slice of the last stripe is out of range; within the shards, their slice |
| `ErasureCoder.SimpleRoundTrip` | renter/reedsolomon.go:100-157 | encode and recover give the data back |
| `AppendStacks.SumNodes` | merkle/blake2b/blake2b.go:31-48 | with outputs written over the inputs, each of the four outputs is the pair hash of the old inputs, and everything else, the second half of the inputs too, keeps its value |
| `ProofStacks.ProofStack.MergeUp` | merkle/stack.go:34-38 | carrying a node up keeps every slot the root of the subtree its bit stands for; it runs out of the 17 slots if and only if the tree would have 2^17 leaves or more |
| `ProofStacks.ProofStack.InsertNode` | merkle/stack.go:33-40 | an aligned subtree of any height is added to the tiling fed so far; a panic if and only if there would be 2^17 leaves or more |
| `ProofStacks.ProofStack.Root` | merkle/stack.go:42-54 | the root of the tree over the tiling, the zero hash if nothing was fed |
| `MerkleTree.HonestWhole` | merkle/stack.go:42-54 | if every tile is the root of its leaves, the root over the tiling is the recursive Merkle root |
| `MerkleTree.SoundWhole` | merkle/stack.go:42-54 | with injective hashes the converse: a right root forces every tile to be right |
| `Subtrees.AlignedCovered` | merkle/proof.go:36-43 | any left-to-right aligned sequence of perfect subtrees covers its leaves as the tree splits them |
| `Subtrees.HonestRoot` | merkle/stack.go:33-54 | any aligned tiling by true subtree roots gives the recursive root |
| `Subtrees.SoundRoot` | merkle/stack.go:33-54 | with injective hashes, the recursive root forces the tiles to be true subtree roots |
| `Subtrees.NextHeight` | merkle/proof.go:36-43 | the next subtree is aligned and does not pass the end |
| `RangeVerifiers.NextHeightMaximal` | merkle/proof.go:36-43 | and it is the largest such subtree |
| `Subtrees.InsertRange` | merkle/proof.go:307-315 | takes exactly one hash for each subtree of the range, in order, and fails if and only if there are too few or the range ends at 2^17 or later |
| `AppendStacks.AppendStack.constructor` | merkle/stack.go:56-70 | an empty stack over fresh memory of sixteen groups of four |
| `AppendStacks.AppendStack.Reset` | merkle/stack.go:83-85 | the stack stands for no nodes, whatever its memory holds |
| `AppendStacks.AppendStack.BufferNode` | merkle/stack.go:88-89 | the node goes into its place of the buffer; stack and earlier nodes stay |
| `AppendStacks.AppendStack.AppendNode` | merkle/stack.go:87-94 | the stack stands for its nodes and the new one |
| `AppendStacks.AppendStack.AppendFour` | merkle/stack.go:101-104 | four leaves hashed over whatever the buffer holds and merged: buffered nodes before them are lost, and their first hashes count as buffered again |
| `AppendStacks.AppendStack.AppendSingly` | merkle/stack.go:105-107 | the remaining leaves one by one |
| `AppendStacks.AppendStack.AppendLeaves` | merkle/stack.go:96-108 | what any stack stands for after the leaves; with an empty buffer or fewer than four leaves, its nodes and the hashes of all the leaves |
| `AppendStacks.AppendedRight` | merkle/stack.go:96-108 | the leaves are appended if and only if the buffer is empty, there are fewer than four of them, or what is written over the buffer comes to the same |
| `AppendStacks.AppendStack.CarryUp` | merkle/stack.go:113-118 | merging eight nodes in place, group by group, leaves four roots one level up for each full group, and never passes the first slot |
| `AppendStacks.AppendStack.MoveGroup` | merkle/stack.go:119 | the four nodes go to the slot before, which is the only part that counts afterwards |
| `AppendStacks.AppendStack.JoinBuffer` | merkle/stack.go:110-119 | the groups on the stack are those of four more leaves |
| `AppendStacks.AppendStack.MergeNodeBuf` | merkle/stack.go:110-121 | the full buffer becomes part of the stack |
| `AppendStacks.Root4` | merkle/stack.go:128-137 | two rounds of four hashes over a copy give the root of four nodes |
| `AppendStacks.AppendStack.BufferRoot` | merkle/stack.go:141-151 | one, two or three buffered nodes give the root of the ragged tail |
| `AppendStacks.AppendStack.LowestHeight` | merkle/stack.go:139 | the lowest group in use, with no leaves below it |
| `AppendStacks.AppendStack.LowestRoot` | merkle/stack.go:139-144 | its root is the root of the tail of the tree |
| `AppendStacks.AppendStack.FoldGroup` | merkle/stack.go:152-156 | folding in one group gives the root of a longer tail |
| `AppendStacks.AppendStack.FoldUp` | merkle/stack.go:152-156 | so does folding in all the rest |
| `AppendStacks.AppendStack.RootHash` | merkle/stack.go:123-158 | the recursive Merkle root of all the nodes, with the stack unchanged |
| `AppendStacks.SectorRoot` | merkle/merkle.go:29-34 | the recursive root of the leaf hashes |
| `AppendStacks.MetaRoot` | merkle/merkle.go:36-52 | the recursive root for any number of roots, by splitting above SegmentsPerSector and by the stack below |
| `AppendStacks.ReaderRoot` | merkle/merkle.go:54-69 | the recursive root of the segments read, an error if the last one is cut short |
| `RangeProofs.ProofSizePerfect` | merkle/proof.go:16-32 | for a perfect tree: the one bits of start plus those of the complement of end-1 |
| `RangeProofs.CountIsProofSize` | merkle/proof.go:16-32 | that is exactly how many subtrees the recursion leaves outside the range |
| `RangeProofs.SubtreeRoot` | merkle/proof.go:59-89 | the precalculated root unless it is zero, else the root of the segments |
| `RangeProofs.BuildRec` | merkle/proof.go:67-97 | appends those roots of the maximal subtrees outside the range, left to right |
| `RangeProofs.BuildProof` | merkle/proof.go:51-100 | those of the whole sector; they are the true ones if and only if every precalculated root taken is right |
| `RangeProofs.PrecalcAccepted` | merkle/proof.go:45-160 | with injective hashes, that proof is accepted for the sector's root if and only if every precalculated root taken is right |
| `RangeProofs.CheckTakes` | merkle/proof.go:103-140 | the verifier takes exactly that many hashes, and runs short if and only if there are fewer |
| `RangeProofs.CheckRec` | merkle/proof.go:108-138 | the closure that pops the proof computes the reference check, with what it leaves of the proof |
| `RangeProofs.VerifyProof` | merkle/proof.go:103-160 | accepts if and only if the proof has the size and its check gives the root |
| `RangeProofs.ProofComplete` | merkle/proof.go:16-160 | a perfect tree of any height, any non-empty range: the built proof has exactly ProofSize hashes and is accepted |
| `RangeProofs.ProofSound` | merkle/proof.go:103-160 | with injective hashes, acceptance against the sector's root forces the segments to be the sector's own and the proof to be the built one |
| `RangeVerifiers.CutsAgree` | merkle/proof.go:16-43 | tiling both sides by nextSubtreeSize gives exactly ProofSize subtrees |
| `RangeVerifiers.StreamNode` | merkle/proof.go:103-140 | inside every node of the tree, the recursive check pops the proof as the stack consumes it and gets the same hash |
| `RangeVerifiers.SameVerdict` | merkle/proof.go:103-160 | the stack over proof, range roots, proof gives the recursive verdict for any proof, honest or not |
| `RangeVerifiers.TilesRoot` | merkle/proof.go:453-466 | feeding the stack from both sides of the range gives the root over all the tiles, and leaves the roots it did not need |
| `RangeVerifiers.RangeProofVerifier.constructor` | merkle/proof.go:471-476 | nothing read yet |
| `RangeVerifiers.RangeProofVerifier.ReadFrom` | merkle/proof.go:431-446 | adds the subtree roots of the data as it is read and counts them; fails if and only if the data ends inside a segment it needs, keeping the roots read before |
| `RangeVerifiers.RangeProofVerifier.Verify` | merkle/proof.go:449-467 | accepts if and only if the proof has the size and the tiles give the root; a proof of the right size uses up the roots of one reading |
| `RangeVerifiers.StreamingVerdict` | merkle/proof.go:431-467 | reading the data once and verifying accepts if and only if VerifyProof does |
| `SectorProofs.HeightsAcross` | merkle/proof.go:36-43 | from within one block of 2^K sectors into the next: as many subtrees as ones in what is left of the first and in what is used of the second |
| `SectorProofs.HashCount` | merkle/proof.go:16-43 | for every s < e <= n the subtrees around the range are at least ProofSize, and exactly as many if and only if e is n or n - 1 has, below the highest bit where it differs from e - 1, one less than a power of two |
| `SectorProofs.NeededAtMost` | merkle/proof.go:36-43 | a range of a contract of at most 2^L sectors takes at most three hashes for each height |
| `SectorProofs.BuildSectorRangeProof` | merkle/proof.go:163-181 | the roots of the subtrees before and after the range; nothing for an empty contract |
| `SectorProofs.InsertLeaves` | merkle/proof.go:205-207 | the range's own roots follow as single leaves; a panic if and only if they reach 2^17 |
| `SectorProofs.VerifySectorRangeProof` | merkle/proof.go:184-210 | the verdict of the tiling for a contract of any size, with the panics of an illegal range, of running out of hashes and of running out of slots |
| `SectorProofs.RangeComplete` | merkle/proof.go:163-210 | an honest host's roots and proof: rejected where ProofSize does not count right, a panic for 2^17 sectors or more, otherwise accepted if and only if the root is the contract's |
| `SectorProofs.RangeNever` | merkle/proof.go:184-210 | where it does not count right no proof is ever accepted: one of the size asked for is a panic, any other is rejected |
| `SectorProofs.RangeSafe` | merkle/proof.go:184-210 | where it counts right a proof for a legal range is a panic if and only if it has the size asked for and there are 2^17 sectors or more |
| `SectorProofs.RangeSound` | merkle/proof.go:184-210 | with injective hashes and the contract's root: accepted if and only if ProofSize counts right, there are fewer than 2^17 sectors, the roots are the contract's own and the proof is the honest one |
| `SectorProofs.FourOfSeven` | merkle/proof.go:16-43 | the first four of seven sectors: ProofSize is one, two hashes are needed, the honest proof is rejected and any single hash is a panic |
| `DiffProofs.SectorsChanged` | merkle/proof.go:220-252 | every index that some action touches, and, sorted, those below the old size |
| `DiffProofs.UntouchedKept` | merkle/proof.go:220-252 | a sector outside those keeps its place and root through any valid actions, and none outside them is new |
| `DiffProofs.TouchedExactly` | merkle/proof.go:220-252 | the indices touched are exactly those of a swap, the last ones at a trim and the next one at an append, each at the size reached by then |
| `DiffProofs.BuildRange` | merkle/proof.go:264-270 | the roots of the subtrees that tile a gap |
| `DiffProofs.BuildTrees` | merkle/proof.go:272-277 | those of all the gaps in order |
| `DiffProofs.BuildDiffProof` | merkle/proof.go:256-280 | the roots of the gaps and the old roots of the touched sectors |
| `DiffProofs.PrecomputeAppendRoots` | merkle/proof.go:291-299 | the sector roots of the Append actions in order; a panic if and only if a sector has another size |
| `DiffProofs.InsertGap` | merkle/proof.go:318-322 | a gap and the touched leaf after it |
| `DiffProofs.VerifyMulti` | merkle/proof.go:305-326 | the verdict of the tiling by gaps and leaves, with the panic when the hashes or the slots run out |
| `DiffProofs.MultiComplete` | merkle/proof.go:305-326 | honest gap roots and leaves are accepted for the true root and for no other; a panic if and only if there are 2^17 leaves or more |
| `DiffProofs.MultiSound` | merkle/proof.go:305-326 | with injective hashes, acceptance for the true root forces gap roots and leaves to be honest |
| `DiffProofs.ModifyRange` | merkle/proof.go:349-363 | one action gives the touched indices below the next size |
| `DiffProofs.ModifyProofRanges` | merkle/proof.go:347-366 | all actions give those below the final size |
| `DiffProofs.ModifyLeaf` | merkle/proof.go:399-420 | one action on the leaf hashes alone does to them what it does to the roots they stand for |
| `DiffProofs.ModifyLeaves` | merkle/proof.go:370-422 | from honest old leaves, exactly the touched leaves of the contract after all the actions |
| `DiffProofs.FitsAfter` | merkle/proof.go:337-342 | the gap roots that fit the old tree fit the new one |
| `DiffProofs.VerifyAfter` | merkle/proof.go:337-342 | the second verification, of the modified proof against the new root |
| `DiffProofs.VerifyDiffProof` | merkle/proof.go:304-343 | the verdict: two tilings, the second from the modified leaves |
| `DiffProofs.DiffComplete` | merkle/proof.go:220-422 | for every valid list of Append, Swap and Trim in any order: a panic if there are 2^17 sectors or more before or after; otherwise the built proof is accepted for the true new root and rejected for any other |
| `DiffProofs.DiffSound` | merkle/proof.go:304-422 | with injective hashes, for the true old root: accepted if and only if leaves and gap roots are the contract's own, the new root is that of the roots after the actions, and there are fewer than 2^17 sectors before and after |
| `Formation.TaxAdjustedPayout` | renter/proto/formcontract.go:327-373 | the largest payout that leaves the target after tax, for every target |
| `Formation.TaxInverse` | renter/proto/formcontract.go:327-373 | any payout just below target/0.961 with the target's residue modulo the siafund count leaves the target |
| `Formation.TaxLargest` | renter/proto/formcontract.go:327-373 | and no larger one does |
| `Formation.BuysIs` | renter/proto/formcontract.go:72-88 | the number of bytes that the renter's money buys is the quotient |
| `Formation.FormPayouts` | renter/proto/formcontract.go:72-127 | balanced outputs; renter cost plus collateral is payout plus fee; no larger payout would do; the host gets its contract price and the collateral for the bytes that the money buys over the duration: that amount if it is positive and at most the maximum, the maximum if it is more, and 1 if it is zero |
| `Formation.ForData` | renter/proto/renew.go:57-66 | storage price and collateral for the old data, for each block by which the new end passes the old window |
| `Formation.TotalCollateral` | renter/proto/renew.go:68-84 | that collateral and the one for the bytes that the money buys, at most the maximum and not zero |
| `Formation.RenewPayouts` | renter/proto/renew.go:56-135 | the same for a renewal: the host gets contract price, the storage price of the old data and the total collateral; the void output has price and collateral of the old data; fails if and only if the collateral for the old data exceeds contract price and maximum collateral |
| `Contracts.Pay` | renter/proto/session.go:829-848 | keeps the outputs balanced and their total; valid outputs move by the cost, the missed ones by cost and collateral, which go to the void; nothing underflows |
| `Messages.FewAppends` | ghost/session.go:300-305 | a Write request that the host reads has at most four sectors |
| `Messages.RemovedHashes` | merkle/proof.go:220-279 | a diff proof has a hash for every sector that the actions remove |
| `Messages.HashLimits` | renterhost/session.go:112-159 | a Write proof is read if and only if it has at most 125 hashes; the other responses have room for 124 |
| `Messages.WriteRequestLimit` | ghost/session.go:300-305 | a Write request is read if and only if 40 bytes for every action, a sector for every append, the amounts and 101 bytes fit in five sectors |
| `Messages.RequestLimits` | ghost/session.go:481-487 | a SectorRoots request is read if and only if its amounts take at most 3916 bytes; a Read request if and only if 48 bytes for each section and the amounts are at most 3923 |
| `Messages.SectionsFit` | ghost/session.go:560-566 | a Read of 82 sections or more is never read by the host; one of at most 80 is, with amounts below 2^128 |
| `Contracts.FileSizeCounts` | renter/proto/session.go:545-562 | the file size counted action by action is SectorSize times the number of sectors |
| `Contracts.FinalRevisionsDiffer` | renter/proto/renew.go:152-163 | what the final revisions pay, the smaller of the base price and what the renter has left; the renter's adds up; the host's always differs from it, and is balanced if and only if the old void output was zero |
| `Sessions.Host.constructor` | ghost/session.go:30-70 | no contract, nothing locked, running |
| `Sessions.Host.Store` | ghost/session.go:543-546 | the session's contract changes, in the table, or apart from it after a renewal, with the shared sector data of the contract that replaced it |
| `Sessions.Host.RpcLock` | ghost/session.go:261-293 | locks if and only if nothing is locked and the contract exists; gives its revision and signatures |
| `Sessions.Host.RpcUnlock` | ghost/session.go:295-298 | nothing is locked |
| `Sessions.Host.RpcSectorRoots` | ghost/session.go:481-556 | accepts if and only if the request can be read, the range is in the contract and there are as many values as before; then the contract takes the renter's values, and the answer is the roots of the range with their proof |
| `Sessions.Host.RpcRead` | ghost/session.go:560-659 | accepts if and only if the request can be read, every section is within the sector, not empty and aligned to segments, and the contract is not final; commits before it serves |
| `Sessions.Host.Serve` | ghost/session.go:660-703 | a section's segments and their range proof, if and only if it has the sector |
| `Sessions.Host.ApplyActions` | ghost/session.go:328-397 | succeeds if and only if the actions are valid; the roots and the new sectors after them |
| `Sessions.Host.RpcWrite` | ghost/session.go:300-462 | the diff proof and the new root, if and only if the request can be read and the actions are valid |
| `Sessions.Host.CommitWrite` | ghost/session.go:425-479 | on the renter's signature the contract has the new roots, data, file size in 64 bits, root and values |
| `Sessions.Host.RpcFormContract` | ghost/session.go:81-160 | a new contract enters the table |
| `Sessions.Host.RpcRenewAndClear` | ghost/session.go:162-259 | the new contract takes the sectors over, the old one leaves the table and stays with the session as final; a crash if and only if the session has renewed before |
| `Sessions.NewFileSize` | renter/proto/session.go:545-562 | the file size after the actions, in 64 bits |
| `Sessions.CheckSection` | renter/proto/session.go:477-505 | the response of an honest host can be read and the streaming verifier accepts it |
| `Sessions.SectionReadable` | renter/proto/session.go:455-458 | the proof of a section always fits its response |
| `Sessions.RootsReadable` | renter/proto/session.go:340-344 | so does the proof of a range of roots, for fewer than 2^17 sectors |
| `Sessions.CheckRoots` | renter/proto/session.go:349-351 | an honest host's roots pass if and only if ProofSize counts right |
| `Sessions.CheckWrite` | renter/proto/session.go:629-648 | the renter accepts the diff proof of an honest host, also when the contract becomes empty, or panics, if and only if there are 2^17 sectors or more |
| `Sessions.Session.constructor` | renter/proto/session.go:803-827 | the initial state of the step system |
| `Sessions.Session.Break` | renter/proto/session.go:755-758 | the connection ends on both sides, the host's lock and what it kept of a renewed contract with it |
| `Sessions.Session.Lock` | renter/proto/session.go:218-260 | takes the Lock step and keeps the invariant; locks if and only if both messages arrive, the host runs, the contract exists and none is locked; says that the contract is finalized if and only if its number is the last one |
| `Sessions.Session.Unlock` | renter/proto/session.go:265-278 | takes the Unlock step and keeps the invariant; refused if and only if nothing is locked |
| `Sessions.Session.FormContract` | renter/proto/formcontract.go:45-236 | payouts as FormPayouts states them, the Form step and the invariant; refused if and only if the heights are out of order, formed if and only if all four messages arrive; the contract handed back is the host's, empty and with those payouts, and a session that was open stays as it was |
| `Sessions.Session.RenewContract` | renter/proto/renew.go:41-254 | payouts as RenewPayouts states them, the Renew step and the invariant; out-of-order heights, unsatisfiable settings and, without a locked contract, the panic, each exactly; the contract handed back is the host's, with the old data and those payouts, and the session stays open on the old one |
| `Sessions.Session.AskRenewal` | renter/proto/renew.go:164-253 | the four messages; handed back if and only if all arrive and the session has not renewed before |
| `Sessions.Session.AskSectorRoots` | renter/proto/session.go:322-348 | the paid exchange of messages, which may stop after any of them; the true roots and their proof come back |
| `Sessions.Session.PaidSectorRoots` | renter/proto/session.go:322-352 | the exchange and the check: an invalid proof if and only if ProofSize does not count right, and then both sides already have the new revision |
| `Sessions.Session.SectorRoots` | renter/proto/session.go:296-352 | takes the SectorRoots step and keeps the invariant, also after a renewal; the roots returned are the contract's own; each of its refusals exactly; when it asked, the price has moved from the renter's outputs to the host's and the void, also with an invalid proof; it never panics |
| `Sessions.Session.ReadSection` | renter/proto/session.go:449-511 | one section: the true segments of the sector with that root, if and only if the host has it |
| `Sessions.Session.ReadSections` | renter/proto/session.go:448-511 | all of them, if and only if the host has every sector |
| `Sessions.Session.AskRead` | renter/proto/session.go:418-528 | the exchange: payment first, then the stream |
| `Sessions.Session.Read` | renter/proto/session.go:384-528 | takes the Read step and keeps the invariant; an honest host's proof is never refused, and what is returned are the true segments; each refusal exactly; done, the price has moved from the renter's outputs to the host's and the void |
| `Sessions.Session.WriteProof` | renter/proto/session.go:629-648 | gets through if and only if request and proof can be read, the actions are valid and the check does not panic |
| `Sessions.Session.AskWrite` | renter/proto/session.go:595-670 | payment of price and capped collateral and append roots, then the messages; when it panics, exactly |
| `Sessions.Session.SendWrite` | renter/proto/session.go:613-670 | the four messages of Write, stopping after any of them |
| `Sessions.Session.SignWrite` | renter/proto/session.go:650-669 | the exchange of signatures, on which the host commits |
| `Sessions.Session.Write` | renter/proto/session.go:532-670 | takes the Write step and keeps the invariant, also after a renewal; an honest host's proof is never refused; each refusal exactly; done, the price has moved to the host and the void, and the collateral, at most what the host has, from its missed output to the void; it panics if and only if a sector has the wrong size or a good proof takes the contract to 2^17 sectors |
| `Protocol.ChargeKeeps` | renter/proto/session.go:322-352 | a paid read or root request, wherever it is interrupted, keeps the invariant and only moves revisions on, also in a session that has renewed |
| `Protocol.WriteKeeps` | renter/proto/session.go:586-670 | so does a Write |
| `Protocol.FormKeeps` | ghost/session.go:81-160 | so does forming a contract, which leaves an open session as it was; the contract handed back is the host's |
| `Protocol.RenewKeeps` | ghost/session.go:162-259 | so does a renewal: the old contract leaves the table, the new one is the host's, and the session stays open, the renter on its revision and the host on the final one |
| `Protocol.LockKeeps` | ghost/session.go:261-293 | so does a lock, in the session or in a new one |
| `Protocol.WriteSectors` | ghost/session.go:464-471 | after a Write, wherever interrupted, the locked contract has its old roots or those after the actions, at most four more and 125 fewer, surely those once the renter has moved on, and other contracts keep theirs |
| `Protocol.WriteBounds` | renter/proto/session.go:595-633 | a Write that gets through adds at most four sectors and removes at most 125 |
| `Protocol.WrittenSound` | ghost/session.go:425-470 | the host's new contract has the sectors that the renter's signed revision describes, and that very revision if it had the renter's before |
| `Protocol.RootsHaveData` | ghost/session.go:328-397 | every root after the actions is an old one or that of an appended sector |
| `Protocol.StepKeeps` | renter/proto/session.go:192-205 | every step keeps, for the contracts of the table: equal constant payout sums, equal renter outputs, file size and root of the host's sectors, fewer than 2^17 of them, both signatures; in an open session that has not renewed, both sides have the same revision; in one that has, the renter's revision describes the sectors and the host has its values or is final; after an interruption the host has the renter's or the proposed one, unless the contract was renewed; a revision of the table only gives way to a higher number that leaves five times the base price |
| `Protocol.StepGone` | ghost/session.go:237-248 | a contract that has left the table never comes back |
| `Protocol.RunGone` | ghost/session.go:237-248 | nor over any run |
| `Protocol.RunKeeps` | renter/proto/session.go:192-205 | over every run the invariant holds, totals never change and revision numbers of the contracts of the table only rise |
| `Protocol.Reachable` | ghost/session.go:162-259 | every state reachable from no contracts satisfies the invariant |
| `Protocol.LockCompletes` | renter/proto/session.go:218-260 | with its messages delivered to a host that runs, Lock gives the host's revision |
| `Protocol.SectorRootsCompletes` | renter/proto/session.go:296-352 | an affordable request in bounds that the host can read advances both sides by one revision, which pays exactly the price |
| `Protocol.ReadCompletes` | renter/proto/session.go:384-528 | so does an affordable Read of sectors in the contract, unless it is the final one of a renewal |
| `Protocol.WriteCompletes` | renter/proto/session.go:532-670 | an affordable Write advances both sides, pays exactly the price and the capped collateral, and the host's roots are those after the actions, if and only if it is valid, its request can be read, its proof has at most 125 hashes and the contract stays below 2^17 sectors; otherwise the session ends with nothing changed |
| `Protocol.TwoSessionsDisagree` | ghost/session.go:261-293 | with two sessions on one contract, after one has paid the other's revision is neither the host's nor one it has proposed; and if it pays another price the host takes a different revision with the same number |
| `Renewals.LeftBehindStep` | ghost/session.go:237-248 | the session's contract leaves the table by its renewal, and the session leaves it by a new lock, an unlock or a new connection, and by nothing else |
| `Renewals.RenewedExactly` | renter/proto/renew.go:41-254 | over every run: the session's contract has left the table if and only if the session has renewed it since it locked it, and in an open session that has not, both sides have the same revision, the table's |
| `Renewals.RunSince` | ghost/session.go:162-259 | over every run within a session that has renewed: nothing moves until the renter's number does; then the host has the renter's values and a file size counted from zero |
| `Renewals.RenewedSession` | renter/proto/renew.go:41-254 | so in such a session the host has the final revision until the renter's number moves, and then the renter's number; the two agree from then on if and only if the contract had no sectors when it was renewed; the contracts of the table stay as they are but for the data shared with the new one |
| `Renewals.RenewedRevisable` | ghost/session.go:481-556 | for every renewed contract with a sector: the next affordable SectorRoots completes, and the host then has a lower number again, no file size and no root, in a revision that the renter has not signed |
| `Renewals.ReadAfterRenewal` | ghost/session.go:584-594 | in such a session the host reads well-formed sections if and only if the renter's number has moved since the renewal |
| `Renewals.CrashesExactly` | ghost/session.go:237-246 | the host crashes if and only if a session renews a second time and its signatures arrive |
| `Deletion.RootIndices` | renter/proto/session.go:694-708 | each root of the contract with an index where it is |
| `Deletion.BadIndices` | renter/proto/session.go:710-721 | one index for each requested root that is in the contract, however often it is requested |
| `Deletion.ChosenRemoved` | renter/proto/session.go:710-721 | those indices hold one occurrence of each such root |
| `Deletion.SwapStep` | renter/proto/session.go:725-739 | each swap puts one more of them at the end and permutes the rest |
| `Deletion.TrimRemoves` | renter/proto/session.go:740-744 | after the swaps the last places hold exactly what is to go |
| `Deletion.DeleteActions` | renter/proto/session.go:687-752 | the actions are valid for the host and remove exactly one occurrence of each requested root present, keeping all others as a multiset |
| `Deletion.TrimDeletes` | renter/proto/session.go:740-744 | the swaps and the trim together remove one occurrence of each requested root |
| `Deletion.DeletedExactly` | renter/proto/session.go:687-752 | what a deletion leaves: of every requested root that was there one occurrence fewer, and of the others as many as before |
| `Sessions.Session.NextRoots` | renter/proto/session.go:696-707 | one chunk of the contract's roots; an invalid proof only for a chunk that does not reach the end |
| `Sessions.Session.AllRoots` | renter/proto/session.go:692-708 | all the roots and nothing else changed, in as few calls as chunks of 130000 allow; an invalid proof only in a contract of more than one chunk; no panic |
| `Sessions.Session.WriteDeletion` | renter/proto/session.go:725-752 | the Write of the actions; its proof is never refused and it never panics |
| `Sessions.Session.DeleteSectors` | renter/proto/session.go:687-752 | end to end: done, the host's roots are the old multiset without one occurrence of each requested root present, and these are at most 125; interrupted, those or the old ones; refused, the old ones; other contracts keep theirs; no panic |
| `Scheduler.StepMoves` | renter/renterutil/fileops.go:416-471 | every step keeps the number of places a shard is in |
| `Scheduler.WorkersApart` | renter/renterutil/fileops.go:416-442 | no two workers have the same shard, so none writes another's buffer |
| `Scheduler.StepKeepsLocks` | renter/renterutil/hostset.go:59-159 | a host's token is with a worker exactly when that worker has acquired it |
| `Scheduler.StepKeeps` | renter/renterutil/fileops.go:405-471 | every step keeps: each shard in exactly one of queued, outstanding, good and failed; the counts; the supply of requests; the locks; a buffer is full if and only if its shard is good or answered so, and its host is then in the set; no host is waited for while another in the queue has not been tried |
| `Scheduler.StepTriesFirst` | renter/renterutil/fileops.go:451-469 | no host is waited for while another in the queue has not been tried: retries go behind |
| `Scheduler.StepAnswers` | renter/renterutil/fileops.go:416-442 | a step makes a shard good if and only if it is the end of its successful download, which fills its buffer, and failed if and only if its host is missing or its download ends with an error |
| `Scheduler.RunAnswers` | renter/renterutil/fileops.go:416-442 | the same over every run |
| `Scheduler.SendsFit` | renter/renterutil/fileops.go:409-410 | no send on either channel and no release ever blocks |
| `Scheduler.NeverWaitsForNothing` | renter/renterutil/fileops.go:449-450 | while the loop runs something is outstanding |
| `Scheduler.HolderFinishes` | renter/renterutil/hostset.go:125-159 | a host that a worker has acquired is released by a step of that worker: workers never wait for each other in a circle |
| `Scheduler.WorkerGoesOn` | renter/renterutil/fileops.go:417-441 | a worker that does not wait for someone outside, or else the one it waits for, can take a step |
| `Scheduler.Progress` | renter/renterutil/fileops.go:447-471 | while the loop runs it or a worker can take a step, unless a worker has a request and every such worker waits for a host of the set that someone else has locked |
| `Scheduler.LoopEnds` | renter/renterutil/fileops.go:449-476 | it ends with no worker at work, and with exactly the needed shards or every host accounted for; the full buffers are those of the good shards |
| `Scheduler.RankDrops` | renter/renterutil/fileops.go:447-471 | every step of its own decreases a rank |
| `Scheduler.RunKeeps` | renter/renterutil/fileops.go:405-471 | over every run the invariant holds and the number of its own steps is bounded by the rank |
| `Scheduler.CanEnd` | renter/renterutil/fileops.go:447-471 | from every state the loop can be brought to its end if others only release hosts, and by its own steps alone if they have none |
| `Scheduler.EveryRunEnds` | renter/renterutil/fileops.go:447-471 | without other users, a run of its own steps that cannot be continued has left the loop |
| `Scheduler.UntriedDrops` | renter/renterutil/fileops.go:454-460 | a retry uses up the shard's one non-blocking request |
| `Scheduler.RetryBound` | renter/renterutil/fileops.go:454-460 | over every run, retries of a shard are at most its unused non-blocking requests |
| `Scheduler.StartInv` | renter/renterutil/fileops.go:405-445 | the initial queue and requests satisfy the invariant |
| `Scheduler.DownloadRuns` | renter/renterutil/fileops.go:399-476 | every run from the start keeps the invariant, takes at most eleven steps per host and retries each shard at most once |
| `Scheduler.DownloadAnswers` | renter/renterutil/fileops.go:399-476 | over every run from the start: good are exactly the shards that were downloaded, and their buffers are exactly the full ones, from hosts of the set; failed are exactly those given up; none is both |
| `Scheduler.DownloadEnds` | renter/renterutil/fileops.go:399-476 | from the start, however it is scheduled and whichever hosts are missing or fail: it ends with no worker at work and exactly the shards that were downloaded in full buffers, never more than needed, and with fewer only if every other shard was given up |
| `FileReads.SectionIsCodeword` | renter/renterutil/fileops.go:392-397 | the same section of every shard of a codeword is a codeword |
| `FileReads.JoinedOfSection` | renter/renterutil/fileops.go:392-397 | what a section of whole segments holds is that part of what the shards hold |
| `FileReads.Range` | renter/renterutil/fileops.go:392-397 | the section downloaded is of whole segments, within the shards, starts in the chunk of the first byte and covers the last |
| `FileReads.FromShards` | renter/renterutil/fileops.go:478-483 | from the section of any set of shards, as many as are needed, the wanted bytes of the file |
| `FileReads.ReadAt` | renter/renterutil/fileops.go:361-500 | fileReadAt end to end: past the end nothing and end of file; otherwise, after any finished run of the download, it fails if and only if fewer shards than needed were downloaded, and what it reads are the bytes of the file, up to its end |
| `Chain.FoldParity` | wallet/wallet.go:324-335 | with alternating diffs, folding them one by one flips an output exactly when it appears an odd number of times, and its first diff tells where it started |
| `Wallet.Surviving` | wallet/wallet.go:326-335 | the set that insertion and deletion leave is the outputs that appear an odd number of times |
| `Wallet.FilterOutputs` | wallet/wallet.go:336-357 | each owned surviving output once, under the direction of its first diff, and no other |
| `Wallet.OutputsTracked` | wallet/wallet.go:323-357 | deleting the reverted and inserting the applied ones leaves exactly the owned part of the naive fold |
| `Wallet.FilterTxn` | wallet/wallet.go:418-446 | one transaction is kept if and only if it is relevant, under each owned address it touches |
| `Wallet.FilterBlock` | wallet/wallet.go:416-446 | so for a block |
| `Wallet.FilterTxns` | wallet/wallet.go:366-446 | so for all blocks, in order |
| `Wallet.FilterConsensusChange` | wallet/wallet.go:323-524 | outputs, transactions and address lists of both directions, and the block counts |
| `Store.IndexTracked` | wallet/ephemeralstore.go:50-60 | removing the reverted ids and appending the applied ones gives the relevant ids of the new chain, without duplicates |
| `Store.RemoveOne` | wallet/ephemeralstore.go:54-59 | the first occurrence goes, the rest stays in order |
| `Store.RevertAddresses` | wallet/ephemeralstore.go:61-72 | each address list loses exactly its reverted ids |
| `Store.ApplyAddresses` | wallet/ephemeralstore.go:84-86 | each address list gains exactly its applied ids |
| `Store.AddressesTracked` | wallet/ephemeralstore.go:61-86 | the address index is then that of the new chain |
| `Store.StoredTracked` | wallet/ephemeralstore.go:50-83 | under every id the map holds a transaction of the new chain with that id, and one of the owner's |
| `Store.EphemeralStore.constructor` | wallet/ephemeralstore.go:251-260 | everything is empty |
| `Store.EphemeralStore.RevertOutputs` | wallet/ephemeralstore.go:30-32 | exactly the listed outputs go |
| `Store.EphemeralStore.ApplyOutputs` | wallet/ephemeralstore.go:73-75 | exactly the listed outputs come |
| `Store.EphemeralStore.RevertTxns` | wallet/ephemeralstore.go:50-60 | exactly these transactions go from the map, and the recent index still matches it |
| `Store.EphemeralStore.ApplyTxns` | wallet/ephemeralstore.go:78-83 | exactly these transactions come into the map, and the recent index still matches it |
| `Store.EphemeralStore.ApplyConsensusChange` | wallet/ephemeralstore.go:29-90 | the whole new state; map and index still match without duplicates |
| `Store.EphemeralStore.Follow` | wallet/ephemeralstore.go:29-90 | filter then apply: the store tracks the chain after the change as it tracked it before |
| `Store.FollowChain` | wallet/ephemeralstore.go:29-90 | after any run of well-formed changes: outputs are the owned part of the naive fold, the recent index is the relevant transactions in order without duplicates, the map holds exactly those transactions of the chain under their ids, and each address index is the recent index filtered by the address |
| `Store.EphemeralStore.Transactions` | wallet/ephemeralstore.go:102-107 | the last n ids, or all for a negative or too large n |
| `Store.EphemeralStore.TransactionsByAddress` | wallet/ephemeralstore.go:110-116 | the last n of the chain's transactions that touch an owned address |
| `Funding.FundAtLeast` | wallet/builder.go:34-42 | the shortest non-empty prefix that covers the amount, and the change; fails if and only if all inputs are not enough |
| `Funding.FundTransaction` | wallet/builder.go:47-69 | the shortest non-empty prefix that covers the amount and its own fee, the rate for the bytes of its inputs, with sum = amount + fee + change; fails only if there is none |
| `Funding.FundSiacoins` | renter/proto/formcontract.go:240-324 | outputs worth amount plus change, none of them dispensable; insufficient if and only if all together are less |
| `Codecs.RoundTrip` | renterhost/encoding.go:16-44 | a lawful codec writes exactly its size and reads the value back, whatever follows |
| `Codecs.Injective` | renterhost/encoding.go:16-44 | equal messages hold equal values and equal rests |
| `Codecs.PairLawful` | renterhost/encoding.go:16-44 | fields written one after the other are lawful |
| `Codecs.ViewLawful` | renterhost/encoding.go:16-44 | so is another view of the same fields |
| `Codecs.Uint64Lawful` | renterhost/encoding.go:89-105 | eight bytes, least significant first; reading fails if and only if fewer are left |
| `Codecs.BooleanLawful` | renterhost/encoding.go:65-87 | one byte; reading fails if and only if none is left or it is neither 0 nor 1 |
| `Codecs.BytesLawful` | renterhost/encoding.go:120-129 | length-prefixed bytes; reading fails if and only if the length is cut off or more than is left |
| `Codecs.ListLawful` | renterhost/encoding.go:107-118 | length-prefixed lists: the guard never rejects a valid encoding if it reckons with no more than the smallest element, and rejects every count for which there is no room |
| `Codecs.CurrencyLawful` | renterhost/encoding.go:808-858 | length-prefixed big-endian amounts without leading zeros |
| `Encoding.SiaPublicKeyLawful` | renterhost/encoding.go:724-739 | lawful, and its smallest encoding is the size the guard uses |
| `Encoding.CoveredFieldsLawful` | renterhost/encoding.go:741-783 | lawful, with all its index lists |
| `Encoding.TransactionSignatureLawful` | renterhost/encoding.go:785-806 | lawful |
| `Encoding.UnlockConditionsLawful` | renterhost/encoding.go:860-887 | lawful |
| `Encoding.SiacoinInputLawful` | renterhost/encoding.go:889-904 | lawful |
| `Encoding.SiacoinOutputLawful` | renterhost/encoding.go:906-921 | lawful |
| `Encoding.SiafundInputLawful` | renterhost/encoding.go:923-940 | lawful |
| `Encoding.SiafundOutputLawful` | renterhost/encoding.go:942-959 | lawful |
| `Encoding.FileContractLawful` | renterhost/encoding.go:961-1010 | lawful |
| `Encoding.FileContractRevisionLawful` | renterhost/encoding.go:1012-1063 | lawful |
| `Encoding.StorageProofLawful` | renterhost/encoding.go:1065-1088 | lawful |
| `Encoding.TransactionLawful` | renterhost/encoding.go:1090-1221 | lawful, with every list of its parts |
| `Encoding.TransactionRoundTrip` | renterhost/encoding.go:1090-1221 | marshalling a transaction writes exactly marshalledSize bytes, and unmarshalling them with any padding gives it back and leaves the padding |
| `Encoding.FileContractRevisionRoundTrip` | renterhost/encoding.go:1012-1063 | the same for a file contract revision |
| `Encoding.HashedBytesInjective` | renterhost/encoding.go:1295-1304 | the bytes HashRevision hashes differ for different revisions |
| `Layouts.WordBytes` | renterhost/encoding.go:89-93 | byte i of an encoded uint64 is u / 256^i % 256 |
| `Layouts.LengthIs` | renterhost/encoding.go:810-834 | the number of bytes of an amount is the least that holds it |
| `Layouts.AmountBytes` | renterhost/encoding.go:836-853 | a currency is that number and then its bytes, the most significant first |
| `Layouts.PrefixedBytes` | renterhost/encoding.go:120-123 | a byte string is its length and then the bytes |
| `Layouts.ListBytes` | renterhost/encoding.go:107-109 | a list is its length and then its elements, one after the other |
| `Layouts.SiaPublicKeyLayout` | renterhost/encoding.go:730-733 | algorithm, prefixed key |
| `Layouts.CoveredFieldsLayout` | renterhost/encoding.go:743-772 | the flag and the ten lists of indices, in the order of the struct |
| `Layouts.TransactionSignatureLayout` | renterhost/encoding.go:791-797 | parent, key index, timelock, covered fields, prefixed signature |
| `Layouts.UnlockConditionsLayout` | renterhost/encoding.go:870-877 | timelock, public keys, signatures required |
| `Layouts.SiacoinInputLayout` | renterhost/encoding.go:895-898 | parent, unlock conditions |
| `Layouts.SiacoinOutputLayout` | renterhost/encoding.go:912-915 | value, unlock hash |
| `Layouts.SiafundInputLayout` | renterhost/encoding.go:929-933 | parent, unlock conditions, claim unlock hash |
| `Layouts.SiafundOutputLayout` | renterhost/encoding.go:948-952 | value, unlock hash, claim start |
| `Layouts.FileContractLayout` | renterhost/encoding.go:975-991 | file size, root, window start, window end, payout, valid outputs, missed outputs, unlock hash, revision number |
| `Layouts.FileContractRevisionLayout` | renterhost/encoding.go:1026-1043 | parent, unlock conditions, revision number, file size, root, window start, window end, valid outputs, missed outputs, unlock hash |
| `Layouts.StorageProofLayout` | renterhost/encoding.go:1071-1078 | parent, segment, hash set |
| `Layouts.TransactionLayout` | renterhost/encoding.go:1136-1177 | the ten lists in their order, each with its length, and each element as laid out above |
| `Buffers.ObjBuffer.Write` | renterhost/encoding.go:49-51 | appends the bytes |
| `Buffers.ObjBuffer.Read` | renterhost/encoding.go:53-58 | a failed read sets the error; after an error nothing is consumed |
| `Buffers.ObjBuffer.WriteBool` | renterhost/encoding.go:65-71 | appends the codec's encoding |
| `Buffers.ObjBuffer.ReadBool` | renterhost/encoding.go:73-87 | decodes as the codec does, or sets the error |
| `Buffers.ObjBuffer.WriteUint64` | renterhost/encoding.go:89-93 | appends the codec's encoding |
| `Buffers.ObjBuffer.ReadUint64` | renterhost/encoding.go:95-105 | decodes as the codec does; zero after an error |
| `Buffers.ObjBuffer.ReadPrefix` | renterhost/encoding.go:111-118 | rejects a length that cannot fit and only that; zero after an error |
| `Buffers.ObjBuffer.WritePrefixedBytes` | renterhost/encoding.go:120-123 | appends the codec's encoding |
| `Buffers.ObjBuffer.ReadPrefixedBytes` | renterhost/encoding.go:125-129 | decodes as the codec does |
| `Buffers.TopByte` | renterhost/encoding.go:838-845 | the search over words and bytes finds the most significant non-zero byte |
| `Buffers.CurrencySize` | renterhost/encoding.go:816-834 | the size of the big-endian encoding, from the bit length |
| `Buffers.MarshalCurrency` | renterhost/encoding.go:836-853 | the bytes taken out of the words are the big-endian encoding of the amount |
| `Buffers.UnmarshalCurrency` | renterhost/encoding.go:855-858 | decodes as the codec does |
| `Buffers.MarshalPublicKey` | renterhost/encoding.go:730-733 | appends the codec's encoding |
| `Buffers.UnmarshalPublicKey` | renterhost/encoding.go:735-739 | decodes as the codec does |
| `Buffers.MarshalOutput` | renterhost/encoding.go:912-915 | appends the codec's encoding |
| `Buffers.UnmarshalOutput` | renterhost/encoding.go:917-921 | decodes as the codec does |
| `Buffers.MarshalUnlockConditions` | renterhost/encoding.go:870-877 | the loop over the keys appends the codec's encoding |
| `Buffers.UnmarshalUnlockConditions` | renterhost/encoding.go:879-887 | the loop over the keys decodes as the codec does |
| `Buffers.MarshalRevision` | renterhost/encoding.go:1026-1043 | all the field writes and loops append exactly the codec's encoding |
| `Buffers.UnmarshalRevision` | renterhost/encoding.go:1045-1063 | with the sticky error, the field reads and loops decode exactly as the codec does, and fail if and only if it does |

## Left out

- Hash functions and signatures: uninterpreted; a signature is modelled by the revision it signs, and soundness results assume injective hashes and say so.
- mulTable and the SIMD variants of the slice products: only the product they tabulate is modelled.
- Erasure.CodeSomeShards: the goroutines run one after the other; each writes only its own columns, which is what `CodeRange` states.
- ErasureCoder.JoinMulti: writers that fail, and what was written before a panic.
- Append stacks of 2^17 nodes or more, for which there is no memory; the callers append at most 2^16.
- RangeVerifiers.RangeProofVerifier.Verify: assumes that the range has been read at least once; otherwise the code stops feeding the stack where the roots run out, and that verdict is not modelled.
- DiffProofs.VerifyDiffProof: invalid actions, on which the code panics, append roots other than those of PrecomputeAppendRoots, and the Update action, which it does not support.
- Map iteration and sort.Ints: modelled by the sorted members of a set.
- Wrap-around of 64-bit lengths and heights.
- Prices and collateral in the RPCs: arbitrary amounts, as they come out of MulFloat; the funds check and the collateral cap follow.
- types.Tax: taken as the code's comment gives it, 39/1000 rounded down to a multiple of the siafund count.
- Temporary network errors that leave a session usable.
- Sessions.Host.RpcLock: the signature of the challenge.
- Sessions.Host.ApplyActions: the Update action, which the renter never sends.
- Sessions.Host.RpcWrite: the Update action, and Writes without a Merkle proof.
- The size limits of the messages that form and renew contracts; Settings; deadlines, statistics, dialing and the key exchange.
- Scheduler: hosts are distinct, and the set of known hosts does not change during a download.
- FileReads.ReadAt: pending writes, reads of no bytes, files without parity shards, and the decryption of what the hosts send; a download that succeeds gives the shard's bytes.
- Wallet.FilterTxn: the addresses of a transaction are given, not collected from its parts.
- Wallet.FilterConsensusChange: block rewards, file contracts, input values and heights.
- Store.EphemeralStore.ApplyConsensusChange: block rewards, file contracts and limbo.
- Wallet: block rewards, file contracts, siafunds, limbo transactions, heights and timestamps of transactions, CalculateLimboOutputs and the BoltDB store.
- UnconfirmedParents and DistributeFunds: the search predicate of the latter is not monotone when an input is worth less than its fee.
- Funding.FundSiacoins: the choice between confirmed and limbo outputs, and outputs that are not siacoins.
- Transactions and the objects not part of a revision: their codecs are values, without the buffer updated in place; RPC messages and their encryption are not modelled.
- mergePendingWrites, fillSectors, commitPendingSlices, and metafiles.
