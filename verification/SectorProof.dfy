/** Proofs that a range of sector roots belongs to a contract (merkle/proof.go:
    BuildSectorRangeProof, VerifySectorRangeProof).  The verifier counts the hashes with ProofSize
    and takes one for each subtree that nextSubtreeSize cuts; for which contracts and ranges the
    two counts agree is what decides every verdict. */
module SectorProofs {
  import opened Bits
  import opened MerkleTree
  import opened ProofStacks
  import opened Subtrees
  import opened RangeProofs
  import opened RangeVerifiers
  import opened DiffProofs

  // ---------- alignment by halves ----------

  lemma AlignedHalf(at: nat, h: nat)
    requires h > 0
    ensures Aligned(at, h) <==> at % 2 == 0 && Aligned(at / 2, h - 1)
  {
    AlignedIs(at, h);
    AlignedIs(at / 2, h - 1);
  }

  /** A block of 2^K leaves that starts at a multiple of 2^K is cut like the first one. */
  lemma {:induction false} AlignedSum(c: nat, K: nat, i: nat, h: nat)
    requires h <= K
    ensures Aligned(Shl(c, K) + i, h) <==> Aligned(i, h)
    decreases h
  {
    if h == 0 {
      AlignedIs(Shl(c, K) + i, 0);
      AlignedIs(i, 0);
    } else {
      AlignedHalf(Shl(c, K) + i, h);
      AlignedHalf(i, h);
      assert (Shl(c, K) + i) / 2 == Shl(c, K - 1) + i / 2;
      AlignedSum(c, K - 1, i / 2, h - 1);
    }
  }

  /** The subtree cut next is the largest one. */
  lemma NextHeightLargest(i: nat, j: nat)
    requires i < j
    ensures var h := NextHeight(i, j); j < i + Pow2(h + 1) || !Aligned(i, h + 1)
  {
    var h, max := NextHeight(i, j), Log2(j - i);
    Log2Bounds(j - i);
    if h < max {
      TrailingZerosAligned(i, h + 1);
    }
  }

  lemma Pow2Order(h: nat, K: nat)
    ensures h <= K <==> Pow2(h) <= Pow2(K)
  {
    if h <= K {
      Pow2Monotone(h, K);
    } else {
      Pow2Strict(K, h);
    }
  }

  lemma NextHeightShift(c: nat, K: nat, i: nat, j: nat)
    requires i < j <= Pow2(K)
    ensures NextHeight(Shl(c, K) + i, Shl(c, K) + j) == NextHeight(i, j)
  {
    var h := NextHeight(i, j);
    NextHeightLargest(i, j);
    Pow2Order(h, K);
    AlignedSum(c, K, i, h);
    if i + Pow2(h + 1) <= j {
      Pow2Order(h + 1, K);
      AlignedSum(c, K, i, h + 1);
    }
    NextHeightMaximal(Shl(c, K) + i, h, Shl(c, K) + j);
  }

  lemma {:induction false} HeightsShift(c: nat, K: nat, i: nat, j: nat)
    requires i <= j <= Pow2(K)
    ensures |Heights(Shl(c, K) + i, Shl(c, K) + j)| == |Heights(i, j)|
    decreases j - i
  {
    if i < j {
      NextHeightShift(c, K, i, j);
      HeightsShift(c, K, i + Pow2(NextHeight(i, j)), j);
    }
  }

  /** Two multiples of 2^h are at least 2^h apart. */
  lemma MultiplesApart(i: nat, mid: nat, h: nat)
    requires Aligned(i, h) && Aligned(mid, h) && i < mid
    ensures i + Pow2(h) <= mid
  {
    AlignedIs(i, h);
    AlignedIs(mid, h);
    ShlNext(Shr(i, h), h);
    if mid < i + Pow2(h) {
      NoMultipleBetween(Shr(i, h), mid, h);
    }
  }

  /** No subtree crosses the end of its block of 2^K leaves. */
  lemma NextHeightStays(c: nat, K: nat, i: nat, j: nat)
    requires Shl(c, K) < i < Shl(c + 1, K) <= j
    ensures NextHeight(i, j) == NextHeight(i, Shl(c + 1, K))
  {
    var mid := Shl(c + 1, K);
    var h := NextHeight(i, mid);
    NextHeightLargest(i, mid);
    ShlNext(c, K);
    if Aligned(i, h + 1) {
      if h + 1 <= K {
        AlignedSum(c + 1, K, 0, h + 1);
        AlignedZero(h + 1);
        MultiplesApart(i, mid, h + 1);
      } else {
        AlignedDown(i, h + 1, K);
        AlignedSum(c, K, 0, K);
        AlignedZero(K);
        MultiplesApart(Shl(c, K), i, K);
      }
      assert false;
    }
    NextHeightMaximal(i, h, j);
  }

  lemma AlignedZero(h: nat)
    ensures Aligned(0, h)
  {
    ShlOne(h);
    AlignedShl(0, h);
  }

  lemma HeightsCons(i: nat, j: nat, h: nat)
    requires i < j && h == NextHeight(i, j)
    ensures i + Pow2(h) <= j && Heights(i, j) == [h] + Heights(i + Pow2(h), j)
  {
  }

  lemma {:induction false} HeightsSplit(c: nat, K: nat, i: nat, mid: nat, j: nat)
    requires mid == Shl(c + 1, K) && Shl(c, K) < i <= mid <= j
    ensures |Heights(i, j)| == |Heights(i, mid)| + |Heights(mid, j)|
    decreases j - i
  {
    if i < mid {
      var h := NextHeight(i, mid);
      NextHeightStays(c, K, i, j);
      HeightsCons(i, mid, h);
      HeightsCons(i, j, h);
      HeightsSplit(c, K, i + Pow2(h), mid, j);
    } else {
      assert Heights(mid, mid) == [];
    }
  }

  // ---------- counting ----------

  lemma {:induction false} BelowPow2(x: nat) returns (K: nat)
    ensures x < Pow2(K)
  {
    if x == 0 {
      K := 0;
    } else {
      K := BelowPow2(x / 2);
      K := K + 1;
    }
  }

  /** As many subtrees before s as s has ones. */
  lemma HeightsBefore(s: nat)
    ensures |Heights(0, s)| == OnesCount(s)
  {
    var K := BelowPow2(s);
    CutsAgree(s, Pow2(K), K);
    ProofSizePerfect(K, s, Pow2(K));
  }

  /** As many after e, up to the end of a perfect tree, as are missing ones. */
  lemma HeightsAfter(e: nat, K: nat)
    requires 0 < e <= Pow2(K)
    ensures |Heights(e, Pow2(K))| == OnesCount(Pow2(K) - e)
  {
    CutsAgree(0, e, K);
    ProofSizePerfect(K, 0, e);
    assert Pow2(K) - 1 - (e - 1) == Pow2(K) - e;
  }

  /** x and y agree above bit K, where x has a zero and y a one; a and b are their lower bits. */
  predicate Diverges(x: nat, y: nat, c: nat, K: nat, a: nat, b: nat) {
    a < Pow2(K) && b < Pow2(K) && x == Shl(2 * c, K) + a && y == Shl(2 * c + 1, K) + b
  }

  lemma {:induction false} XorSelf(x: nat)
    ensures BitXor(x, x) == 0
  {
    if x > 0 {
      XorSelf(x / 2);
    }
  }

  lemma DivergeStep(x: nat, y: nat, c: nat, K: nat, a: nat, b: nat)
    requires Diverges(x / 2, y / 2, c, K, a, b)
    ensures Diverges(x, y, c, K + 1, 2 * a + x % 2, 2 * b + y % 2)
  {
  }

  lemma XorHalf(x: nat, y: nat)
    ensures BitXor(x, y) == (x % 2 + y % 2) % 2 + 2 * BitXor(x / 2, y / 2)
  {
    if x == 0 && y == 0 {
      assert BitXor(0, 0) == 0;
    }
  }

  lemma LenStep(bit: nat, half: nat)
    requires bit < 2 && half > 0
    ensures BitLen(bit + 2 * half) == 1 + BitLen(half)
  {
    assert (bit + 2 * half) / 2 == half;
  }

  lemma XorStep(x: nat, y: nat)
    requires BitXor(x / 2, y / 2) > 0
    ensures BitLen(BitXor(x, y)) == 1 + BitLen(BitXor(x / 2, y / 2))
  {
    XorHalf(x, y);
    LenStep((x % 2 + y % 2) % 2, BitXor(x / 2, y / 2));
  }

  lemma SiblingsXor(x: nat)
    ensures BitLen(BitXor(2 * x, 2 * x + 1)) == 1
  {
    XorSelf(x);
    assert (2 * x) / 2 == x && (2 * x + 1) / 2 == x;
    assert BitXor(2 * x, 2 * x + 1) == 1 && BitLen(1) == 1 + BitLen(0);
  }

  lemma {:induction false} Diverge(x: nat, y: nat) returns (c: nat, K: nat, a: nat, b: nat)
    requires x < y
    ensures Diverges(x, y, c, K, a, b) && BitLen(BitXor(x, y)) == K + 1
    decreases y
  {
    if x / 2 == y / 2 {
      c, K, a, b := x / 2, 0, 0, 0;
      SiblingsXor(c);
      assert x == 2 * c && y == 2 * c + 1;
    } else {
      c, K, a, b := Diverge(x / 2, y / 2);
      DivergeStep(x, y, c, K, a, b);
      XorStep(x, y);
      K, a, b := K + 1, 2 * a + x % 2, 2 * b + y % 2;
    }
  }

  lemma OnesStep(bit: nat, x: nat)
    requires bit < 2
    ensures OnesCount(bit + 2 * x) == bit + OnesCount(x)
  {
  }

  lemma ShlHalf(c: nat, K: nat, a: nat)
    requires K > 0
    ensures (Shl(c, K) + a) / 2 == Shl(c, K - 1) + a / 2 && (Shl(c, K) + a) % 2 == a % 2
  {
  }

  /** The zeros of x under a mask of K + 1 ones, if bit K of x is a zero. */
  lemma {:induction false} MaskedZeros(x: nat, c: nat, K: nat, a: nat)
    requires a < Pow2(K) && x == Shl(2 * c, K) + a
    ensures OnesCount(AndNot(Pow2(K + 1) - 1, x)) == 1 + OnesCount(Pow2(K) - 1 - a)
    decreases K
  {
    if K == 0 {
      LowestZero(c);
    } else {
      ShlHalf(2 * c, K, a);
      MaskedStep(x, Pow2(K + 1) - 1, a, K);
      MaskedZeros(x / 2, c, K - 1, a / 2);
    }
  }

  lemma LowestZero(c: nat)
    ensures OnesCount(AndNot(1, 2 * c)) == 1 && OnesCount(0) == 0
  {
    assert OnesCount(1) == 1 + OnesCount(0);
    AndNotStep(1, 2 * c);
  }

  lemma MaskedStep(x: nat, mask: nat, a: nat, K: nat)
    requires K > 0 && a < Pow2(K) && x % 2 == a % 2 && mask == Pow2(K + 1) - 1
    ensures mask / 2 == Pow2(K) - 1 && a / 2 < Pow2(K - 1)
    ensures OnesCount(AndNot(mask, x)) == 1 - a % 2 + OnesCount(AndNot(Pow2(K) - 1, x / 2))
    ensures OnesCount(Pow2(K) - 1 - a) == 1 - a % 2 + OnesCount(Pow2(K - 1) - 1 - a / 2)
  {
    assert mask % 2 == 1 && mask / 2 == Pow2(K) - 1;
    AndNotOnes(mask, x, a % 2, Pow2(K) - 1);
    ComplementOnes(a, K);
  }

  lemma AndNotOnes(mask: nat, x: nat, bit: nat, rest: nat)
    requires mask % 2 == 1 && x % 2 == bit && rest == mask / 2
    ensures OnesCount(AndNot(mask, x)) == 1 - bit + OnesCount(AndNot(rest, x / 2))
  {
    AndNotStep(mask, x);
    OnesStep(1 - bit, AndNot(rest, x / 2));
  }

  lemma ComplementOnes(a: nat, K: nat)
    requires K > 0 && a < Pow2(K)
    ensures a / 2 < Pow2(K - 1) && OnesCount(Pow2(K) - 1 - a) == 1 - a % 2 + OnesCount(Pow2(K - 1) - 1 - a / 2)
  {
    ComplementHalf(a, K);
    OnesStep(1 - a % 2, Pow2(K - 1) - 1 - a / 2);
  }

  predicate PowerOfTwo(x: nat) {
    x > 0 && Pow2(Log2(x)) == x
  }

  lemma {:induction false} OneOne(x: nat)
    requires x > 0
    ensures OnesCount(x) >= 1 && (OnesCount(x) == 1 <==> PowerOfTwo(x))
  {
    if x > 1 {
      var half := x / 2;
      OneOne(half);
      assert OnesCount(x) == x % 2 + OnesCount(half) && Log2(x) == 1 + Log2(half);
      assert Pow2(1 + Log2(half)) == 2 * Pow2(Log2(half));
    } else {
      assert OnesCount(1) == 1 + OnesCount(0);
    }
  }

  /** The lowest K bits of x. */
  function Low(x: nat, K: nat): nat
    decreases K
  {
    if K == 0 then 0 else x % 2 + 2 * Low(x / 2, K - 1)
  }

  lemma {:induction false} LowIs(c: nat, K: nat, b: nat)
    requires b < Pow2(K)
    ensures Low(Shl(c, K) + b, K) == b
    decreases K
  {
    if K > 0 {
      LowIs(c, K - 1, b / 2);
      assert (Shl(c, K) + b) / 2 == Shl(c, K - 1) + b / 2;
    }
  }

  /** Whether ProofSize counts the hashes right of a range that ends at e, in a contract of n: the
      range goes to the end, or past the block in which e - 1 and n - 1 part the contract has a
      power of two of sectors. */
  predicate CountsRight(n: nat, e: nat)
    requires 0 < e <= n
  {
    var bits := BitLen(BitXor(e - 1, n - 1));
    e == n || (bits > 0 && PowerOfTwo(Low(n - 1, bits - 1) + 1))
  }

  /** How many hashes the verifier takes. */
  function Needed(n: nat, s: nat, e: nat): nat {
    |Heights(0, s)| + |Heights(e, n)|
  }

  /** Never fewer than ProofSize, and as many exactly under the condition above. */
  lemma HashCount(n: nat, s: nat, e: nat)
    requires s < e <= n
    ensures ProofSize(n, s, e) <= Needed(n, s, e)
    ensures ProofSize(n, s, e) == Needed(n, s, e) <==> CountsRight(n, e)
  {
    if e == n {
      CountToEnd(n, s);
    } else {
      var c, K, a, b := Diverge(e - 1, n - 1);
      CountBoth(n, s, e, c, K, a, b);
      CountsRightIs(n, e, c, K, a, b);
      OneOne(b + 1);
    }
  }

  lemma CountsRightIs(n: nat, e: nat, c: nat, K: nat, a: nat, b: nat)
    requires 0 < e < n && Diverges(e - 1, n - 1, c, K, a, b) && BitLen(BitXor(e - 1, n - 1)) == K + 1
    ensures CountsRight(n, e) <==> PowerOfTwo(b + 1)
  {
    LowIs(2 * c + 1, K, b);
    assert Low(n - 1, K) == b;
  }

  lemma CountToEnd(n: nat, s: nat)
    requires s < n
    ensures Needed(n, s, n) == ProofSize(n, s, n)
  {
    HeightsBefore(s);
    XorSelf(n - 1);
    assert Pow2(BitLen(0)) - 1 == 0 && AndNot(0, n - 1) == 0;
  }

  lemma CountBoth(n: nat, s: nat, e: nat, c: nat, K: nat, a: nat, b: nat)
    requires s < e < n && Diverges(e - 1, n - 1, c, K, a, b) && BitLen(BitXor(e - 1, n - 1)) == K + 1
    ensures Needed(n, s, e) + 1 == ProofSize(n, s, e) + OnesCount(b + 1)
  {
    HeightsBefore(s);
    RightHashes(n, s, e, c, K, a, b);
    HeightsAcross(2 * c, K, a, b);
  }

  lemma RightHashes(n: nat, s: nat, e: nat, c: nat, K: nat, a: nat, b: nat)
    requires s < e < n && Diverges(e - 1, n - 1, c, K, a, b) && BitLen(BitXor(e - 1, n - 1)) == K + 1
    ensures ProofSize(n, s, e) == OnesCount(s) + 1 + OnesCount(Pow2(K) - 1 - a)
  {
    MaskedZeros(e - 1, c, K, a);
  }

  /** From within a block to its end. */
  lemma BlockRest(c: nat, K: nat, a: nat)
    requires a < Pow2(K)
    ensures |Heights(Shl(c, K) + a + 1, Shl(c + 1, K))| == OnesCount(Pow2(K) - 1 - a)
  {
    ShlNext(c, K);
    HeightsShift(c, K, a + 1, Pow2(K));
    HeightsAfter(a + 1, K);
    assert Pow2(K) - (a + 1) == Pow2(K) - 1 - a;
  }

  /** The first leaves of a block. */
  lemma BlockStart(c: nat, K: nat, b: nat)
    requires b < Pow2(K)
    ensures |Heights(Shl(c, K), Shl(c, K) + b + 1)| == OnesCount(b + 1)
  {
    HeightsShift(c, K, 0, b + 1);
    HeightsBefore(b + 1);
  }

  /** Up to the end of one block, and then what the next one has. */
  lemma HeightsAcross(c: nat, K: nat, a: nat, b: nat)
    requires a < Pow2(K) && b < Pow2(K)
    ensures |Heights(Shl(c, K) + a + 1, Shl(c + 1, K) + b + 1)| == OnesCount(Pow2(K) - 1 - a) + OnesCount(b + 1)
  {
    var e, mid, n := Shl(c, K) + a + 1, Shl(c + 1, K), Shl(c + 1, K) + b + 1;
    ShlNext(c, K);
    HeightsSplit(c, K, e, mid, n);
    BlockRest(c, K, a);
    BlockStart(c + 1, K, b);
  }

  lemma {:induction false} OnesAtMost(x: nat, K: nat)
    requires x < Pow2(K)
    ensures OnesCount(x) <= K
  {
    if K > 0 && x > 0 {
      OnesAtMost(x / 2, K - 1);
    }
  }

  lemma DivergedBelow(y: nat, c: nat, K: nat, b: nat, L: nat)
    requires y == Shl(2 * c + 1, K) + b && y < Pow2(L)
    ensures K < L
  {
    ShlNext(2 * c, K);
    Pow2Strict(K, L);
  }

  lemma RightAtMost(n: nat, e: nat, L: nat)
    requires 0 < e <= n <= Pow2(L)
    ensures |Heights(e, n)| <= 2 * L
  {
    if e < n {
      var c, K, a, b := Diverge(e - 1, n - 1);
      DivergedBelow(n - 1, c, K, b, L);
      AcrossAtMost(2 * c, K, a, b);
      assert e == Shl(2 * c, K) + a + 1 && n == Shl(2 * c + 1, K) + b + 1;
    }
  }

  lemma AcrossAtMost(c: nat, K: nat, a: nat, b: nat)
    requires a < Pow2(K) && b < Pow2(K)
    ensures |Heights(Shl(c, K) + a + 1, Shl(c + 1, K) + b + 1)| <= 2 * K + 1
  {
    HeightsAcross(c, K, a, b);
    OnesAtMost(Pow2(K) - 1 - a, K);
    OnesAtMost(b + 1, K + 1);
  }

  /** A contract of at most 2^L sectors takes at most three hashes for each height. */
  lemma NeededAtMost(n: nat, s: nat, e: nat, L: nat)
    requires s < e <= n <= Pow2(L)
    ensures Needed(n, s, e) <= 3 * L
  {
    HeightsBefore(s);
    OnesAtMost(s, L);
    RightAtMost(n, e, L);
  }

  // ---------- a range as a list of indices ----------

  function Indices(s: nat, e: nat): (idx: seq<nat>)
    requires s <= e
    ensures |idx| == e - s
  {
    seq(e - s, i requires 0 <= i < e - s => s + i)
  }

  lemma IndicesCons(s: nat, e: nat)
    requires s < e
    ensures Indices(s, e)[0] == s && Indices(s, e)[1..] == Indices(s + 1, e)
  {
  }

  lemma {:induction false} SpanMembers(s: nat, e: nat, n: nat)
    requires s <= e
    ensures Members(Span(s, e), n) == if n <= s then [] else if n <= e then Indices(s, n) else Indices(s, e)
    decreases n
  {
    if n > 0 {
      SpanMembers(s, e, n - 1);
      if s < n <= e {
        assert Indices(s, n - 1) + [n - 1] == Indices(s, n);
      }
    }
  }

  lemma {:induction false} LeavesNeeded(at: nat, e: nat, n: nat)
    requires at <= e
    ensures TreesNeeded(at, Indices(at, e), n) == |Heights(e, n)|
    decreases e - at
  {
    if at < e {
      IndicesCons(at, e);
      LeavesNeeded(at + 1, e, n);
    }
  }

  /** The tree hashes for the leaves of a range are the hashes before it and after it. */
  lemma RangeNeeded(s: nat, e: nat, n: nat)
    requires s < e
    ensures TreesNeeded(0, Indices(s, e), n) == Needed(n, s, e)
  {
    IndicesCons(s, e);
    LeavesNeeded(s + 1, e, n);
  }

  function LeafTiles(leaves: seq<Hash>): (ts: seq<Tile>)
    ensures |ts| == |leaves|
  {
    seq(|leaves|, i requires 0 <= i < |leaves| => Tile(0, leaves[i]))
  }

  lemma Regroup(a: seq<Tile>, t: Tile, ls: seq<Tile>, r: seq<Tile>)
    ensures (a + [t]) + (ls + r) == (a + ([t] + ls)) + r
  {
  }

  lemma {:induction false} LeavesTiled(at: nat, e: nat, n: nat, trees: seq<Hash>, leaves: seq<Hash>)
    requires at <= e && |leaves| == e - at && |Heights(e, n)| <= |trees| && TreesNeeded(at, Indices(at, e), n) == |Heights(e, n)|
    ensures MultiTiles(at, Indices(at, e), n, trees, leaves) == LeafTiles(leaves) + RangeTiles(e, n, trees)
    decreases e - at
  {
    if at < e {
      IndicesCons(at, e);
      LeavesNeeded(at + 1, e, n);
      LeavesTiled(at + 1, e, n, trees, leaves[1..]);
      assert RangeTiles(at, at, trees) == [] && trees[0..] == trees;
      var t, ls, r := Tile(0, leaves[0]), LeafTiles(leaves[1..]), RangeTiles(e, n, trees);
      Regroup([], t, ls, r);
      assert [t] + ls == LeafTiles(leaves) && [] + ([t] + ls) == [t] + ls;
    } else {
      assert LeafTiles(leaves) == [];
    }
  }

  /** What VerifySectorRangeProof inserts. */
  lemma RangeTiled(s: nat, e: nat, n: nat, proof: seq<Hash>, leaves: seq<Hash>)
    requires s < e && |leaves| == e - s && Needed(n, s, e) <= |proof| && TreesNeeded(0, Indices(s, e), n) == Needed(n, s, e)
    ensures MultiTiles(0, Indices(s, e), n, proof, leaves)
         == (RangeTiles(0, s, proof) + LeafTiles(leaves)) + RangeTiles(e, n, proof[|Heights(0, s)|..])
  {
    var first, rest := RangeTiles(0, s, proof), proof[|Heights(0, s)|..];
    IndicesCons(s, e);
    LeavesNeeded(s + 1, e, n);
    LeavesTiled(s + 1, e, n, rest, leaves[1..]);
    var t, ls, r := Tile(0, leaves[0]), LeafTiles(leaves[1..]), RangeTiles(e, n, rest);
    assert MultiTiles(0, Indices(s, e), n, proof, leaves) == (first + [t]) + MultiTiles(s + 1, Indices(s + 1, e), n, rest, leaves[1..]);
    Regroup(first, t, ls, r);
    assert [t] + ls == LeafTiles(leaves);
  }

  lemma {:induction false} LeavesBuilt(all: SubtreeRoots, at: nat, e: nat, n: nat)
    requires at <= e
    ensures BuiltTrees(all, at, Indices(at, e), n) == Streamed(all, e, n)
    decreases e - at
  {
    if at < e {
      IndicesCons(at, e);
      LeavesBuilt(all, at + 1, e, n);
      assert Streamed(all, at, at) == [];
    }
  }

  /** What BuildSectorRangeProof builds. */
  lemma RangeBuilt(all: SubtreeRoots, s: nat, e: nat, n: nat)
    requires s < e
    ensures BuiltTrees(all, 0, Indices(s, e), n) == Streamed(all, 0, s) + Streamed(all, e, n)
  {
    IndicesCons(s, e);
    LeavesBuilt(all, s + 1, e, n);
  }

  // ---------- the operations ----------

  /** The proof of an honest host. */
  ghost function RangeProof(H: HashFn, roots: seq<Hash>, s: nat, e: nat): (proof: seq<Hash>)
    ensures |proof| == Needed(|roots|, s, e)
  {
    Streamed(LeafRoots(H, roots), 0, s) + Streamed(LeafRoots(H, roots), e, |roots|)
  }

  /** BuildSectorRangeProof: nothing for an empty contract; an illegal range is a panic. */
  method BuildSectorRangeProof(H: HashFn, roots: seq<Hash>, start: nat, end: nat) returns (proof: seq<Hash>)
    requires |roots| == 0 || start < end <= |roots|
    ensures proof == if |roots| == 0 then [] else RangeProof(H, roots, start, end)
  {
    if |roots| == 0 {
      return [];
    }
    ghost var all := LeafRoots(H, roots);
    proof := BuildRange(H, roots, 0, start, [], all);
    proof := BuildRange(H, roots, end, |roots|, proof, all);
    assert [] + Streamed(all, 0, start) == Streamed(all, 0, start);
  }

  /** VerifySectorRangeProof: of the range's roots and a proof for a contract of n sectors. */
  ghost function RangeVerdict(H: HashFn, proof: seq<Hash>, rangeRoots: seq<Hash>, s: nat, e: nat, n: nat, root: Hash): Verdict {
    if n == 0 then if |proof| == 0 then Accept else Reject
    else if !(s < e <= n) || |rangeRoots| != e - s then Panic
    else if |proof| != ProofSize(n, s, e) then Reject
    else MultiVerdict(H, Indices(s, e), n, proof, rangeRoots, root)
  }

  method VerifySectorRangeProof(H: HashFn, proof: seq<Hash>, rangeRoots: seq<Hash>, start: nat, end: nat, n: nat, root: Hash)
    returns (v: Verdict)
    ensures v == RangeVerdict(H, proof, rangeRoots, start, end, n, root)
  {
    if n == 0 {
      return if |proof| == 0 then Accept else Reject;
    } else if |rangeRoots| != end - start || end > n || start >= end {
      return Panic;
    }
    var size := ProofSize(n, start, end);
    if |proof| != size {
      return Reject;
    }
    RangeNeeded(start, end, n);
    var stack := new ProofStack(H);
    var ok, rest := InsertRange(stack, 0, start, proof);
    if !ok {
      return Panic;
    }
    ok := InsertLeaves(stack, rangeRoots);
    if !ok {
      return Panic;
    }
    ok, rest := InsertRange(stack, end, n, rest);
    if !ok {
      return Panic;
    }
    RangeTiled(start, end, n, proof, rangeRoots);
    assert [] + RangeTiles(0, start, proof) == RangeTiles(0, start, proof);
    var r := stack.Root();
    return if r == root then Accept else Reject;
  }

  /** The loop over the range's own roots; not ok is the stack's panic. */
  method InsertLeaves(stack: ProofStack, leaves: seq<Hash>) returns (ok: bool)
    requires stack.Valid()
    modifies stack, stack.stack
    ensures stack.Valid() && stack.stack == old(stack.stack)
    ensures ok <==> old(stack.used) + |leaves| < LIMIT
    ensures ok ==> stack.fed == old(stack.fed) + LeafTiles(leaves) && stack.used == old(stack.used) + |leaves|
  {
    for k := 0 to |leaves|
      invariant stack.Valid() && stack.stack == old(stack.stack) && stack.used == old(stack.used) + k
      invariant stack.fed == old(stack.fed) + LeafTiles(leaves[..k])
    {
      assert LeafTiles(leaves[..k]) + [Tile(0, leaves[k])] == LeafTiles(leaves[..k + 1]);
      AlignedIs(stack.used, 0);
      ok := stack.InsertNode(leaves[k], 0);
      if !ok {
        return;
      }
    }
    assert leaves[..|leaves|] == leaves;
    return true;
  }

  // ---------- the verdicts ----------

  lemma PickIndices(roots: seq<Hash>, s: nat, e: nat)
    requires s <= e <= |roots|
    ensures Pick(roots, Indices(s, e)) == roots[s..e]
  {
  }

  lemma RangePicked(roots: seq<Hash>, s: nat, e: nat)
    requires s <= e <= |roots|
    ensures Members(Span(s, e), |roots|) == Indices(s, e) && Pick(roots, Indices(s, e)) == roots[s..e]
  {
    SpanMembers(s, e, |roots|);
    assert Members(Span(s, e), |roots|) == Indices(s, e);
    PickIndices(roots, s, e);
  }

  /** An honest host's proof fits the contract. */
  lemma RangeFits(H: HashFn, roots: seq<Hash>, s: nat, e: nat)
    requires s < e <= |roots|
    ensures Fits(H, Span(s, e), |roots|, RangeProof(H, roots, s, e), roots)
  {
    var n, all := |roots|, LeafRoots(H, roots);
    RangePicked(roots, s, e);
    MembersGaps(Span(s, e), n);
    LeafRootsAre(H, roots);
    BuiltHonest(H, Span(s, e), 0, Indices(s, e), roots, all);
    RangeBuilt(all, s, e, n);
    assert FitsAt(H, Span(s, e), n, RangeProof(H, roots, s, e), roots, Indices(s, e));
  }

  /** An honest host's roots and proof are accepted exactly when ProofSize counts right and the stack
      can hold the tree, and then for exactly the contract's root; a tree it cannot hold is a panic. */
  lemma RangeComplete(H: HashFn, roots: seq<Hash>, s: nat, e: nat, root: Hash)
    requires s < e <= |roots|
    ensures RangeVerdict(H, RangeProof(H, roots, s, e), roots[s..e], s, e, |roots|, root)
         == if !CountsRight(|roots|, e) then Reject else if |roots| >= LIMIT then Panic
            else if root == Root(H, roots) then Accept else Reject
  {
    HashCount(|roots|, s, e);
    RangeFits(H, roots, s, e);
    MultiComplete(H, Span(s, e), roots, RangeProof(H, roots, s, e), root);
    RangePicked(roots, s, e);
  }

  /** Otherwise no proof at all is accepted: one of the size asked for makes the verifier run off
      its end. */
  lemma RangeNever(H: HashFn, proof: seq<Hash>, rangeRoots: seq<Hash>, s: nat, e: nat, n: nat, root: Hash)
    requires s < e <= n && |rangeRoots| == e - s && !CountsRight(n, e)
    ensures RangeVerdict(H, proof, rangeRoots, s, e, n, root) == if |proof| == ProofSize(n, s, e) then Panic else Reject
  {
    HashCount(n, s, e);
    RangeNeeded(s, e, n);
  }

  /** And where it counts right, and the stack can hold the tree, it never panics on a legal range. */
  lemma RangeSafe(H: HashFn, proof: seq<Hash>, rangeRoots: seq<Hash>, s: nat, e: nat, n: nat, root: Hash)
    requires s < e <= n && |rangeRoots| == e - s && CountsRight(n, e)
    ensures RangeVerdict(H, proof, rangeRoots, s, e, n, root) == Panic <==> n >= LIMIT && |proof| == ProofSize(n, s, e)
  {
    HashCount(n, s, e);
    RangeNeeded(s, e, n);
  }

  /** Honest tiles of a range have the roots that an honest host sends. */
  lemma {:induction false} HonestStreamed(H: HashFn, roots: seq<Hash>, all: SubtreeRoots, i: nat, j: nat, hashes: seq<Hash>)
    requires j <= |roots| && RootsOf(H, roots, all) && |Heights(i, j)| <= |hashes|
    requires HonestTiles(H, RangeTiles(i, j, hashes), i, roots)
    ensures Streamed(all, i, j) == hashes[..|Heights(i, j)|]
    decreases j - i
  {
    if i < j {
      var next := i + Pow2(NextHeight(i, j));
      HonestHead(H, roots, i, j, next, hashes);
      HonestStreamed(H, roots, all, next, j, hashes[1..]);
      StreamedCons(all, i, j, next);
      assert PartRoot(H, roots, all, i, next);
      FirstOfRange(hashes, |Heights(next, j)|);
    }
  }

  lemma HonestHead(H: HashFn, roots: seq<Hash>, i: nat, j: nat, next: nat, hashes: seq<Hash>)
    requires i < j && next == i + Pow2(NextHeight(i, j)) && |Heights(i, j)| <= |hashes|
    requires HonestTiles(H, RangeTiles(i, j, hashes), i, roots)
    ensures next <= |roots| && hashes[0] == Root(H, roots[i..next])
    ensures |Heights(next, j)| <= |hashes[1..]| && HonestTiles(H, RangeTiles(next, j, hashes[1..]), next, roots)
  {
    RangeTilesCons(i, j, hashes);
    var t, ts := Tile(NextHeight(i, j), hashes[0]), RangeTiles(next, j, hashes[1..]);
    assert ([t] + ts)[1..] == ts;
  }

  lemma FirstOfRange(hashes: seq<Hash>, k: nat)
    requires k < |hashes|
    ensures [hashes[0]] + hashes[1..][..k] == hashes[..k + 1]
  {
  }

  lemma {:induction false} LeavesTrees(H: HashFn, at: nat, e: nat, n: nat, trees: seq<Hash>, roots: seq<Hash>)
    requires at <= e && |Heights(e, n)| <= |trees| && TreesNeeded(at, Indices(at, e), n) == |Heights(e, n)|
    requires TreesHonest(H, at, Indices(at, e), n, trees, roots)
    ensures HonestTiles(H, RangeTiles(e, n, trees), e, roots)
    decreases e - at
  {
    if at < e {
      IndicesCons(at, e);
      LeavesNeeded(at + 1, e, n);
      assert Heights(at, at) == [] && trees[0..] == trees;
      LeavesTrees(H, at + 1, e, n, trees, roots);
    }
  }

  lemma FitsParts(H: HashFn, roots: seq<Hash>, s: nat, e: nat, proof: seq<Hash>)
    requires s < e <= |roots| && |proof| == Needed(|roots|, s, e) && Fits(H, Span(s, e), |roots|, proof, roots)
    ensures HonestTiles(H, RangeTiles(0, s, proof), 0, roots)
    ensures HonestTiles(H, RangeTiles(e, |roots|, proof[|Heights(0, s)|..]), e, roots)
  {
    RangePicked(roots, s, e);
    assert FitsAt(H, Span(s, e), |roots|, proof, roots, Indices(s, e));
    IndicesCons(s, e);
    LeavesNeeded(s + 1, e, |roots|);
    LeavesTrees(H, s + 1, e, |roots|, proof[|Heights(0, s)|..], roots);
  }

  /** A proof of the right size that fits the contract is the honest host's. */
  lemma FitsIsProof(H: HashFn, roots: seq<Hash>, s: nat, e: nat, proof: seq<Hash>)
    requires s < e <= |roots| && |proof| == Needed(|roots|, s, e) && Fits(H, Span(s, e), |roots|, proof, roots)
    ensures proof == RangeProof(H, roots, s, e)
  {
    var all, a := LeafRoots(H, roots), |Heights(0, s)|;
    FitsParts(H, roots, s, e, proof);
    LeafRootsAre(H, roots);
    HonestStreamed(H, roots, all, 0, s, proof);
    HonestStreamed(H, roots, all, e, |roots|, proof[a..]);
    InTwo(proof, a, Streamed(all, 0, s), Streamed(all, e, |roots|));
  }

  lemma InTwo(proof: seq<Hash>, a: nat, x: seq<Hash>, y: seq<Hash>)
    requires a <= |proof| && x == proof[..a] && |y| == |proof| - a && y == proof[a..][..|y|]
    ensures proof == x + y
  {
  }

  /** Soundness, exactly: with an injective hash and the contract's root, what is accepted are the
      contract's own roots with the honest host's proof, where ProofSize counts right and the
      contract has fewer than 2^17 sectors. */
  lemma RangeSound(H: HashFn, proof: seq<Hash>, rangeRoots: seq<Hash>, roots: seq<Hash>, s: nat, e: nat)
    requires Injective(H) && |roots| > 0
    ensures RangeVerdict(H, proof, rangeRoots, s, e, |roots|, Root(H, roots)) == Accept <==>
      && s < e <= |roots| < LIMIT && CountsRight(|roots|, e)
      && rangeRoots == roots[s..e] && proof == RangeProof(H, roots, s, e)
  {
    if s < e <= |roots| && CountsRight(|roots|, e) {
      RangeComplete(H, roots, s, e, Root(H, roots));
    }
    if RangeVerdict(H, proof, rangeRoots, s, e, |roots|, Root(H, roots)) == Accept {
      RangeAccepted(H, proof, rangeRoots, roots, s, e);
    }
  }

  lemma RangeAccepted(H: HashFn, proof: seq<Hash>, rangeRoots: seq<Hash>, roots: seq<Hash>, s: nat, e: nat)
    requires Injective(H) && |roots| > 0
    requires RangeVerdict(H, proof, rangeRoots, s, e, |roots|, Root(H, roots)) == Accept
    ensures s < e <= |roots| < LIMIT && CountsRight(|roots|, e) && rangeRoots == roots[s..e] && proof == RangeProof(H, roots, s, e)
  {
    RangePicked(roots, s, e);
    MultiSound(H, Span(s, e), roots, proof, rangeRoots);
    HashCount(|roots|, s, e);
    if !CountsRight(|roots|, e) {
      RangeNever(H, proof, rangeRoots, s, e, |roots|, Root(H, roots));
    }
    FitsIsProof(H, roots, s, e, proof);
  }

  /** Four to seven is cut into two and one. */
  lemma CutsOfSeven()
    ensures |Heights(4, 7)| == 2 && |Heights(0, 0)| == 0
  {
    assert Log2(3) == 1 && Log2(1) == 0 && Pow2(1) == 2 && TrailingZeros(4) == 2 && TrailingZeros(6) == 1;
    assert NextHeight(4, 7) == 1 && NextHeight(6, 7) == 0;
    assert Heights(7, 7) == [] && Heights(6, 7) == [0] + Heights(7, 7) && Heights(4, 7) == [1] + Heights(6, 7);
  }

  lemma SizeOfSeven()
    ensures ProofSize(7, 0, 4) == 1
  {
    assert BitXor(3, 6) == 5 && BitLen(5) == 3 && Pow2(3) == 8;
    assert AndNot(7, 3) == 4 && OnesCount(4) == 1 && OnesCount(0) == 0;
  }

  /** The first four of seven sectors: ProofSize counts one hash where two are cut, so the honest
      proof is refused and one of the right size is a panic. */
  lemma FourOfSeven(H: HashFn, roots: seq<Hash>, h: Hash)
    requires |roots| == 7
    ensures ProofSize(7, 0, 4) == 1 && Needed(7, 0, 4) == 2 && !CountsRight(7, 4)
    ensures RangeVerdict(H, RangeProof(H, roots, 0, 4), roots[0..4], 0, 4, 7, Root(H, roots)) == Reject
    ensures RangeVerdict(H, [h], roots[0..4], 0, 4, 7, Root(H, roots)) == Panic
  {
    CutsOfSeven();
    SizeOfSeven();
    HashCount(7, 0, 4);
    RangeComplete(H, roots, 0, 4, Root(H, roots));
    RangeNever(H, [h], roots[0..4], 0, 4, 7, Root(H, roots));
  }
}
