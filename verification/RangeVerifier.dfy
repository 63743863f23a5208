/** The streaming verifier (merkle/proof.go, RangeProofVerifier): it hashes the data subtree by
    subtree as it arrives, and reaches the same verdict as VerifyProof on any proof. */
module RangeVerifiers {
  import opened Bits
  import opened MerkleTree
  import opened ProofStacks
  import opened Subtrees
  import opened AppendStacks
  import opened RangeProofs

  /** The roots of the subtrees cut from [i, e). */
  function Streamed(root: SubtreeRoots, i: nat, e: nat): (hs: seq<Hash>)
    ensures |hs| == |Heights(i, e)|
    decreases e - i
  {
    if i >= e then []
    else
      var h := NextHeight(i, e);
      [root(i, i + Pow2(h))] + Streamed(root, i + Pow2(h), e)
  }

  // ---------- heights ----------

  /** A subtree of [0, s) that cannot be doubled within it is the next one cut. */
  lemma NextHeightMaximal(lo: nat, k: nat, s: nat)
    requires Aligned(lo, k) && lo + Pow2(k) <= s
    requires s < lo + Pow2(k + 1) || !Aligned(lo, k + 1)
    ensures NextHeight(lo, s) == k
  {
    var max := Log2(s - lo);
    Log2Bounds(s - lo);
    ShlOne(k + 1);
    AlignedShl(0, k + 1);
    if s - lo < Pow2(k + 1) {
      Log2Unique(s - lo, k);
    } else {
      Pow2Strict(k, max + 1);
    }
    if lo > 0 {
      TrailingZerosAligned(lo, k);
      TrailingZerosAligned(lo, k + 1);
    }
  }

  lemma HalfNotAligned(lo: nat, k: nat)
    requires Aligned(lo, k + 1)
    ensures Aligned(lo, k) && Aligned(lo + Pow2(k), k) && !Aligned(lo + Pow2(k), k + 1)
  {
    AlignedDown(lo, k + 1, k);
    AlignedNext(lo, k);
    var x := Shr(lo, k + 1);
    AlignedIs(lo, k + 1);
    ShlNext(x, k + 1);
    if Aligned(lo + Pow2(k), k + 1) {
      NoMultipleBetween(x, lo + Pow2(k), k + 1);
    }
  }

  // ---------- the data's own subtrees ----------

  /** The tiling has the subtrees of [at, n), with the roots p.  Stated for every h so that it is unfolded only where Laid is named. */
  ghost predicate RemainingTo(m: Tiling, at: nat, n: nat, p: seq<Hash>) {
    forall h: nat :: h == |Heights(at, n)| ==> Laid(m, at, n, p, h)
  }

  ghost predicate Laid(m: Tiling, at: nat, n: nat, p: seq<Hash>, h: nat)
    requires h == |Heights(at, n)|
  {
    |p| == h && Lays(m, RangeTiles(at, n, p), at)
  }

  lemma FirstTile(m: Tiling, i: nat, j: nat, p: seq<Hash>)
    requires RemainingTo(m, i, j, p) && i < j
    ensures |p| > 0 && i in m && m[i] == Tile(NextHeight(i, j), p[0])
    ensures RemainingTo(m, i + Pow2(NextHeight(i, j)), j, p[1..])
  {
    var h := NextHeight(i, j);
    assert Laid(m, i, j, p, |Heights(i, j)|);
    RangeTilesCons(i, j, p);
    LaysCons(m, Tile(h, p[0]), RangeTiles(i + Pow2(h), j, p[1..]), i);
  }

  /** The tile at p, if any, has the root of the data below it. */
  ghost predicate SumAt(m: Tiling, mine: SubtreeRoots, p: nat) {
    p in m ==> m[p].hash == mine(p, p + Pow2(m[p].height))
  }

  ghost predicate Sums(m: Tiling, mine: SubtreeRoots, s: nat, e: nat) {
    forall p: nat :: s <= p < e ==> SumAt(m, mine, p)
  }

  ghost predicate SplitsWithin(H: HashFn, mine: SubtreeRoots, s: nat, e: nat) {
    forall l: nat, j: nat :: s <= l && l + Pow2(j + 1) <= e ==> Splits(H, mine, l, j)
  }

  lemma LaysCons(m: Tiling, t: Tile, ts: seq<Tile>, at: nat)
    requires Lays(m, [t] + ts, at)
    ensures at in m && m[at] == t && Lays(m, ts, at + Pow2(t.height))
  {
    assert ([t] + ts)[1..] == ts;
  }

  lemma StreamedStep(m: Tiling, mine: SubtreeRoots, i: nat, e: nat)
    requires i < e && RemainingTo(m, i, e, Streamed(mine, i, e))
    ensures var h := NextHeight(i, e);
      && i in m && m[i] == Tile(h, mine(i, i + Pow2(h)))
      && RemainingTo(m, i + Pow2(h), e, Streamed(mine, i + Pow2(h), e))
  {
    FirstTile(m, i, e, Streamed(mine, i, e));
    assert Streamed(mine, i, e)[1..] == Streamed(mine, i + Pow2(NextHeight(i, e)), e);
  }

  lemma BetweenTiles(m: Tiling, mine: SubtreeRoots, i: nat, p: nat)
    requires Disjoint(m) && i in m && i < p < i + Pow2(m[i].height)
    ensures SumAt(m, mine, p)
  {
  }

  /** Tiles laid with the streamed roots have the roots of the data below them. */
  lemma {:induction false} StreamedTile(m: Tiling, mine: SubtreeRoots, i: nat, e: nat, p: nat)
    requires Disjoint(m) && i <= p < e && RemainingTo(m, i, e, Streamed(mine, i, e))
    ensures SumAt(m, mine, p)
    decreases e - i
  {
    var h := NextHeight(i, e);
    StreamedStep(m, mine, i, e);
    if p >= i + Pow2(h) {
      StreamedTile(m, mine, i + Pow2(h), e, p);
    } else if p > i {
      BetweenTiles(m, mine, i, p);
    }
  }

  lemma StreamedSums(m: Tiling, mine: SubtreeRoots, s: nat, e: nat)
    requires Disjoint(m) && RemainingTo(m, s, e, Streamed(mine, s, e))
    ensures Sums(m, mine, s, e)
  {
    forall p: nat | s <= p < e ensures SumAt(m, mine, p) {
      StreamedTile(m, mine, s, e, p);
    }
  }

  lemma {:induction false} InsideNode(H: HashFn, m: Tiling, mine: SubtreeRoots, s: nat, e: nat, lo: nat, k: nat)
    requires Perfect(m, lo, k) && Inside(lo, k, s, e) && Sums(m, mine, s, e) && SplitsWithin(H, mine, s, e)
    ensures Node(H, m, lo, k) == mine(lo, lo + Pow2(k))
    decreases k
  {
    if m[lo].height < k {
      InsideNode(H, m, mine, s, e, lo, k - 1);
      InsideNode(H, m, mine, s, e, lo + Pow2(k - 1), k - 1);
      assert Splits(H, mine, lo, k - 1);
    } else {
      assert SumAt(m, mine, lo);
    }
  }

  // ---------- the same verdict ----------

  /** What is left of the proof at position at: p1 for the leaves before s, p2 for those from e. */
  ghost predicate Remaining(m: Tiling, s: nat, e: nat, n: nat, at: nat, p1: seq<Hash>, p2: seq<Hash>) {
    RemainingTo(m, at, s, p1) && RemainingTo(m, if at < e then e else at, n, p2)
  }

  lemma NothingRemains(m: Tiling, at: nat, to: nat, n: nat, p: seq<Hash>)
    requires n <= at <= to && RemainingTo(m, at, n, p)
    ensures p == [] && RemainingTo(m, to, n, p)
  {
    assert Laid(m, at, n, p, |Heights(at, n)|);
  }

  /** A subtree that cannot be doubled takes the next hash. */
  lemma TakeNext(H: HashFn, m: Tiling, lo: nat, k: nat, n: nat, p: seq<Hash>)
    requires Aligned(lo, k) && lo + Pow2(k) <= n && RemainingTo(m, lo, n, p)
    requires n < lo + Pow2(k + 1) || !Aligned(lo, k + 1)
    ensures |p| > 0 && Node(H, m, lo, k) == p[0] && RemainingTo(m, lo + Pow2(k), n, p[1..])
  {
    NextHeightMaximal(lo, k, n);
    FirstTile(m, lo, n, p);
  }

  /** A subtree that a boundary cuts is not a single tile. */
  lemma CutNode(m: Tiling, s: nat, e: nat, n: nat, lo: nat, k: nat)
    requires Disjoint(m) && Perfect(m, lo, k) && s < e <= n && lo + Pow2(k) <= n && s in m && (e < n ==> e in m)
    requires !Inside(lo, k, s, e) && !Outside(lo, k, s, e)
    ensures k > 0 && m[lo].height < k
  {
    var b := if lo < s then s else e;
    assert lo < b < lo + Pow2(k) && b in m;
    assert lo + Pow2(m[lo].height) <= b;
  }

  /** Neither half of a cut subtree can be doubled within its side of the range. */
  ghost predicate Maximal(s: nat, e: nat, lo: nat, k: nat) {
    (lo < s ==> s < lo + Pow2(k + 1) || !Aligned(lo, k + 1)) && (e <= lo ==> !Aligned(lo, k + 1))
  }

  lemma HalvesMaximal(s: nat, e: nat, lo: nat, k: nat)
    requires s < e && k > 0 && Aligned(lo, k) && !Outside(lo, k, s, e)
    ensures Maximal(s, e, lo, k - 1) && Maximal(s, e, lo + Pow2(k - 1), k - 1)
    ensures Aligned(lo, k - 1) && Aligned(lo + Pow2(k - 1), k - 1)
  {
    HalfNotAligned(lo, k - 1);
  }

  /** The recursive check on a cut subtree, from its halves. */
  lemma CheckHalves(H: HashFn, mine: SubtreeRoots, s: nat, e: nat, lo: nat, k: nat, p: seq<Hash>, q: seq<Hash>,
    r: seq<Hash>, a: Hash, b: Hash)
    requires s < e && k > 0 && !Inside(lo, k, s, e) && !Outside(lo, k, s, e)
    requires Check(H, mine, s, e, lo, k - 1, p) == Popped(a, q)
    requires Check(H, mine, s, e, lo + Pow2(k - 1), k - 1, q) == Popped(b, r)
    ensures Check(H, mine, s, e, lo, k, p) == Popped(H.pair(a, b), r)
  {
  }

  /** An outside subtree takes the next hash of the proof. */
  lemma StreamOutside(H: HashFn, m: Tiling, mine: SubtreeRoots, s: nat, e: nat, n: nat, lo: nat, k: nat,
    p1: seq<Hash>, p2: seq<Hash>) returns (q1: seq<Hash>, q2: seq<Hash>)
    requires s < e <= n && Aligned(lo, k) && lo + Pow2(k) <= n && Maximal(s, e, lo, k)
    requires Outside(lo, k, s, e) && Remaining(m, s, e, n, lo, p1, p2)
    ensures Remaining(m, s, e, n, lo + Pow2(k), q1, q2)
    ensures Check(H, mine, s, e, lo, k, p1 + p2) == Popped(Node(H, m, lo, k), q1 + q2)
  {
    if lo < s {
      TakeNext(H, m, lo, k, s, p1);
      assert (p1 + p2)[0] == p1[0] && (p1 + p2)[1..] == p1[1..] + p2;
      q1, q2 := p1[1..], p2;
    } else {
      TakeNext(H, m, lo, k, n, p2);
      NothingRemains(m, lo, lo + Pow2(k), s, p1);
      assert p1 + p2 == p2 && p1 + p2[1..] == p2[1..];
      q1, q2 := p1, p2[1..];
    }
  }

  lemma StreamInside(m: Tiling, s: nat, e: nat, n: nat, lo: nat, k: nat, p1: seq<Hash>, p2: seq<Hash>)
    requires s < e <= n && Inside(lo, k, s, e) && Remaining(m, s, e, n, lo, p1, p2)
    ensures Remaining(m, s, e, n, lo + Pow2(k), p1, p2)
  {
    NothingRemains(m, lo, lo + Pow2(k), s, p1);
  }

  /** What the tiling has to be.  Stated for every v so that it is unfolded only where StreamsIf
      is named. */
  ghost predicate Streams(H: HashFn, m: Tiling, mine: SubtreeRoots, s: nat, e: nat, n: nat) {
    forall v: bool :: StreamsIf(v, H, m, mine, s, e, n)
  }

  ghost predicate StreamsIf(v: bool, H: HashFn, m: Tiling, mine: SubtreeRoots, s: nat, e: nat, n: nat) {
    v ==> Disjoint(m) && s in m && (e < n ==> e in m) && Sums(m, mine, s, e) && SplitsWithin(H, mine, s, e)
  }

  lemma StreamCut(H: HashFn, m: Tiling, mine: SubtreeRoots, s: nat, e: nat, n: nat, lo: nat, k: nat)
    requires s < e <= n && lo + Pow2(k) <= n && Perfect(m, lo, k) && Streams(H, m, mine, s, e, n) && Aligned(lo, k)
    requires !Inside(lo, k, s, e) && !Outside(lo, k, s, e)
    ensures k > 0 && Perfect(m, lo, k - 1) && Perfect(m, lo + Pow2(k - 1), k - 1)
    ensures Node(H, m, lo, k) == H.pair(Node(H, m, lo, k - 1), Node(H, m, lo + Pow2(k - 1), k - 1))
    ensures Maximal(s, e, lo, k - 1) && Maximal(s, e, lo + Pow2(k - 1), k - 1)
    ensures Aligned(lo, k - 1) && Aligned(lo + Pow2(k - 1), k - 1) && Pow2(k) == 2 * Pow2(k - 1)
  {
    assert StreamsIf(true, H, m, mine, s, e, n);
    CutNode(m, s, e, n, lo, k);
    HalvesMaximal(s, e, lo, k);
  }

  /** The recursive check computes what the tiling gives, subtree by subtree. */
  lemma {:induction false} StreamNode(H: HashFn, m: Tiling, mine: SubtreeRoots, s: nat, e: nat, n: nat, lo: nat, k: nat,
    p1: seq<Hash>, p2: seq<Hash>) returns (q1: seq<Hash>, q2: seq<Hash>)
    requires s < e <= n && Aligned(lo, k) && lo + Pow2(k) <= n && Perfect(m, lo, k) && Streams(H, m, mine, s, e, n)
    requires Remaining(m, s, e, n, lo, p1, p2) && Maximal(s, e, lo, k)
    ensures Remaining(m, s, e, n, lo + Pow2(k), q1, q2)
    ensures Check(H, mine, s, e, lo, k, p1 + p2) == Popped(Node(H, m, lo, k), q1 + q2)
    decreases k
  {
    if Inside(lo, k, s, e) {
      assert StreamsIf(true, H, m, mine, s, e, n);
      InsideNode(H, m, mine, s, e, lo, k);
      StreamInside(m, s, e, n, lo, k, p1, p2);
      q1, q2 := p1, p2;
    } else if Outside(lo, k, s, e) {
      q1, q2 := StreamOutside(H, m, mine, s, e, n, lo, k, p1, p2);
    } else {
      StreamCut(H, m, mine, s, e, n, lo, k);
      var mid := lo + Pow2(k - 1);
      var r1, r2 := StreamNode(H, m, mine, s, e, n, lo, k - 1, p1, p2);
      q1, q2 := StreamNode(H, m, mine, s, e, n, mid, k - 1, r1, r2);
      CheckHalves(H, mine, s, e, lo, k, p1 + p2, r1 + r2, q1 + q2, Node(H, m, lo, k - 1), Node(H, m, mid, k - 1));
    }
  }

  // ---------- the whole tree ----------

  /** The tiles Verify inserts: the proof's before s, the data's, the proof's from e. */
  function VerifierTiles(proof: seq<Hash>, roots: seq<Hash>, s: nat, e: nat, n: nat): seq<Tile>
    requires |proof| == |Heights(0, s)| + |Heights(e, n)| && |roots| == |Heights(s, e)|
  {
    var a := |Heights(0, s)|;
    RangeTiles(0, s, proof[..a]) + RangeTiles(s, e, roots) + RangeTiles(e, n, proof[a..])
  }

  lemma ThreeAligned(t1: seq<Tile>, t2: seq<Tile>, t3: seq<Tile>)
    requires AllAligned(t1, 0) && AllAligned(t2, Size(t1)) && AllAligned(t3, Size(t1) + Size(t2))
    ensures AllAligned(t1 + t2 + t3, 0) && Size(t1 + t2 + t3) == Size(t1) + Size(t2) + Size(t3)
  {
    SizeConcat(t1, t2);
    AlignedConcat(t1, t2, 0);
    SizeConcat(t1 + t2, t3);
    AlignedConcat(t1 + t2, t3, 0);
  }

  lemma ThreeLay(m: Tiling, t1: seq<Tile>, t2: seq<Tile>, t3: seq<Tile>)
    requires Lays(m, t1 + t2 + t3, 0)
    ensures Lays(m, t1, 0) && Lays(m, t2, Size(t1)) && Lays(m, t3, Size(t1) + Size(t2))
  {
    LaysConcat(m, t1 + t2, t3, 0);
    LaysConcat(m, t1, t2, 0);
    SizeConcat(t1, t2);
  }

  lemma VerifierTilesAligned(proof: seq<Hash>, roots: seq<Hash>, s: nat, e: nat, n: nat)
    requires |proof| == |Heights(0, s)| + |Heights(e, n)| && |roots| == |Heights(s, e)| && s <= e <= n
    ensures Size(VerifierTiles(proof, roots, s, e, n)) == n && AllAligned(VerifierTiles(proof, roots, s, e, n), 0)
  {
    var a := |Heights(0, s)|;
    PartsAligned(proof[..a], roots, proof[a..], s, e, n);
  }

  lemma PartsAligned(p1: seq<Hash>, roots: seq<Hash>, p2: seq<Hash>, s: nat, e: nat, n: nat)
    requires |p1| == |Heights(0, s)| && |roots| == |Heights(s, e)| && |p2| == |Heights(e, n)| && s <= e <= n
    ensures var ts := RangeTiles(0, s, p1) + RangeTiles(s, e, roots) + RangeTiles(e, n, p2);
      Size(ts) == n && AllAligned(ts, 0)
  {
    var t1, t2, t3 := RangeTiles(0, s, p1), RangeTiles(s, e, roots), RangeTiles(e, n, p2);
    assert Size(t1) == s && AllAligned(t1, 0) by { RangeTilesSize(0, s, p1); }
    assert Size(t2) == e - s && AllAligned(t2, s) by { RangeTilesSize(s, e, roots); }
    assert Size(t3) == n - e && AllAligned(t3, e) by { RangeTilesSize(e, n, p2); }
    ThreeAligned(t1, t2, t3);
  }

  lemma VerifierTilesLay(m: Tiling, proof: seq<Hash>, roots: seq<Hash>, s: nat, e: nat, n: nat)
    requires |proof| == |Heights(0, s)| + |Heights(e, n)| && |roots| == |Heights(s, e)| && s < e <= n
    requires Lays(m, VerifierTiles(proof, roots, s, e, n), 0)
    ensures RemainingTo(m, 0, s, proof[..|Heights(0, s)|])
    ensures RemainingTo(m, s, e, roots)
    ensures RemainingTo(m, e, n, proof[|Heights(0, s)|..])
  {
    var a := |Heights(0, s)|;
    PartsLay(m, proof[..a], roots, proof[a..], s, e, n);
  }

  lemma PartsLay(m: Tiling, p1: seq<Hash>, roots: seq<Hash>, p2: seq<Hash>, s: nat, e: nat, n: nat)
    requires |p1| == |Heights(0, s)| && |roots| == |Heights(s, e)| && |p2| == |Heights(e, n)| && s < e <= n
    requires Lays(m, RangeTiles(0, s, p1) + RangeTiles(s, e, roots) + RangeTiles(e, n, p2), 0)
    ensures RemainingTo(m, 0, s, p1) && RemainingTo(m, s, e, roots) && RemainingTo(m, e, n, p2)
  {
    var t1, t2, t3 := RangeTiles(0, s, p1), RangeTiles(s, e, roots), RangeTiles(e, n, p2);
    assert Size(t1) == s by { RangeTilesSize(0, s, p1); }
    assert Size(t2) == e - s by { RangeTilesSize(s, e, roots); }
    ThreeLay(m, t1, t2, t3);
    LaidDown(m, 0, s, p1);
    LaidDown(m, s, e, roots);
    LaidDown(m, e, n, p2);
  }

  lemma LaidDown(m: Tiling, at: nat, n: nat, p: seq<Hash>)
    requires |p| == |Heights(at, n)| && Lays(m, RangeTiles(at, n, p), at)
    ensures RemainingTo(m, at, n, p)
  {
    assert Laid(m, at, n, p, |Heights(at, n)|);
  }

  lemma {:induction false} LaysConcat(m: Tiling, a: seq<Tile>, b: seq<Tile>, at: nat)
    requires Lays(m, a + b, at)
    ensures Lays(m, a, at) && Lays(m, b, at + Size(a))
  {
    if |a| == 0 {
      assert a + b == b;
    } else {
      assert (a + b)[1..] == a[1..] + b;
      LaysConcat(m, a[1..], b, at + Pow2(a[0].height));
    }
  }

  /** The roots of the data's subtrees are pairs of the roots of their halves. */
  lemma RangeSplits(H: HashFn, segments: seq<Segment>, s: nat, e: nat)
    requires e == s + |segments|
    ensures SplitsWithin(H, Roots(H, segments, s), s, e)
  {
    var mine := Roots(H, segments, s);
    forall l: nat, j: nat | s <= l && l + Pow2(j + 1) <= e ensures Splits(H, mine, l, j) {
      SectorSplits(H, segments, l - s, j);
      RootsShift(H, segments, s, l, l + Pow2(j + 1));
      RootsShift(H, segments, s, l, l + Pow2(j));
      RootsShift(H, segments, s, l + Pow2(j), l + Pow2(j + 1));
    }
  }

  lemma RootsShift(H: HashFn, segments: seq<Segment>, s: nat, i: nat, j: nat)
    requires s <= i <= j <= s + |segments|
    ensures Roots(H, segments, s)(i, j) == Roots(H, segments, 0)(i - s, j - s)
  {
  }

  /** The root of the tiles is what the recursive check computes, and it takes every hash. */
  lemma StreamWhole(H: HashFn, mine: SubtreeRoots, s: nat, e: nat, K: nat, proof: seq<Hash>)
    requires s < e <= Pow2(K) && SplitsWithin(H, mine, s, e)
    requires |proof| == |Heights(0, s)| + |Heights(e, Pow2(K))|
    ensures var ts := VerifierTiles(proof, Streamed(mine, s, e), s, e, Pow2(K));
      Check(H, mine, s, e, 0, K, proof) == Popped(Whole(H, Place(ts, 0), 0, Pow2(K)), [])
  {
    var n, a, roots := Pow2(K), |Heights(0, s)|, Streamed(mine, s, e);
    var ts := VerifierTiles(proof, roots, s, e, n);
    var m := Place(ts, 0);
    VerifierTilesAligned(proof, roots, s, e, n);
    TilesPerfect(H, ts, K);
    PlaceDisjoint(ts, 0);
    PlaceLays(ts, 0);
    VerifierTilesLay(m, proof, roots, s, e, n);
    StreamTiling(H, m, mine, s, e, K, proof[..a], proof[a..]);
    assert proof[..a] + proof[a..] == proof;
  }

  lemma StreamTiling(H: HashFn, m: Tiling, mine: SubtreeRoots, s: nat, e: nat, K: nat, p1: seq<Hash>, p2: seq<Hash>)
    requires s < e <= Pow2(K) && SplitsWithin(H, mine, s, e) && Disjoint(m) && Perfect(m, 0, K)
    requires RemainingTo(m, 0, s, p1) && RemainingTo(m, s, e, Streamed(mine, s, e)) && RemainingTo(m, e, Pow2(K), p2)
    ensures Check(H, mine, s, e, 0, K, p1 + p2) == Popped(Node(H, m, 0, K), [])
  {
    var n := Pow2(K);
    StreamedSums(m, mine, s, e);
    FirstTile(m, s, e, Streamed(mine, s, e));
    if e < n {
      FirstTile(m, e, n, p2);
    }
    ShlOne(K);
    AlignedShl(0, K);
    assert StreamsIf(true, H, m, mine, s, e, n);
    var q1, q2 := StreamNode(H, m, mine, s, e, n, 0, K, p1, p2);
    NothingRemains(m, n, n, s, q1);
    NothingRemains(m, n, n, n, q2);
  }

  lemma TilesPerfect(H: HashFn, ts: seq<Tile>, K: nat)
    requires AllAligned(ts, 0) && Size(ts) == Pow2(K)
    ensures Perfect(Place(ts, 0), 0, K) && Whole(H, Place(ts, 0), 0, Pow2(K)) == Node(H, Place(ts, 0), 0, K)
  {
    AlignedCovered(ts);
    Log2Unique(Pow2(K), K);
  }

  /** The two ways of cutting the range take the same number of hashes. */
  lemma CutsAgree(s: nat, e: nat, K: nat)
    requires s < e <= Pow2(K)
    ensures |Heights(0, s)| + |Heights(e, Pow2(K))| == ProofSize(Pow2(K), s, e)
  {
    var c := |Heights(0, s)| + |Heights(e, Pow2(K))|;
    var z: Hash :| true;
    var H0 := HashFn((x: Hash, y: Hash) => z, (x: Segment) => z, z);
    var zeros: SubtreeRoots := (i: nat, j: nat) => z;
    var proof := seq(c, i => z);
    StreamWhole(H0, zeros, s, e, K, proof);
    CheckTakes(H0, zeros, s, e, 0, K, proof);
    CountIsProofSize(K, s, e);
  }

  /** Verify's verdict on the tiles it has. */
  ghost predicate TilesAccept(H: HashFn, proof: seq<Hash>, roots: seq<Hash>, s: nat, e: nat, K: nat, root: Hash)
    requires s < e <= Pow2(K) && |roots| == |Heights(s, e)|
  {
    && |proof| == ProofSize(Pow2(K), s, e) && |proof| == |Heights(0, s)| + |Heights(e, Pow2(K))|
    && Whole(H, Place(VerifierTiles(proof, roots, s, e, Pow2(K)), 0), 0, Pow2(K)) == root
  }

  /** The streaming verdict is VerifyProof's, for every proof, data, range and root. */
  lemma SameVerdict(H: HashFn, proof: seq<Hash>, segments: seq<Segment>, s: nat, K: nat, root: Hash)
    requires 0 < |segments| && s + |segments| <= Pow2(K)
    ensures TilesAccept(H, proof, Streamed(Roots(H, segments, s), s, s + |segments|), s, s + |segments|, K, root)
       <==> Accepts(H, proof, segments, s, K, root)
  {
    var e := s + |segments|;
    CutsAgree(s, e, K);
    RangeSplits(H, segments, s, e);
    if |proof| == ProofSize(Pow2(K), s, e) {
      StreamWhole(H, Roots(H, segments, s), s, e, K, proof);
    }
  }

  // ---------- the verifier ----------

  ghost function Sum(H: HashFn): seq<Segment> -> Hash {
    data => Root(H, LeafHashes(H, data))
  }

  /** The roots read for [i, e) from a stream of segments that may end early. */
  ghost function ReadRoots(sum: seq<Segment> -> Hash, data: seq<Segment>, i: nat, e: nat): seq<Hash>
    decreases e - i
  {
    if i >= e then []
    else
      var size := Pow2(NextHeight(i, e));
      var got := if size <= |data| then size else |data|;
      [sum(data[..got])] + ReadRoots(sum, data[got..], i + size, e)
  }

  lemma ReadOne(sum: seq<Segment> -> Hash, done: seq<Hash>, data: seq<Segment>, i: nat, e: nat)
    requires i < e
    ensures var size := Pow2(NextHeight(i, e));
      var got := if size <= |data| then size else |data|;
      done + ReadRoots(sum, data, i, e) == (done + [sum(data[..got])]) + ReadRoots(sum, data[got..], i + size, e)
  {
  }

  lemma SliceOfSlice(data: seq<Segment>, a: nat, size: nat)
    requires a + size <= |data|
    ensures data[a..][..size] == data[a..a + size] && data[a..][size..] == data[a + size..]
  {
  }

  /** mine(i, j) sums the data from i to j, which begins at s. */
  ghost predicate SumsData(sum: seq<Segment> -> Hash, mine: SubtreeRoots, data: seq<Segment>, s: nat) {
    forall i: nat, j: nat :: SumsPart(sum, mine, data, s, i, j)
  }

  ghost predicate SumsPart(sum: seq<Segment> -> Hash, mine: SubtreeRoots, data: seq<Segment>, s: nat, i: nat, j: nat) {
    s <= i <= j <= s + |data| ==> mine(i, j) == sum(data[i - s..j - s])
  }

  lemma PartSum(sum: seq<Segment> -> Hash, mine: SubtreeRoots, data: seq<Segment>, s: nat, i: nat, j: nat, part: seq<Segment>)
    requires SumsData(sum, mine, data, s) && s <= i <= j <= s + |data| && part == data[i - s..j - s]
    ensures mine(i, j) == sum(part)
  {
    assert SumsPart(sum, mine, data, s, i, j);
  }

  lemma StreamedCons(mine: SubtreeRoots, i: nat, e: nat, next: nat)
    requires i < e && next == i + Pow2(NextHeight(i, e))
    ensures Streamed(mine, i, e) == [mine(i, next)] + Streamed(mine, next, e)
  {
  }

  // the same two lists by the heights of the subtrees, whatever cuts them

  function Leaves(hs: seq<nat>): nat {
    if |hs| == 0 then 0 else Pow2(hs[0]) + Leaves(hs[1..])
  }

  ghost function ReadFor(sum: seq<Segment> -> Hash, data: seq<Segment>, hs: seq<nat>): seq<Hash>
    requires Leaves(hs) <= |data|
  {
    if |hs| == 0 then [] else [sum(data[..Pow2(hs[0])])] + ReadFor(sum, data[Pow2(hs[0])..], hs[1..])
  }

  ghost function StreamedFor(mine: SubtreeRoots, i: nat, hs: seq<nat>): seq<Hash>
    decreases |hs|
  {
    if |hs| == 0 then [] else [mine(i, i + Pow2(hs[0]))] + StreamedFor(mine, i + Pow2(hs[0]), hs[1..])
  }

  lemma {:induction false} HeightsLeaves(i: nat, e: nat)
    ensures Leaves(Heights(i, e)) == if i < e then e - i else 0
    decreases e - i
  {
    if i < e {
      HeightsLeaves(i + Pow2(NextHeight(i, e)), e);
    }
  }

  lemma {:induction false} StreamedByHeights(mine: SubtreeRoots, i: nat, e: nat)
    ensures Streamed(mine, i, e) == StreamedFor(mine, i, Heights(i, e))
    decreases e - i
  {
    if i < e {
      StreamedByHeights(mine, i + Pow2(NextHeight(i, e)), e);
    }
  }

  lemma {:induction false} ReadByHeights(sum: seq<Segment> -> Hash, data: seq<Segment>, i: nat, e: nat)
    requires Leaves(Heights(i, e)) <= |data|
    ensures ReadRoots(sum, data, i, e) == ReadFor(sum, data, Heights(i, e))
    decreases e - i
  {
    if i < e {
      var size := Pow2(NextHeight(i, e));
      ReadByHeights(sum, data[size..], i + size, e);
    }
  }

  /** From a stream that has all the data, the roots read are the roots of the data's subtrees. */
  lemma {:induction false} ReadForStreamed(sum: seq<Segment> -> Hash, data: seq<Segment>, s: nat, i: nat, hs: seq<nat>,
    rest: seq<Segment>, mine: SubtreeRoots)
    requires s <= i && i + Leaves(hs) <= s + |data| && rest == data[i - s..] && SumsData(sum, mine, data, s)
    ensures ReadFor(sum, rest, hs) == StreamedFor(mine, i, hs)
    decreases |hs|
  {
    if |hs| > 0 {
      var next := i + Pow2(hs[0]);
      SliceOfSlice(data, i - s, next - i);
      PartSum(sum, mine, data, s, i, next, data[i - s..next - s]);
      ReadForStreamed(sum, data, s, next, hs[1..], data[next - s..], mine);
    }
  }

  lemma ReadRootsStreamed(sum: seq<Segment> -> Hash, data: seq<Segment>, s: nat, mine: SubtreeRoots)
    requires SumsData(sum, mine, data, s)
    ensures ReadRoots(sum, data, s, s + |data|) == Streamed(mine, s, s + |data|)
  {
    var e := s + |data|;
    HeightsLeaves(s, e);
    ReadByHeights(sum, data, s, e);
    StreamedByHeights(mine, s, e);
    assert data[s - s..] == data;
    ReadForStreamed(sum, data, s, s, Heights(s, e), data, mine);
  }

  /** A fresh verifier that has read the data once reaches VerifyProof's verdict. */
  lemma StreamingVerdict(H: HashFn, data: seq<Segment>, s: nat, K: nat, proof: seq<Hash>, root: Hash)
    requires 0 < |data| && s + |data| <= Pow2(K)
    ensures |ReadRoots(Sum(H), data, s, s + |data|)| == |Heights(s, s + |data|)|
    ensures TilesAccept(H, proof, ReadRoots(Sum(H), data, s, s + |data|), s, s + |data|, K, root)
       <==> Accepts(H, proof, data, s, K, root)
  {
    ReadRootsStreamed(Sum(H), data, s, Roots(H, data, s));
    SameVerdict(H, proof, data, s, K, root);
  }

  /** What Verify computes: it consumes the proof and the roots in turn. */
  method TilesRoot(H: HashFn, proof: seq<Hash>, roots: seq<Hash>, s: nat, e: nat, n: nat) returns (root: Hash, rest: seq<Hash>)
    requires s <= e <= n < LIMIT && |proof| == |Heights(0, s)| + |Heights(e, n)| && |roots| >= |Heights(s, e)|
    ensures var m := |Heights(s, e)|;
      root == Whole(H, Place(VerifierTiles(proof, roots[..m], s, e, n), 0), 0, n) && rest == roots[m..]
  {
    var stack := new ProofStack(H);
    var fits, left := InsertRange(stack, 0, s, proof);
    fits, rest := InsertRange(stack, s, e, roots);
    fits, left := InsertRange(stack, e, n, left);
    TilesInTurn(proof, roots, s, e, n);
    root := stack.Root();
  }

  lemma TilesInTurn(proof: seq<Hash>, roots: seq<Hash>, s: nat, e: nat, n: nat)
    requires |proof| == |Heights(0, s)| + |Heights(e, n)| && |roots| >= |Heights(s, e)|
    ensures (([] + RangeTiles(0, s, proof)) + RangeTiles(s, e, roots)) + RangeTiles(e, n, proof[|Heights(0, s)|..])
         == VerifierTiles(proof, roots[..|Heights(s, e)|], s, e, n)
  {
    var a := |Heights(0, s)|;
    assert RangeTiles(s, e, roots) == RangeTiles(s, e, roots[..|Heights(s, e)|]);
    assert RangeTiles(0, s, proof) == RangeTiles(0, s, proof[..a]);
    assert [] + RangeTiles(0, s, proof) == RangeTiles(0, s, proof);
  }

  class RangeProofVerifier {
    const start: nat
    const end: nat
    var roots: seq<Hash>

    /** NewRangeProofVerifier */
    constructor (start: nat, end: nat)
      ensures this.start == start && this.end == end && roots == []
    {
      this.start := start;
      this.end := end;
      roots := [];
    }

    /** ReadFrom, on a stream of segments that ends with a part of one when ragged.  A stream
        that ends early is an error exactly when it ends within a segment; the roots read before it
        stay.  total is in segments, and counts those of a subtree that the stream has cut short. */
    method ReadFrom(H: HashFn, data: seq<Segment>, ragged: bool) returns (ok: bool, total: nat)
      requires end < LIMIT
      modifies this
      ensures ok <==> !ragged || end <= start + |data|
      ensures ok ==> roots == old(roots) + ReadRoots(Sum(H), data, start, end)
      ensures ok ==> total == if start < end then end - start else 0
      ensures !ok ==> old(roots) <= roots <= old(roots) + ReadRoots(Sum(H), data, start, end)
      ensures !ok ==> start + total < end
    {
      total := 0;
      var i: nat, rest := start, data;
      while i < end
        invariant start <= i && (i <= end || i == start)
        invariant i < end ==> (end <= start + |data| <==> end <= i + |rest|)
        invariant roots + ReadRoots(Sum(H), rest, i, end) == old(roots) + ReadRoots(Sum(H), data, start, end)
        invariant ragged && i >= end ==> end <= start + |data|
        invariant i == start + total && old(roots) <= roots
        decreases end - i
      {
        var size := Pow2(NextHeight(i, end));
        var got := if size <= |rest| then size else |rest|;
        ReadOne(Sum(H), roots, rest, i, end);
        var r := ReaderRoot(H, rest[..got], ragged && size > |rest|);
        if r.ReadError? {
          return false, total;
        }
        roots := roots + [r.root];
        i, total, rest := i + size, total + size, rest[got..];
      }
      return true, total;
    }

    /** Verify, once the range has been read: it uses up the roots of the first time it was. */
    method Verify(H: HashFn, K: nat, proof: seq<Hash>, root: Hash) returns (ok: bool)
      requires start < end <= Pow2(K) < LIMIT && |roots| >= |Heights(start, end)|
      modifies this
      ensures ok <==> TilesAccept(H, proof, old(roots)[..|Heights(start, end)|], start, end, K, root)
      ensures |proof| == ProofSize(Pow2(K), start, end) ==> roots == old(roots)[|Heights(start, end)|..]
      ensures |proof| != ProofSize(Pow2(K), start, end) ==> roots == old(roots)
    {
      CutsAgree(start, end, K);
      if |proof| != ProofSize(Pow2(K), start, end) {
        return false;
      }
      var r, rest := TilesRoot(H, proof, roots, start, end, Pow2(K));
      roots := rest;
      return r == root;
    }
  }
}
