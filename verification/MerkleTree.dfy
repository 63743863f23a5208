/** Merkle trees (merkle/merkle.go, merkle/stack.go).  The hash is a parameter: arbitrary
    functions on pairs of hashes and on segments, and the zero hash of the empty tree. */
module MerkleTree {
  import opened Bits

  type Hash(==, !new, 0)

  /** The data of one leaf of a sector's tree. */
  type Segment(==, !new, 0)

  /** SumPair, SumLeaf, and the zero hash. */
  datatype HashFn = HashFn(pair: (Hash, Hash) -> Hash, leaf: Segment -> Hash, zero: Hash)

  function LeafHashes(H: HashFn, segments: seq<Segment>): (hs: seq<Hash>)
    ensures |hs| == |segments|
  {
    seq(|segments|, i requires 0 <= i < |segments| => H.leaf(segments[i]))
  }

  /** The pairs (a, b) and (c, d) do not collide. */
  ghost predicate NoCollision(H: HashFn, a: Hash, b: Hash, c: Hash, d: Hash) {
    H.pair(a, b) == H.pair(c, d) ==> a == c && b == d
  }

  ghost predicate Injective(H: HashFn) {
    forall a, b, c, d :: NoCollision(H, a, b, c, d)
  }

  /** The tree of section 2.1 of RFC 6962: split at the largest power of two below n. */
  function Root(H: HashFn, leaves: seq<Hash>): Hash {
    if |leaves| == 0 then H.zero
    else if |leaves| == 1 then leaves[0]
    else
      Log2Bounds(|leaves| - 1);
      var split := Pow2(Log2(|leaves| - 1));
      H.pair(Root(H, leaves[..split]), Root(H, leaves[split..]))
  }

  // ---------- trees given by the roots of some of their perfect subtrees ----------

  /** The root of a perfect subtree with 2^height leaves. */
  datatype Tile = Tile(height: nat, hash: Hash)

  /** Tiles by the position of their first leaf. */
  type Tiling = map<nat, Tile>

  /** The root of the perfect subtree over [lo, lo + 2^k): the tile itself, or the pair of
      its halves. */
  function Node(H: HashFn, m: Tiling, lo: nat, k: nat): Hash
    decreases k
  {
    if lo in m && m[lo].height == k then m[lo].hash
    else if k == 0 then H.zero
    else H.pair(Node(H, m, lo, k - 1), Node(H, m, lo + Pow2(k - 1), k - 1))
  }

  /** The root over [lo, lo + n). */
  function Whole(H: HashFn, m: Tiling, lo: nat, n: nat): Hash
    decreases n
  {
    if n == 0 then H.zero
    else
      Log2Bounds(n);
      var k := Log2(n);
      if n == Pow2(k) then Node(H, m, lo, k)
      else H.pair(Node(H, m, lo, k), Whole(H, m, lo + Pow2(k), n - Pow2(k)))
  }

  /** The tiles make up the perfect subtree over [lo, lo + 2^k). */
  ghost predicate Perfect(m: Tiling, lo: nat, k: nat)
    decreases k
  {
    && lo in m && m[lo].height <= k
    && (m[lo].height < k ==> Perfect(m, lo, k - 1) && Perfect(m, lo + Pow2(k - 1), k - 1))
  }

  /** The tiles make up the tree over [lo, lo + n). */
  ghost predicate Covered(m: Tiling, lo: nat, n: nat)
    decreases n
  {
    n == 0 ||
    (Log2Bounds(n);
     var k := Log2(n);
     Perfect(m, lo, k) && Covered(m, lo + Pow2(k), n - Pow2(k)))
  }

  /** Two perfect halves make a perfect whole, whose root is their pair. */
  lemma MergeHalves(H: HashFn, m: Tiling, lo: nat, k: nat)
    requires Perfect(m, lo, k) && Perfect(m, lo + Pow2(k), k)
    ensures Perfect(m, lo, k + 1)
    ensures Node(H, m, lo, k + 1) == H.pair(Node(H, m, lo, k), Node(H, m, lo + Pow2(k), k))
  {
  }

  // ---------- tiles laid side by side ----------

  function Size(ts: seq<Tile>): nat {
    if |ts| == 0 then 0 else Pow2(ts[0].height) + Size(ts[1..])
  }

  /** The tiling that lays ts side by side from position at. */
  function Place(ts: seq<Tile>, at: nat): Tiling {
    if |ts| == 0 then map[] else Place(ts[1..], at + Pow2(ts[0].height))[at := ts[0]]
  }

  /** Every tile begins at a multiple of its size. */
  ghost predicate AllAligned(ts: seq<Tile>, at: nat) {
    |ts| == 0 || (Aligned(at, ts[0].height) && AllAligned(ts[1..], at + Pow2(ts[0].height)))
  }

  lemma {:induction false} SizeConcat(a: seq<Tile>, b: seq<Tile>)
    ensures Size(a + b) == Size(a) + Size(b)
  {
    if |a| == 0 {
      assert a + b == b;
    } else {
      assert (a + b)[1..] == a[1..] + b;
      SizeConcat(a[1..], b);
    }
  }

  lemma {:induction false} AlignedConcat(a: seq<Tile>, b: seq<Tile>, at: nat)
    requires AllAligned(a, at) && AllAligned(b, at + Size(a))
    ensures AllAligned(a + b, at)
  {
    if |a| == 0 {
      assert a + b == b;
    } else {
      assert (a + b)[1..] == a[1..] + b;
      AlignedConcat(a[1..], b, at + Pow2(a[0].height));
    }
  }

  lemma {:induction false} PlaceSnoc(ts: seq<Tile>, t: Tile, at: nat)
    ensures Size(ts + [t]) == Size(ts) + Pow2(t.height)
    ensures Place(ts + [t], at) == Place(ts, at)[at + Size(ts) := t]
  {
    if |ts| == 0 {
      assert ts + [t] == [t];
    } else {
      assert (ts + [t])[1..] == ts[1..] + [t];
      PlaceSnoc(ts[1..], t, at + Pow2(ts[0].height));
    }
  }

  lemma {:induction false} PlaceKeys(ts: seq<Tile>, at: nat)
    ensures forall p :: p in Place(ts, at) ==> at <= p && p + Pow2(Place(ts, at)[p].height) <= at + Size(ts)
  {
    if |ts| > 0 {
      PlaceKeys(ts[1..], at + Pow2(ts[0].height));
    }
  }

  /** Tiles do not overlap. */
  ghost predicate Disjoint(m: Tiling) {
    forall p, q :: p in m && q in m && p < q ==> p + Pow2(m[p].height) <= q
  }

  lemma {:induction false} PlaceDisjoint(ts: seq<Tile>, at: nat)
    ensures Disjoint(Place(ts, at))
  {
    if |ts| > 0 {
      PlaceDisjoint(ts[1..], at + Pow2(ts[0].height));
      PlaceKeys(ts[1..], at + Pow2(ts[0].height));
    }
  }

  // ---------- honest tiles ----------

  /** The tile at p is the root of the leaves it stands for. */
  ghost predicate HonestAt(H: HashFn, m: Tiling, leaves: seq<Hash>, p: nat) {
    p in m ==> p + Pow2(m[p].height) <= |leaves| && m[p].hash == Root(H, leaves[p..p + Pow2(m[p].height)])
  }

  /** A range of 2^k < n <= 2^(k+1) leaves splits after the first 2^k. */
  lemma RootSplits(H: HashFn, leaves: seq<Hash>, lo: nat, n: nat, k: nat)
    requires lo + n <= |leaves| && Pow2(k) < n <= 2 * Pow2(k)
    ensures Root(H, leaves[lo..lo + n])
         == H.pair(Root(H, leaves[lo..lo + Pow2(k)]), Root(H, leaves[lo + Pow2(k)..lo + n]))
  {
    var s, p := leaves[lo..lo + n], Pow2(k);
    Log2Unique(n - 1, k);
    assert s[..p] == leaves[lo..lo + p] && s[p..] == leaves[lo + p..lo + n];
  }

  lemma {:induction false} HonestNode(H: HashFn, m: Tiling, leaves: seq<Hash>, lo: nat, k: nat)
    requires Perfect(m, lo, k) && lo + Pow2(k) <= |leaves|
    requires forall p :: lo <= p < lo + Pow2(k) ==> HonestAt(H, m, leaves, p)
    ensures Node(H, m, lo, k) == Root(H, leaves[lo..lo + Pow2(k)])
    decreases k
  {
    if m[lo].height == k {
      assert HonestAt(H, m, leaves, lo);
    } else {
      var mid := lo + Pow2(k - 1);
      HonestNode(H, m, leaves, lo, k - 1);
      HonestNode(H, m, leaves, mid, k - 1);
      RootSplits(H, leaves, lo, Pow2(k), k - 1);
    }
  }

  /** Tiles that are the roots of their leaves give the root of the tree. */
  lemma {:induction false} HonestWhole(H: HashFn, m: Tiling, leaves: seq<Hash>, lo: nat, n: nat)
    requires Covered(m, lo, n) && lo + n <= |leaves|
    requires forall p :: lo <= p < lo + n ==> HonestAt(H, m, leaves, p)
    ensures Whole(H, m, lo, n) == Root(H, leaves[lo..lo + n])
    decreases n
  {
    if n > 0 {
      Log2Bounds(n);
      var k := Log2(n);
      var mid := lo + Pow2(k);
      HonestNode(H, m, leaves, lo, k);
      HonestWhole(H, m, leaves, mid, n - Pow2(k));
      if n != Pow2(k) {
        RootSplits(H, leaves, lo, n, k);
      }
    }
  }

  /** With an injective hash, a perfect subtree with the right root has only honest tiles. */
  lemma {:induction false} SoundNode(H: HashFn, m: Tiling, leaves: seq<Hash>, lo: nat, k: nat, p: nat)
    requires Injective(H) && Disjoint(m) && Perfect(m, lo, k) && lo + Pow2(k) <= |leaves|
    requires Node(H, m, lo, k) == Root(H, leaves[lo..lo + Pow2(k)])
    requires lo <= p < lo + Pow2(k)
    ensures HonestAt(H, m, leaves, p)
    decreases k
  {
    if m[lo].height == k {
      SoundTile(H, m, leaves, lo, p);
    } else {
      var mid := lo + Pow2(k - 1);
      SoundHalves(H, m, leaves, lo, k);
      if p < mid {
        SoundNode(H, m, leaves, lo, k - 1, p);
      } else {
        SoundNode(H, m, leaves, mid, k - 1, p);
      }
    }
  }

  lemma SoundTile(H: HashFn, m: Tiling, leaves: seq<Hash>, lo: nat, p: nat)
    requires Disjoint(m) && lo in m && lo <= p < lo + Pow2(m[lo].height) <= |leaves|
    requires Node(H, m, lo, m[lo].height) == Root(H, leaves[lo..lo + Pow2(m[lo].height)])
    ensures HonestAt(H, m, leaves, p)
  {
    assert p in m ==> p == lo;
  }

  /** With an injective hash, the halves of a subtree with the right root have the right roots. */
  lemma SoundHalves(H: HashFn, m: Tiling, leaves: seq<Hash>, lo: nat, k: nat)
    requires Injective(H) && Perfect(m, lo, k) && m[lo].height < k && lo + Pow2(k) <= |leaves|
    requires Node(H, m, lo, k) == Root(H, leaves[lo..lo + Pow2(k)])
    ensures var mid, hi := lo + Pow2(k - 1), lo + Pow2(k);
      && hi == mid + Pow2(k - 1)
      && Node(H, m, lo, k - 1) == Root(H, leaves[lo..mid]) && Node(H, m, mid, k - 1) == Root(H, leaves[mid..hi])
  {
    var mid, hi := lo + Pow2(k - 1), lo + Pow2(k);
    RootSplits(H, leaves, lo, Pow2(k), k - 1);
    assert NoCollision(H, Node(H, m, lo, k - 1), Node(H, m, mid, k - 1), Root(H, leaves[lo..mid]), Root(H, leaves[mid..hi]));
  }

  /** With an injective hash, a tree with the right root has only honest tiles. */
  lemma {:induction false} SoundWhole(H: HashFn, m: Tiling, leaves: seq<Hash>, lo: nat, n: nat, p: nat)
    requires Injective(H) && Disjoint(m) && Covered(m, lo, n) && lo + n <= |leaves|
    requires Whole(H, m, lo, n) == Root(H, leaves[lo..lo + n])
    requires lo <= p < lo + n
    ensures HonestAt(H, m, leaves, p)
    decreases n
  {
    Log2Bounds(n);
    var k := Log2(n);
    var mid := lo + Pow2(k);
    if n != Pow2(k) {
      RootSplits(H, leaves, lo, n, k);
      assert NoCollision(H, Node(H, m, lo, k), Whole(H, m, mid, n - Pow2(k)),
                         Root(H, leaves[lo..mid]), Root(H, leaves[mid..lo + n]));
      if p >= mid {
        SoundWhole(H, m, leaves, mid, n - Pow2(k), p);
        return;
      }
    }
    SoundNode(H, m, leaves, lo, k, p);
  }
}
