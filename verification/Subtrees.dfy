/** The subtrees a range of leaves is cut into (merkle/proof.go, nextSubtreeSize), and why any
    aligned sequence of subtrees makes up a tree. */
module Subtrees {
  import opened Bits
  import opened MerkleTree
  import opened ProofStacks

  // ---------- aligned tiles make up a tree ----------

  /** The perfect subtrees of the set bits of a position. */
  ghost predicate Stands(m: Tiling, i: nat, x: nat)
    decreases x
  {
    x == 0 || ((x % 2 == 1 ==> Perfect(m, Shl(x - 1, i), i)) && Stands(m, i + 1, x / 2))
  }

  /** One more perfect subtree at the end carries like one more unit. */
  lemma {:induction false} StandsNext(m: Tiling, i: nat, x: nat)
    requires Stands(m, i, x) && Perfect(m, Shl(x, i), i)
    ensures Stands(m, i, x + 1)
    decreases x
  {
    if x % 2 == 1 {
      HalfShift(x, i);
      ShlNext(x - 1, i);
      assert Perfect(m, Shl(x - 1, i), i + 1);
      StandsNext(m, i + 1, x / 2);
      assert (x + 1) / 2 == x / 2 + 1;
    } else {
      assert (x + 1) / 2 == x / 2;
      assert Stands(m, i + 1, x / 2);
    }
  }

  lemma {:induction false} StandsShift(m: Tiling, i: nat, y: nat)
    ensures Stands(m, i, y) <==> Stands(m, 0, Shl(y, i))
    decreases i
  {
    if i > 0 {
      StandsShift(m, i - 1, 2 * y);
      ShlDouble(y, i - 1);
      assert Stands(m, i - 1, 2 * y) <==> Stands(m, i, y);
    }
  }

  lemma {:induction false} StandsCovered(m: Tiling, i: nat, x: nat, t: nat)
    requires Stands(m, i, x) && t < Pow2(i) && Covered(m, Shl(x, i), t)
    ensures Covered(m, 0, Shl(x, i) + t)
    decreases x
  {
    if x == 0 {
      ShlOne(i);
    } else {
      HalfShift(x, i);
      if x % 2 == 1 {
        ShlNext(x - 1, i);
        Log2Unique(Pow2(i) + t, i);
        StandsCovered(m, i + 1, x / 2, Pow2(i) + t);
      } else {
        StandsCovered(m, i + 1, x / 2, t);
      }
    }
  }

  /** The tiling m has the tiles ts laid side by side from position at. */
  ghost predicate Lays(m: Tiling, ts: seq<Tile>, at: nat) {
    |ts| == 0 || (at in m && m[at] == ts[0] && Lays(m, ts[1..], at + Pow2(ts[0].height)))
  }

  lemma {:induction false} LaysMore(m: Tiling, ts: seq<Tile>, at: nat, p: nat, t: Tile)
    requires Lays(m, ts, at) && p < at
    ensures Lays(m[p := t], ts, at)
  {
    if |ts| > 0 {
      LaysMore(m, ts[1..], at + Pow2(ts[0].height), p, t);
    }
  }

  lemma {:induction false} PlaceLays(ts: seq<Tile>, at: nat)
    ensures Lays(Place(ts, at), ts, at)
  {
    if |ts| > 0 {
      var next := at + Pow2(ts[0].height);
      PlaceLays(ts[1..], next);
      LaysMore(Place(ts[1..], next), ts[1..], next, at, ts[0]);
    }
  }

  lemma {:induction false} AlignedStands(m: Tiling, ts: seq<Tile>, at: nat)
    requires Lays(m, ts, at) && AllAligned(ts, at) && Stands(m, 0, at)
    ensures Stands(m, 0, at + Size(ts))
    decreases |ts|
  {
    if |ts| > 0 {
      var h := ts[0].height;
      var x := Shr(at, h);
      AlignedIs(at, h);
      StandsShift(m, h, x);
      StandsNext(m, h, x);
      StandsShift(m, h, x + 1);
      ShlNext(x, h);
      AlignedStands(m, ts[1..], at + Pow2(h));
    }
  }

  /** Aligned tiles laid side by side make up a tree. */
  lemma AlignedCovered(ts: seq<Tile>)
    requires AllAligned(ts, 0)
    ensures Covered(Place(ts, 0), 0, Size(ts))
  {
    PlaceLays(ts, 0);
    AlignedStands(Place(ts, 0), ts, 0);
    StandsCovered(Place(ts, 0), 0, Size(ts), 0);
  }

  // ---------- honest tiles, in order ----------

  ghost predicate HonestTile(H: HashFn, t: Tile, p: nat, leaves: seq<Hash>) {
    p + Pow2(t.height) <= |leaves| && t.hash == Root(H, leaves[p..p + Pow2(t.height)])
  }

  /** Each tile is the root of the leaves it lies over. */
  ghost predicate HonestTiles(H: HashFn, ts: seq<Tile>, at: nat, leaves: seq<Hash>) {
    |ts| == 0 || (HonestTile(H, ts[0], at, leaves) && HonestTiles(H, ts[1..], at + Pow2(ts[0].height), leaves))
  }

  lemma {:induction false} HonestConcat(H: HashFn, a: seq<Tile>, b: seq<Tile>, at: nat, leaves: seq<Hash>)
    ensures HonestTiles(H, a + b, at, leaves) <==> HonestTiles(H, a, at, leaves) && HonestTiles(H, b, at + Size(a), leaves)
  {
    if |a| == 0 {
      assert a + b == b;
    } else {
      assert (a + b)[1..] == a[1..] + b;
      HonestConcat(H, a[1..], b, at + Pow2(a[0].height), leaves);
    }
  }

  lemma {:induction false} HonestPlaced(H: HashFn, ts: seq<Tile>, at: nat, leaves: seq<Hash>, p: nat)
    requires HonestTiles(H, ts, at, leaves)
    ensures HonestAt(H, Place(ts, at), leaves, p)
  {
    if |ts| > 0 && p != at {
      HonestPlaced(H, ts[1..], at + Pow2(ts[0].height), leaves, p);
    }
  }

  lemma {:induction false} PlacedHonest(H: HashFn, m: Tiling, ts: seq<Tile>, at: nat, leaves: seq<Hash>, n: nat)
    requires Lays(m, ts, at) && at + Size(ts) <= n && forall p :: 0 <= p < n ==> HonestAt(H, m, leaves, p)
    ensures HonestTiles(H, ts, at, leaves)
    decreases |ts|
  {
    if |ts| > 0 {
      assert HonestAt(H, m, leaves, at);
      PlacedHonest(H, m, ts[1..], at + Pow2(ts[0].height), leaves, n);
    }
  }

  /** Honest aligned tiles give the root of the tree. */
  lemma HonestRoot(H: HashFn, ts: seq<Tile>, leaves: seq<Hash>)
    requires AllAligned(ts, 0) && Size(ts) == |leaves| && HonestTiles(H, ts, 0, leaves)
    ensures Whole(H, Place(ts, 0), 0, |leaves|) == Root(H, leaves)
  {
    AlignedCovered(ts);
    forall p | 0 <= p < 0 + |leaves| ensures HonestAt(H, Place(ts, 0), leaves, p) {
      HonestPlaced(H, ts, 0, leaves, p);
    }
    HonestWhole(H, Place(ts, 0), leaves, 0, |leaves|);
    assert leaves[0..0 + |leaves|] == leaves;
  }

  /** With an injective hash, aligned tiles that give the right root are honest. */
  lemma SoundRoot(H: HashFn, ts: seq<Tile>, leaves: seq<Hash>)
    requires Injective(H) && AllAligned(ts, 0) && Size(ts) == |leaves|
    requires Whole(H, Place(ts, 0), 0, |leaves|) == Root(H, leaves)
    ensures HonestTiles(H, ts, 0, leaves)
  {
    var m, n := Place(ts, 0), |leaves|;
    AlignedCovered(ts);
    PlaceDisjoint(ts, 0);
    PlaceLays(ts, 0);
    assert leaves[0..0 + n] == leaves;
    forall p | 0 <= p < n ensures HonestAt(H, m, leaves, p) {
      SoundWhole(H, m, leaves, 0, n, p);
    }
    PlacedHonest(H, m, ts, 0, leaves, n);
  }

  // ---------- cutting a range ----------

  /** nextSubtreeSize, as a height: the largest aligned subtree at i that ends by j. */
  function NextHeight(i: nat, j: nat): (h: nat)
    requires i < j
    ensures Aligned(i, h) && i + Pow2(h) <= j
  {
    var max := Log2(j - i);
    Log2Bounds(j - i);
    if i == 0 then
      ShlOne(max); AlignedShl(0, max);
      max
    else if TrailingZeros(i) > max then
      TrailingZerosAligned(i, max);
      max
    else
      TrailingZerosAligned(i, TrailingZeros(i));
      Pow2Monotone(TrailingZeros(i), max);
      TrailingZeros(i)
  }

  /** The heights of the subtrees cut from [i, j), left to right. */
  function Heights(i: nat, j: nat): (hs: seq<nat>)
    decreases j - i
  {
    if i >= j then [] else [NextHeight(i, j)] + Heights(i + Pow2(NextHeight(i, j)), j)
  }

  /** The subtrees of [i, j) with the given roots. */
  function RangeTiles(i: nat, j: nat, hashes: seq<Hash>): (ts: seq<Tile>)
    requires |Heights(i, j)| <= |hashes|
    ensures |ts| == |Heights(i, j)|
  {
    seq(|Heights(i, j)|, k requires 0 <= k < |Heights(i, j)| => Tile(Heights(i, j)[k], hashes[k]))
  }

  lemma RangeTilesCons(i: nat, j: nat, hashes: seq<Hash>)
    requires i < j && |Heights(i, j)| <= |hashes|
    ensures var h := NextHeight(i, j);
      && |Heights(i + Pow2(h), j)| <= |hashes[1..]|
      && RangeTiles(i, j, hashes) == [Tile(h, hashes[0])] + RangeTiles(i + Pow2(h), j, hashes[1..])
  {
  }

  lemma {:induction false} RangeTilesSize(i: nat, j: nat, hashes: seq<Hash>)
    requires i <= j && |Heights(i, j)| <= |hashes|
    ensures Size(RangeTiles(i, j, hashes)) == j - i
    ensures AllAligned(RangeTiles(i, j, hashes), i)
    decreases j - i
  {
    if i < j {
      RangeTilesCons(i, j, hashes);
      var h := NextHeight(i, j);
      RangeTilesSize(i + Pow2(h), j, hashes[1..]);
    }
  }

  // ---------- inserting a range ----------

  /** One subtree inserted, the rest to come. */
  lemma InsertStep(fed: seq<Tile>, i: nat, j: nat, hashes: seq<Hash>)
    requires i < j && |hashes| > 0
    ensures var next := i + Pow2(NextHeight(i, j));
      && (|Heights(i, j)| <= |hashes| <==> |Heights(next, j)| <= |hashes[1..]|)
      && (|Heights(i, j)| <= |hashes| ==>
            && fed + RangeTiles(i, j, hashes) == (fed + [Tile(NextHeight(i, j), hashes[0])]) + RangeTiles(next, j, hashes[1..])
            && hashes[|Heights(i, j)|..] == hashes[1..][|Heights(next, j)|..])
  {
    if |Heights(i, j)| <= |hashes| {
      RangeTilesCons(i, j, hashes);
    }
  }

  lemma InsertDone(fed: seq<Tile>, i: nat, j: nat, hashes: seq<Hash>)
    requires i >= j
    ensures Heights(i, j) == [] && fed + RangeTiles(i, j, hashes) == fed && hashes[|Heights(i, j)|..] == hashes
  {
  }

  /** insertRange: the subtrees of [from, to) with the next hashes as their roots.  Running out
      of hashes or of entries, an index panic in verifyMulti, is ok == false. */
  method InsertRange(stack: ProofStack, from: nat, to: nat, hashes: seq<Hash>) returns (ok: bool, rest: seq<Hash>)
    requires stack.Valid() && stack.used == from <= to
    modifies stack, stack.stack
    ensures stack.Valid() && stack.stack == old(stack.stack)
    ensures ok <==> to < LIMIT && |Heights(from, to)| <= |hashes|
    ensures ok ==> stack.fed == old(stack.fed) + RangeTiles(from, to, hashes) && stack.used == to
    ensures ok ==> rest == hashes[|Heights(from, to)|..]
  {
    var i: nat := from;
    rest := hashes;
    while i < to
      invariant stack.Valid() && stack.stack == old(stack.stack) && stack.used == i <= to
      invariant |Heights(from, to)| <= |hashes| <==> |Heights(i, to)| <= |rest|
      invariant |Heights(i, to)| <= |rest| ==>
        && stack.fed + RangeTiles(i, to, rest) == old(stack.fed) + RangeTiles(from, to, hashes)
        && rest[|Heights(i, to)|..] == hashes[|Heights(from, to)|..]
    {
      if |rest| == 0 {
        return false, rest;
      }
      InsertStep(stack.fed, i, to, rest);
      var fits := stack.InsertNode(rest[0], NextHeight(i, to));
      if !fits {
        return false, rest;
      }
      i, rest := i + Pow2(NextHeight(i, to)), rest[1..];
    }
    InsertDone(stack.fed, i, to, rest);
    return true, rest;
  }
}
