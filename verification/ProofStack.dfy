/** The compressed tree that verifies proofs (merkle/stack.go, proofStack). */
module ProofStacks {
  import opened Bits
  import opened MerkleTree

  /** proofStack has 17 entries: room for fewer than 2^17 leaves. */
  const HEIGHTS := 17
  const LIMIT := 131072

  lemma LimitIsPower()
    ensures Pow2(HEIGHTS) == LIMIT
  {
    assert Pow2(8) == 256;
  }

  lemma FitsHeight(i: nat, n: nat)
    requires Pow2(i) <= n < LIMIT
    ensures i < HEIGHTS
  {
    LimitIsPower();
    Pow2Strict(i, HEIGHTS);
  }

  /** A free entry below the top leaves room for a subtree of its height. */
  lemma {:induction false} RoomBelow(n: nat, i: nat, K: nat)
    requires i < K && n < Pow2(K) && Shr(n, i) % 2 == 0
    ensures Shl(Shr(n, i) + 1, i) < Pow2(K)
    decreases i
  {
    assert Pow2(K) == 2 * Pow2(K - 1);
    if i > 0 {
      var x := Shr(n, i);
      assert n / 2 < Pow2(K - 1) && x == Shr(n / 2, i - 1);
      RoomBelow(n / 2, i - 1, K - 1);
      assert Shl(x + 1, i) == 2 * Shl(x + 1, i - 1);
    }
  }

  /** The new subtree finds an entry exactly when the tree stays below the limit. */
  lemma SlotFits(n: nat, i: nat, total: nat)
    requires n < LIMIT && Shr(n, i) % 2 == 0 && total == Shl(Shr(n, i) + 1, i)
    ensures i < HEIGHTS <==> total < LIMIT
  {
    LimitIsPower();
    if i < HEIGHTS {
      RoomBelow(n, i, HEIGHTS);
    } else {
      ShlNext(Shr(n, i), i);
      Pow2Monotone(HEIGHTS, i);
    }
  }

  /** Entries from height i up, for a tree whose size shifted right by i is x: the entry of
      every set bit is the root of the perfect subtree that ends the tree at that bit. */
  ghost predicate Good(H: HashFn, m: Tiling, s: seq<Hash>, i: nat, x: nat)
    decreases x
  {
    x == 0 ||
    (&& i < |s|
     && (x % 2 == 1 ==> Perfect(m, Shl(x - 1, i), i) && s[i] == Node(H, m, Shl(x - 1, i), i))
     && Good(H, m, s, i + 1, x / 2))
  }

  // ---------- frames ----------

  /** Tiles from position hi on do not matter to a subtree that ends before it. */
  lemma {:induction false} NodeFrame(H: HashFn, m: Tiling, m': Tiling, lo: nat, k: nat, hi: nat)
    requires Perfect(m, lo, k) && lo + Pow2(k) <= hi
    requires forall p :: p < hi && p in m ==> p in m' && m'[p] == m[p]
    ensures Perfect(m', lo, k) && Node(H, m', lo, k) == Node(H, m, lo, k)
    decreases k
  {
    if m[lo].height < k {
      NodeFrame(H, m, m', lo, k - 1, hi);
      NodeFrame(H, m, m', lo + Pow2(k - 1), k - 1, hi);
    }
  }

  lemma {:induction false} GoodFrame(H: HashFn, m: Tiling, m': Tiling, s: seq<Hash>, i: nat, x: nat, hi: nat)
    requires Good(H, m, s, i, x) && Shl(x, i) <= hi
    requires forall p :: p < hi && p in m ==> p in m' && m'[p] == m[p]
    ensures Good(H, m', s, i, x)
    decreases x
  {
    if x > 0 {
      HalfShift(x, i);
      if x % 2 == 1 {
        ShlNext(x - 1, i);
        NodeFrame(H, m, m', Shl(x - 1, i), i, hi);
      }
      GoodFrame(H, m, m', s, i + 1, x / 2, hi);
    }
  }

  /** Dropping the lowest bit of a position. */
  lemma HalfShift(x: nat, i: nat)
    ensures x % 2 == 1 ==> Shl(x / 2, i + 1) == Shl(x - 1, i) && Shl(x / 2 + 1, i + 1) == Shl(x + 1, i)
    ensures x % 2 == 0 ==> Shl(x / 2, i + 1) == Shl(x, i)
    ensures Shl(x / 2, i + 1) <= Shl(x, i)
  {
    ShlDouble(x / 2, i);
    ShlDouble(x / 2 + 1, i);
    ShlMonotone(2 * (x / 2), x, i);
  }

  /** Only entries from height i up matter. */
  lemma {:induction false} GoodAbove(H: HashFn, m: Tiling, s: seq<Hash>, s': seq<Hash>, i: nat, x: nat)
    requires Good(H, m, s, i, x) && |s'| == |s| && forall j :: i <= j < |s| ==> s'[j] == s[j]
    ensures Good(H, m, s', i, x)
    decreases x
  {
    if x > 0 {
      GoodAbove(H, m, s, s', i + 1, x / 2);
    }
  }

  /** An aligned position has no entries below its alignment. */
  lemma {:induction false} GoodShift(H: HashFn, m: Tiling, s: seq<Hash>, i: nat, y: nat)
    requires i < |s|
    ensures Good(H, m, s, i, y) <==> Good(H, m, s, 0, Shl(y, i))
    decreases i
  {
    if i > 0 {
      GoodShift(H, m, s, i - 1, 2 * y);
      ShlDouble(y, i - 1);
      assert Good(H, m, s, i - 1, 2 * y) <==> Good(H, m, s, i, y);
    }
  }

  // ---------- steps ----------

  /** Carrying: the entry at an occupied height merges with the subtree to its right. */
  lemma Carry(H: HashFn, m: Tiling, s: seq<Hash>, i: nat, x: nat)
    requires Good(H, m, s, i, x) && x % 2 == 1 && Perfect(m, Shl(x, i), i)
    ensures Shl(x / 2 + 1, i + 1) == Shl(x + 1, i) && Good(H, m, s, i + 1, x / 2) && i < |s|
    ensures Perfect(m, Shl(x / 2, i + 1), i + 1)
    ensures Node(H, m, Shl(x / 2, i + 1), i + 1) == H.pair(s[i], Node(H, m, Shl(x, i), i))
  {
    HalfShift(x, i);
    ShlNext(x - 1, i);
    MergeHalves(H, m, Shl(x - 1, i), i);
  }

  /** Storing the carried subtree at a free height. */
  lemma Store(H: HashFn, m: Tiling, s: seq<Hash>, i: nat, x: nat, hash: Hash)
    requires Good(H, m, s, i, x) && x % 2 == 0 && i < |s|
    requires Perfect(m, Shl(x, i), i) && hash == Node(H, m, Shl(x, i), i)
    ensures Good(H, m, s[i := hash], 0, Shl(x + 1, i))
  {
    var s' := s[i := hash];
    GoodAbove(H, m, s, s', i + 1, x / 2);
    assert (x + 1) / 2 == x / 2;
    GoodShift(H, m, s', i, x + 1);
  }

  /** The tail of a tree of n leaves from position Shl(x, i): shorter than 2^i. */
  ghost predicate IsTail(H: HashFn, m: Tiling, n: nat, i: nat, x: nat, root: Hash) {
    Shl(x, i) < n < Shl(x, i) + Pow2(i) && root == Whole(H, m, Shl(x, i), n - Shl(x, i))
  }

  /** The lowest set bit starts the tail. */
  lemma FirstTail(H: HashFn, m: Tiling, n: nat, i: nat, x: nat)
    requires x % 2 == 1 && Shl(x, i) == n
    ensures IsTail(H, m, n, i + 1, x / 2, Node(H, m, Shl(x - 1, i), i))
  {
    HalfShift(x, i);
    ShlNext(x - 1, i);
    Log2Unique(Pow2(i), i);
  }

  /** One more height of the root computation: at a set bit, the tail grows by the subtree v. */
  lemma NextTail(H: HashFn, m: Tiling, n: nat, i: nat, x: nat, root: Hash, v: Hash)
    requires IsTail(H, m, n, i, x, root) && (x % 2 == 1 ==> v == Node(H, m, Shl(x - 1, i), i))
    ensures IsTail(H, m, n, i + 1, x / 2, if x % 2 == 1 then H.pair(v, root) else root)
  {
    HalfShift(x, i);
    if x % 2 == 1 {
      ShlNext(x - 1, i);
      Log2Unique(n - Shl(x - 1, i), i);
    }
  }

  /** Past the highest bit, the tail is the whole tree. */
  lemma LastTail(H: HashFn, m: Tiling, n: nat, i: nat, x: nat, root: Hash)
    requires n < LIMIT && HEIGHTS <= i && x == Shr(n, i) && IsTail(H, m, n, i, x, root)
    ensures root == Whole(H, m, 0, n)
  {
    LimitIsPower();
    Pow2Monotone(HEIGHTS, i);
    ShrBelow(n, i);
    ShlOne(i);
  }

  /** Laying one more tile at the end of the tree. */
  lemma FeedTile(H: HashFn, fed: seq<Tile>, s: seq<Hash>, t: Tile)
    requires Good(H, Place(fed, 0), s, 0, Size(fed)) && Aligned(Size(fed), t.height) && t.height < |s|
    ensures var m, n := Place(fed + [t], 0), Size(fed);
      && Size(fed + [t]) == n + Pow2(t.height) == Shl(Shr(n, t.height) + 1, t.height)
      && Good(H, m, s, t.height, Shr(n, t.height))
      && Perfect(m, n, t.height) && Node(H, m, n, t.height) == t.hash
  {
    var m, n, h := Place(fed, 0), Size(fed), t.height;
    AlignedIs(n, h);
    PlaceSnoc(fed, t, 0);
    var m' := m[n := t];
    GoodFrame(H, m, m', s, 0, n, n);
    GoodShift(H, m', s, h, Shr(n, h));
    ShlNext(Shr(n, h), h);
  }

  // ---------- the stack ----------

  /** The entries are those of the tree the tiles make up.  Stated for every n so that it is
      unfolded only where KeepsAt is named. */
  ghost predicate Keeps(H: HashFn, fed: seq<Tile>, s: seq<Hash>) {
    forall n: nat :: KeepsAt(H, fed, s, n)
  }

  ghost predicate KeepsAt(H: HashFn, fed: seq<Tile>, s: seq<Hash>, n: nat) {
    n == Size(fed) ==> Good(H, Place(fed, 0), s, 0, n)
  }

  class ProofStack {
    const H: HashFn
    var stack: array<Hash>
    var used: nat
    ghost var fed: seq<Tile>

    ghost predicate Valid()
      reads this, stack
    {
      stack.Length == HEIGHTS && used == Size(fed) && used < LIMIT && Keeps(H, fed, stack[..])
    }

    constructor (H: HashFn)
      ensures Valid() && fresh(stack) && this.H == H && fed == [] && used == 0
    {
      this.H := H;
      stack := new Hash[HEIGHTS](_ => H.zero);
      used := 0;
      fed := [];
      new;
    }

    predicate HasNodeAtHeight(height: nat)
      reads this
    {
      Shr(used, height) % 2 == 1
    }

    /** The loop of insertNode: carries the new subtree up to the first free height.  Not ok is an
        index panic: there is no eighteenth entry. */
    method MergeUp(h: Hash, height: nat, ghost m: Tiling) returns (ok: bool)
      requires stack.Length == HEIGHTS && used < LIMIT
      requires used + Pow2(height) == Shl(Shr(used, height) + 1, height) && Aligned(used, height)
      requires Good(H, m, stack[..], height, Shr(used, height))
      requires Perfect(m, used, height) && Node(H, m, used, height) == h
      modifies stack
      ensures ok <==> used + Pow2(height) < LIMIT
      ensures ok ==> Good(H, m, stack[..], 0, used + Pow2(height))
      ensures !ok ==> stack[..] == old(stack[..])
    {
      var i: nat, hash := height, h;
      AlignedIs(used, height);
      ghost var x := Shr(used, height);
      while HasNodeAtHeight(i)
        invariant x == Shr(used, i) && Shl(x + 1, i) == used + Pow2(height)
        invariant stack[..] == old(stack[..]) && Good(H, m, stack[..], i, x)
        invariant Perfect(m, Shl(x, i), i) && hash == Node(H, m, Shl(x, i), i)
        decreases x
      {
        Carry(H, m, stack[..], i, x);
        ShrStep(used, i);
        hash := H.pair(stack[i], hash);
        i, x := i + 1, x / 2;
      }
      SlotFits(used, i, used + Pow2(height));
      if i >= HEIGHTS {
        return false;
      }
      Store(H, m, stack[..], i, x, hash);
      ghost var s' := stack[..][i := hash];
      stack[i] := hash;
      assert stack[..] == s';
      return true;
    }

    /** insertNode: one more tile, or a panic that changes nothing: exactly when the tree would have
        2^17 leaves or more. */
    method InsertNode(h: Hash, height: nat) returns (ok: bool)
      requires Valid() && Aligned(used, height)
      modifies this, stack
      ensures Valid() && stack == old(stack)
      ensures ok <==> old(used) + Pow2(height) < LIMIT
      ensures fed == if ok then old(fed) + [Tile(height, h)] else old(fed)
      ensures used == if ok then old(used) + Pow2(height) else old(used)
    {
      if height >= HEIGHTS {
        LimitIsPower();
        Pow2Monotone(HEIGHTS, height);
        return false;
      }
      assert KeepsAt(H, fed, stack[..], used);
      FeedTile(H, fed, stack[..], Tile(height, h));
      ok := MergeUp(h, height, Place(fed + [Tile(height, h)], 0));
      if !ok {
        return;
      }
      used := used + Pow2(height);
      fed := fed + [Tile(height, h)];
      assert KeepsAt(H, fed, stack[..], used);
    }

    /** root: the root of the tree the tiles make up. */
    method Root() returns (root: Hash)
      requires Valid()
      ensures root == Whole(H, Place(fed, 0), 0, used)
    {
      if used == 0 {
        return H.zero;
      }
      assert KeepsAt(H, fed, stack[..], used);
      ghost var m := Place(fed, 0);
      var i: nat := 0;
      while !HasNodeAtHeight(i)
        invariant Good(H, m, stack[..], i, Shr(used, i)) && Shl(Shr(used, i), i) == used
        decreases Shr(used, i)
      {
        ShrStep(used, i);
        HalfShift(Shr(used, i), i);
        ShlOne(i);
        i := i + 1;
      }
      ghost var x := Shr(used, i);
      FirstTail(H, m, used, i, x);
      ShrStep(used, i);
      root := stack[i];
      i, x := i + 1, x / 2;
      while i < 32
        invariant x == Shr(used, i) && Good(H, m, stack[..], i, x) && IsTail(H, m, used, i, x, root)
      {
        NextTail(H, m, used, i, x, root, if i < HEIGHTS then stack[i] else root);
        ShrStep(used, i);
        if HasNodeAtHeight(i) {
          root := H.pair(stack[i], root);
        }
        i, x := i + 1, x / 2;
      }
      LastTail(H, m, used, i, x, root);
    }
  }
}
