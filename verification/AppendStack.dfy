/** The compressed tree that computes roots eight hashes at a time (merkle/stack.go,
    appendStack), and the roots built on it (merkle/merkle.go). */
module AppendStacks {
  import opened Bits
  import opened MerkleTree
  import opened ProofStacks

  // ---------- trees of single leaves ----------

  function LeafMap(nodes: seq<Hash>): Tiling {
    map p: nat | p < |nodes| :: Tile(0, nodes[p])
  }

  lemma {:induction false} LeafPerfect(nodes: seq<Hash>, lo: nat, k: nat)
    requires lo + Pow2(k) <= |nodes|
    ensures Perfect(LeafMap(nodes), lo, k)
    decreases k
  {
    if k > 0 {
      LeafPerfect(nodes, lo, k - 1);
      LeafPerfect(nodes, lo + Pow2(k - 1), k - 1);
    }
  }

  lemma {:induction false} LeafCovered(nodes: seq<Hash>, lo: nat, n: nat)
    requires lo + n <= |nodes|
    ensures Covered(LeafMap(nodes), lo, n)
    decreases n
  {
    if n > 0 {
      Log2Bounds(n);
      LeafPerfect(nodes, lo, Log2(n));
      LeafCovered(nodes, lo + Pow2(Log2(n)), n - Pow2(Log2(n)));
    }
  }

  lemma LeafHonest(H: HashFn, nodes: seq<Hash>, p: nat)
    ensures HonestAt(H, LeafMap(nodes), nodes, p)
  {
    if p < |nodes| {
      assert nodes[p..p + 1] == [nodes[p]];
    }
  }

  lemma LeafWhole(H: HashFn, nodes: seq<Hash>)
    ensures Whole(H, LeafMap(nodes), 0, |nodes|) == Root(H, nodes)
  {
    LeafCovered(nodes, 0, |nodes|);
    forall p | 0 <= p < 0 + |nodes| ensures HonestAt(H, LeafMap(nodes), nodes, p) {
      LeafHonest(H, nodes, p);
    }
    WholeIsRoot(H, LeafMap(nodes), nodes);
  }

  lemma WholeIsRoot(H: HashFn, m: Tiling, nodes: seq<Hash>)
    requires Covered(m, 0, |nodes|) && forall p :: 0 <= p < 0 + |nodes| ==> HonestAt(H, m, nodes, p)
    ensures Whole(H, m, 0, |nodes|) == Root(H, nodes)
  {
    HonestWhole(H, m, nodes, 0, |nodes|);
    assert nodes[0..0 + |nodes|] == nodes;
  }

  // ---------- hashing in place ----------

  /** The four hashes at b are now the pairs of the eight there before. */
  ghost predicate Paired(H: HashFn, s: seq<Hash>, s': seq<Hash>, b: nat) {
    && b + 8 <= |s| == |s'|
    && s'[b] == H.pair(s[b], s[b + 1]) && s'[b + 1] == H.pair(s[b + 2], s[b + 3])
    && s'[b + 2] == H.pair(s[b + 4], s[b + 5]) && s'[b + 3] == H.pair(s[b + 6], s[b + 7])
    && forall i :: 0 <= i < |s| && !(b <= i < b + 4) ==> s'[i] == s[i]
  }

  /** SumNodes with its output over the first half of its input (merkle/blake2b): each pair is
      read before its place is overwritten. */
  method SumNodes(H: HashFn, mem: array<Hash>, b: nat)
    requires b + 8 <= mem.Length
    modifies mem
    ensures Paired(H, old(mem[..]), mem[..], b)
  {
    for j := 0 to 4
      invariant forall k :: 0 <= k < j ==> mem[b + k] == H.pair(old(mem[b + 2 * k]), old(mem[b + 2 * k + 1]))
      invariant forall i :: 0 <= i < mem.Length && !(b <= i < b + j) ==> mem[i] == old(mem[i])
    {
      mem[b + j] := H.pair(mem[b + 2 * j], mem[b + 2 * j + 1]);
    }
    assert mem[b + 0] == H.pair(old(mem[b + 2 * 0]), old(mem[b + 2 * 0 + 1]));
    assert mem[b + 1] == H.pair(old(mem[b + 2 * 1]), old(mem[b + 2 * 1 + 1]));
    assert mem[b + 2] == H.pair(old(mem[b + 2 * 2]), old(mem[b + 2 * 2 + 1]));
    assert mem[b + 3] == H.pair(old(mem[b + 2 * 3]), old(mem[b + 2 * 3 + 1]));
  }

  /** root4: the root of four nodes, computed in a buffer of eight. */
  method Root4(H: HashFn, a: Hash, b: Hash, c: Hash, d: Hash) returns (r: Hash)
    ensures r == H.pair(H.pair(a, b), H.pair(c, d))
  {
    var buf := new Hash[8](_ => H.zero);
    buf[0], buf[1], buf[2], buf[3] := a, b, c, d;
    SumNodes(H, buf, 0);
    SumNodes(H, buf, 0);
    return buf[0];
  }

  // ---------- the contents of the stack ----------

  /** fifteen groups of four, largest subtrees first, then the node buffer. */
  const GROUPS := 15
  const SLOTS := 64
  const BUF := 60

  /** Where the group of height h - 1 lies; at 0, the node buffer. */
  function GroupAt(h: nat): nat
    requires h <= GROUPS
  {
    4 * (GROUPS - h)
  }

  /** Hash e of the four at b is subtree e of height h after position lo. */
  ghost predicate Entry(H: HashFn, m: Tiling, s: seq<Hash>, b: nat, lo: nat, h: nat, e: nat) {
    b + e < |s| && s[b + e] == Node(H, m, lo + e * Pow2(h), h)
  }

  /** The four hashes at b are the subtrees of height h that follow position lo. */
  ghost predicate Four(H: HashFn, m: Tiling, s: seq<Hash>, b: nat, lo: nat, h: nat) {
    forall e: nat :: e < 4 ==> Entry(H, m, s, b, lo, h, e)
  }

  /** The tiling has only single leaves. */
  ghost predicate Leafy(m: Tiling) {
    forall p :: p in m ==> m[p].height == 0
  }

  /** Groups from height h up, for x blocks of 4 * 2^h leaves: the group of every set bit holds
      the block that ends the tree at that bit. */
  ghost predicate Groups(H: HashFn, m: Tiling, s: seq<Hash>, h: nat, x: nat)
    decreases x
  {
    x == 0 ||
    (&& h < GROUPS && |s| == SLOTS
     && (x % 2 == 1 ==> Four(H, m, s, GroupAt(h + 1), Shl(x - 1, h + 2), h))
     && Groups(H, m, s, h + 1, x / 2))
  }

  lemma LeafyNode(H: HashFn, m: Tiling, lo: nat, h: nat)
    requires Leafy(m)
    ensures Node(H, m, lo, h + 1) == H.pair(Node(H, m, lo, h), Node(H, m, lo + Pow2(h), h))
  {
  }

  /** A block of four subtrees is one subtree two heights up. */
  lemma FourIsNode(H: HashFn, m: Tiling, s: seq<Hash>, b: nat, lo: nat, h: nat)
    requires Leafy(m) && Four(H, m, s, b, lo, h)
    ensures b + 3 < |s| && H.pair(H.pair(s[b], s[b + 1]), H.pair(s[b + 2], s[b + 3])) == Node(H, m, lo, h + 2)
  {
    assert Entry(H, m, s, b, lo, h, 0) && Entry(H, m, s, b, lo, h, 1);
    assert Entry(H, m, s, b, lo, h, 2) && Entry(H, m, s, b, lo, h, 3);
    LeafyNode(H, m, lo, h);
    LeafyNode(H, m, lo + 2 * Pow2(h), h);
    LeafyNode(H, m, lo, h + 1);
  }

  /** Merging the groups of two neighbouring blocks gives the group of the block they form. */
  lemma MergeGroups(H: HashFn, m: Tiling, s: seq<Hash>, s': seq<Hash>, b: nat, lo: nat, h: nat)
    requires Leafy(m) && Four(H, m, s, b, lo, h) && Four(H, m, s, b + 4, lo + Pow2(h + 2), h)
    requires Paired(H, s, s', b)
    ensures Four(H, m, s', b, lo, h + 1)
  {
    var h' := h + 1;
    forall e: nat | e < 4 ensures Entry(H, m, s', b, lo, h', e) {
      MergedEntry(H, m, s, s', b, lo, h, e);
    }
  }

  lemma MergedEntry(H: HashFn, m: Tiling, s: seq<Hash>, s': seq<Hash>, b: nat, lo: nat, h: nat, e: nat)
    requires Leafy(m) && Four(H, m, s, b, lo, h) && Four(H, m, s, b + 4, lo + Pow2(h + 2), h)
    requires Paired(H, s, s', b) && e < 4
    ensures Entry(H, m, s', b, lo, h + 1, e)
  {
    assert Pow2(h + 2) == 4 * Pow2(h) by { assert Pow2(h + 1) == 2 * Pow2(h); }
    var c, at := if e < 2 then 2 * e else 2 * e - 4, if e < 2 then b else b + 4;
    var base := if e < 2 then lo else lo + Pow2(h + 2);
    var pos := lo + e * Pow2(h + 1);
    MergeEntry(base, lo, h, c, e, pos);
    EntryIs(H, m, s, at, base, h, c, pos);
    EntryIs(H, m, s, at, base, h, c + 1, pos + Pow2(h));
    LeafyNode(H, m, pos, h);
    assert s'[b + e] == H.pair(s[at + c], s[at + (c + 1)]);
  }

  lemma EntryIs(H: HashFn, m: Tiling, s: seq<Hash>, b: nat, lo: nat, h: nat, e: nat, pos: nat)
    requires Four(H, m, s, b, lo, h) && e < 4 && lo + e * Pow2(h) == pos
    ensures b + e < |s| && s[b + e] == Node(H, m, pos, h)
  {
    assert Entry(H, m, s, b, lo, h, e);
  }

  lemma MergeEntry(base: nat, lo: nat, h: nat, c: nat, e: nat, pos: nat)
    requires e < 2 ==> c == 2 * e && base == lo
    requires e >= 2 ==> c == 2 * e - 4 && base == lo + 4 * Pow2(h)
    requires pos == lo + e * Pow2(h + 1)
    ensures base + c * Pow2(h) == pos && base + (c + 1) * Pow2(h) == pos + Pow2(h)
  {
    var p := Pow2(h);
    assert e * (2 * p) == (2 * e) * p && (c + 1) * p == c * p + p;
    if e >= 2 {
      assert c * p == (2 * e) * p - 4 * p;
    }
  }

  /** A group copied from b to c. */
  lemma FourMoved(H: HashFn, m: Tiling, s: seq<Hash>, s': seq<Hash>, b: nat, c: nat, lo: nat, h: nat)
    requires Four(H, m, s, b, lo, h) && b + 4 <= |s| && c + 4 <= |s'| && s'[c..c + 4] == s[b..b + 4]
    ensures Four(H, m, s', c, lo, h)
  {
    forall e: nat | e < 4 ensures Entry(H, m, s', c, lo, h, e) {
      assert Entry(H, m, s, b, lo, h, e);
      assert s'[c..c + 4][e] == s[b..b + 4][e];
    }
  }

  lemma {:induction false} GroupsAbove(H: HashFn, m: Tiling, s: seq<Hash>, s': seq<Hash>, h: nat, x: nat)
    requires Groups(H, m, s, h, x) && h <= GROUPS && |s| == |s'| == SLOTS && forall i :: 0 <= i < GroupAt(h) ==> s'[i] == s[i]
    ensures Groups(H, m, s', h, x)
    decreases x
  {
    if x > 0 {
      var b := GroupAt(h + 1);
      assert s'[b..b + 4] == s[b..b + 4];
      if x % 2 == 1 {
        FourMoved(H, m, s, s', b, b, Shl(x - 1, h + 2), h);
      }
      GroupsAbove(H, m, s, s', h + 1, x / 2);
    }
  }

  /** The nodes of two trees that have the same first n leaves. */
  lemma {:induction false} NodeSame(H: HashFn, a: seq<Hash>, b: seq<Hash>, n: nat, lo: nat, k: nat)
    requires n <= |a| && n <= |b| && a[..n] == b[..n] && lo + Pow2(k) <= n
    ensures Node(H, LeafMap(b), lo, k) == Node(H, LeafMap(a), lo, k)
    decreases k
  {
    if k > 0 {
      NodeSame(H, a, b, n, lo, k - 1);
      NodeSame(H, a, b, n, lo + Pow2(k - 1), k - 1);
    } else {
      assert a[..n][lo] == b[..n][lo];
    }
  }

  lemma FourSame(H: HashFn, a: seq<Hash>, b: seq<Hash>, n: nat, s: seq<Hash>, at: nat, lo: nat, h: nat)
    requires n <= |a| && n <= |b| && a[..n] == b[..n] && lo + Pow2(h + 2) <= n
    requires Four(H, LeafMap(a), s, at, lo, h)
    ensures Four(H, LeafMap(b), s, at, lo, h)
  {
    assert Pow2(h + 2) == 4 * Pow2(h) by { assert Pow2(h + 1) == 2 * Pow2(h); }
    forall e: nat | e < 4 ensures Entry(H, LeafMap(b), s, at, lo, h, e) {
      assert Entry(H, LeafMap(a), s, at, lo, h, e);
      assert e * Pow2(h) + Pow2(h) <= 4 * Pow2(h);
      NodeSame(H, a, b, n, lo + e * Pow2(h), h);
    }
  }

  /** Later nodes do not change the groups. */
  lemma {:induction false} GroupsSame(H: HashFn, a: seq<Hash>, b: seq<Hash>, n: nat, s: seq<Hash>, h: nat, x: nat)
    requires n <= |a| && n <= |b| && a[..n] == b[..n] && Groups(H, LeafMap(a), s, h, x) && Shl(x, h + 2) <= n
    ensures Groups(H, LeafMap(b), s, h, x)
    decreases x
  {
    if x > 0 {
      HalfShift(x, h + 2);
      if x % 2 == 1 {
        ShlNext(x - 1, h + 2);
        FourSame(H, a, b, n, s, GroupAt(h + 1), Shl(x - 1, h + 2), h);
      }
      GroupsSame(H, a, b, n, s, h + 1, x / 2);
    }
  }

  lemma {:induction false} GroupsShift(H: HashFn, m: Tiling, s: seq<Hash>, h: nat, y: nat)
    requires h < GROUPS && |s| == SLOTS
    ensures Groups(H, m, s, h, y) <==> Groups(H, m, s, 0, Shl(y, h))
    decreases h
  {
    if h > 0 {
      GroupsShift(H, m, s, h - 1, 2 * y);
      ShlDouble(y, h - 1);
      assert Groups(H, m, s, h - 1, 2 * y) <==> Groups(H, m, s, h, y);
    }
  }

  lemma GroupsNext(H: HashFn, m: Tiling, s: seq<Hash>, h: nat, x: nat)
    requires Groups(H, m, s, h, x)
    ensures Groups(H, m, s, h + 1, x / 2)
  {
  }

  /** The group of a set bit. */
  lemma OddGroup(H: HashFn, m: Tiling, s: seq<Hash>, h: nat, x: nat)
    requires Groups(H, m, s, h, x) && x % 2 == 1
    ensures h < GROUPS && |s| == SLOTS && Four(H, m, s, GroupAt(h + 1), Shl(x - 1, h + 2), h)
  {
  }

  /** Carrying: an occupied group merges with the block to its right. */
  lemma CarryGroup(H: HashFn, m: Tiling, s: seq<Hash>, s': seq<Hash>, h: nat, x: nat, lo: nat)
    requires Leafy(m) && h < GROUPS && lo == Shl(x, h + 2) && x % 2 == 1
    requires Four(H, m, s, GroupAt(h + 1), Shl(x - 1, h + 2), h) && Four(H, m, s, GroupAt(h), lo, h)
    requires Paired(H, s, s', GroupAt(h + 1))
    ensures Four(H, m, s', GroupAt(h + 1), Shl(x / 2, h + 3), h + 1)
  {
    var b, left := GroupAt(h + 1), Shl(x - 1, h + 2);
    assert GroupAt(h) == b + 4;
    CarryPositions(x, h + 2);
    MergeBlocks(H, m, s, s', b, left, lo, h, Shl(x / 2, h + 3));
  }

  lemma MergeBlocks(H: HashFn, m: Tiling, s: seq<Hash>, s': seq<Hash>, b: nat, left: nat, right: nat, h: nat, lo: nat)
    requires Leafy(m) && Four(H, m, s, b, left, h) && Four(H, m, s, b + 4, right, h) && right == left + Pow2(h + 2) && lo == left
    requires Paired(H, s, s', b)
    ensures Four(H, m, s', b, lo, h + 1)
  {
    MergeGroups(H, m, s, s', b, left, h);
  }

  lemma CarryRest(H: HashFn, m: Tiling, s: seq<Hash>, s': seq<Hash>, h: nat, x: nat)
    requires h < GROUPS && Groups(H, m, s, h, x) && x > 0 && Paired(H, s, s', GroupAt(h + 1))
    ensures Groups(H, m, s', h + 1, x / 2)
  {
    GroupsAbove(H, m, s, s', h + 1, x / 2);
  }

  lemma CarryPositions(x: nat, i: nat)
    requires x % 2 == 1
    ensures Shl(x / 2, i + 1) == Shl(x - 1, i) && Shl(x, i) == Shl(x - 1, i) + Pow2(i)
    ensures Shl(x / 2 + 1, i + 1) == Shl(x + 1, i) == Shl(x - 1, i) + Pow2(i + 1)
  {
    HalfShift(x, i);
    ShlNext(x - 1, i);
    ShlNext(x, i);
  }

  /** Storing the carried block at a free height. */
  lemma StoreGroup(H: HashFn, m: Tiling, s: seq<Hash>, s': seq<Hash>, h: nat, x: nat)
    requires Groups(H, m, s, h, x) && x % 2 == 0 && h < GROUPS && |s| == |s'| == SLOTS
    requires Four(H, m, s, GroupAt(h), Shl(x, h + 2), h)
    requires forall i :: 0 <= i < GroupAt(h + 1) ==> s'[i] == s[i]
    requires s'[GroupAt(h + 1)..GroupAt(h + 1) + 4] == s[GroupAt(h)..GroupAt(h) + 4]
    ensures Groups(H, m, s', 0, Shl(x + 1, h))
  {
    FourMoved(H, m, s, s', GroupAt(h), GroupAt(h + 1), Shl(x, h + 2), h);
    GroupsAbove(H, m, s, s', h + 1, x / 2);
    assert (x + 1) / 2 == x / 2;
    GroupsShift(H, m, s', h, x + 1);
  }

  lemma GroupFits(h: nat, n: nat)
    requires Pow2(h + 2) <= n < LIMIT
    ensures h < GROUPS
  {
    FitsHeight(h + 2, n);
  }

  /** The full buffer is a group of single nodes. */
  lemma BufferIsFour(H: HashFn, nodes: seq<Hash>, s: seq<Hash>, g: nat)
    requires 4 * g + 4 <= |nodes| && |s| == SLOTS && s[BUF..BUF + 4] == nodes[4 * g..4 * g + 4]
    ensures Shl(g, 0 + 2) == 4 * g && Shl(g + 1, 0 + 2) == 4 * g + 4
    ensures Four(H, LeafMap(nodes), s, GroupAt(0), Shl(g, 0 + 2), 0)
  {
    ShlTwo(g);
    ShlTwo(g + 1);
    forall e: nat | e < 4 ensures Entry(H, LeafMap(nodes), s, GroupAt(0), 4 * g, 0, e) {
      assert s[BUF..BUF + 4][e] == nodes[4 * g..4 * g + 4][e];
      assert e * Pow2(0) == e;
    }
  }

  lemma ShlTwo(x: nat)
    ensures Shl(x, 2) == 4 * x
  {
    assert Shl(x, 1) == 2 * Shl(x, 0);
  }

  /** The smallest group starts the tail. */
  lemma LowestTail(H: HashFn, m: Tiling, s: seq<Hash>, n: nat, h: nat, x: nat, root: Hash)
    requires Groups(H, m, s, h, x) && x % 2 == 1 && Shl(x, h + 2) == n && root == Node(H, m, Shl(x - 1, h + 2), h + 2)
    ensures Groups(H, m, s, h + 1, x / 2) && IsTail(H, m, n, (h + 1) + 2, x / 2, root)
  {
    GroupsNext(H, m, s, h, x);
    FirstTail(H, m, n, h + 2, x);
    assert h + 2 + 1 == h + 1 + 2;
  }

  // ---------- the whole contents ----------

  /** The groups hold the full blocks of four nodes, the buffer the rest.  Stated for every q so
      that it is unfolded only where HoldsAt is named. */
  ghost predicate Holds(H: HashFn, nodes: seq<Hash>, s: seq<Hash>) {
    forall q: nat :: HoldsAt(H, nodes, s, q)
  }

  ghost predicate HoldsAt(H: HashFn, nodes: seq<Hash>, s: seq<Hash>, q: nat) {
    q == |nodes| / 4 ==>
      && |s| == SLOTS && Groups(H, LeafMap(nodes), s, 0, q)
      && s[BUF..BUF + |nodes| % 4] == nodes[|nodes| - |nodes| % 4..]
  }

  /** The buffer is full: with n % 4 nodes that count as buffered once it has been merged, which are
      those it holds already. */
  ghost predicate Full(H: HashFn, nodes: seq<Hash>, s: seq<Hash>, n: nat) {
    forall v: bool :: FullIf(v, H, nodes, s, n)
  }

  ghost predicate FullIf(v: bool, H: HashFn, nodes: seq<Hash>, s: seq<Hash>, n: nat) {
    v ==>
      && |s| == SLOTS && |nodes| == n + 4 && Groups(H, LeafMap(nodes), s, 0, n / 4)
      && s[BUF..BUF + 4] == nodes[4 * (n / 4)..4 * (n / 4) + 4]
      && s[BUF..BUF + n % 4] == nodes[n + 4 - n % 4..]
  }

  lemma MergedHolds(H: HashFn, nodes: seq<Hash>, s: seq<Hash>, s': seq<Hash>, n: nat)
    requires Full(H, nodes, s, n) && |s'| == SLOTS && |s| == SLOTS && s'[BUF..] == s[BUF..] && Groups(H, LeafMap(nodes), s', 0, n / 4 + 1)
    ensures Holds(H, nodes, s')
  {
    assert FullIf(true, H, nodes, s, n);
    assert (n + 4) / 4 == n / 4 + 1 && (n + 4) % 4 == n % 4;
    assert s'[BUF..BUF + n % 4] == s'[BUF..][..n % 4] == s[BUF..][..n % 4] == s[BUF..BUF + n % 4];
  }

  /** One more node in the buffer. */
  lemma NodeBuffered(H: HashFn, nodes: seq<Hash>, h: Hash, s: seq<Hash>)
    requires Holds(H, nodes, s) && |s| == SLOTS
    ensures Buffered(H, nodes + [h], s[BUF + |nodes| % 4 := h], |nodes|)
  {
    var n, k := |nodes|, |nodes| % 4;
    var s' := s[BUF + k := h];
    assert HoldsAt(H, nodes, s, n / 4);
    LaterKeepsGroups(H, nodes, nodes + [h], s, s', n / 4);
    assert s'[BUF..BUF + k + 1] == s[BUF..BUF + k] + [h];
    assert (nodes + [h])[n - k..] == nodes[n - k..] + [h];
    assert BufferedIf(true, H, nodes + [h], s', n);
  }

  /** All nodes but the last n % 4 + 1 are in the groups, and those in the buffer. */
  ghost predicate Buffered(H: HashFn, nodes: seq<Hash>, s: seq<Hash>, n: nat) {
    forall v: bool :: BufferedIf(v, H, nodes, s, n)
  }

  ghost predicate BufferedIf(v: bool, H: HashFn, nodes: seq<Hash>, s: seq<Hash>, n: nat) {
    v ==>
      && |s| == SLOTS && |nodes| == n + 1 && Groups(H, LeafMap(nodes), s, 0, n / 4)
      && s[BUF..BUF + n % 4 + 1] == nodes[n - n % 4..]
  }

  lemma PartlyHolds(H: HashFn, nodes: seq<Hash>, s: seq<Hash>, n: nat)
    requires (n + 1) % 4 != 0 && Buffered(H, nodes, s, n)
    ensures Holds(H, nodes, s)
  {
    assert BufferedIf(true, H, nodes, s, n);
    assert (n + 1) / 4 == n / 4 && (n + 1) % 4 == n % 4 + 1;
  }

  lemma BufferedFull(H: HashFn, nodes: seq<Hash>, s: seq<Hash>, n: nat)
    requires n % 4 == 0 && Buffered(H, nodes, s, n + 3)
    ensures Full(H, nodes, s, n)
  {
    assert BufferedIf(true, H, nodes, s, n + 3);
    assert (n + 3) / 4 == n / 4 && (n + 3) % 4 == 3 && 4 * (n / 4) == n;
    assert FullIf(true, H, nodes, s, n);
  }

  /** The nodes after four hashes are written over the buffer and merged: those that were buffered
      are lost, and as many of the four count as buffered instead. */
  ghost function Overwritten(nodes: seq<Hash>, four: seq<Hash>): seq<Hash>
    requires |four| == 4
  {
    nodes[..|nodes| - |nodes| % 4] + four + four[..|nodes| % 4]
  }

  lemma CarriedFits(x: nat, h: nat, n: nat)
    requires Shl(x + 1, h + 2) == n < LIMIT
    ensures h < GROUPS
  {
    ShlNext(x, h + 2);
    GroupFits(h, n);
  }

  /** The carried block has been copied to its group: the groups are those of one block more. */
  lemma BlockStored(H: HashFn, m: Tiling, s: seq<Hash>, s': seq<Hash>, h: nat, x: nat, g: nat)
    requires h < GROUPS && |s| == |s'| == SLOTS && x % 2 == 0 && Shl(x + 1, h + 2) == 4 * g + 4
    requires Groups(H, m, s, h, x) && Four(H, m, s, GroupAt(h), Shl(x, h + 2), h)
    requires var b := GroupAt(h + 1);
      (forall i :: 0 <= i < b ==> s'[i] == s[i]) && s'[b..b + 4] == s[b + 4..b + 4 + 4] && s'[b + 4..] == s[b + 4..]
    ensures Groups(H, m, s', 0, g + 1) && s'[BUF..] == s[BUF..]
  {
    StepsAgree(x, h, 4 * g + 4);
    StoreGroup(H, m, s, s', h, x);
    TailOfTail(s, s', GroupAt(h + 1) + 4, BUF);
  }

  lemma TailOfTail(s: seq<Hash>, s': seq<Hash>, b: nat, c: nat)
    requires b <= c <= |s| == |s'| && s'[b..] == s[b..]
    ensures s'[c..] == s[c..]
  {
    assert s'[c..] == s'[b..][c - b..] && s[c..] == s[b..][c - b..];
  }

  lemma TakeOfSlice(s: seq<Hash>, b: nat, k: nat, r: nat)
    requires r <= k && b + k <= |s|
    ensures s[b..b + k][..r] == s[b..b + r]
  {
  }

  lemma FourFull(H: HashFn, nodes: seq<Hash>, hs: seq<Hash>, s: seq<Hash>, s': seq<Hash>)
    requires Holds(H, nodes, s) && |hs| == 4 && |s| == |s'| == SLOTS
    requires (forall i :: 0 <= i < BUF ==> s'[i] == s[i]) && s'[BUF..BUF + 4] == hs
    ensures Full(H, Overwritten(nodes, hs), s', |nodes|)
  {
    var n, r, new_ := |nodes|, |nodes| % 4, Overwritten(nodes, hs);
    assert HoldsAt(H, nodes, s, n / 4);
    assert 4 * (n / 4) == n - r && new_[..n - r] == nodes[..n - r];
    LaterKeepsGroups(H, nodes, new_, s, s', n / 4);
    assert new_[n - r..n - r + 4] == hs && new_[n + 4 - r..] == hs[..r];
    TakeOfSlice(s', BUF, 4, r);
    assert FullIf(true, H, new_, s', n);
  }

  /** What appendLeaves makes of the nodes: in blocks of four, and then one by one. */
  ghost function Appended(nodes: seq<Hash>, hs: seq<Hash>): seq<Hash> {
    var q := |hs| - |hs| % 4;
    InBlocks(nodes, hs, q) + hs[q..]
  }

  /** After q of the hashes, in blocks of four. */
  ghost function InBlocks(nodes: seq<Hash>, hs: seq<Hash>, q: nat): seq<Hash>
    requires q <= |hs| && q % 4 == 0
  {
    var r := |nodes| % 4;
    if q == 0 then nodes else nodes[..|nodes| - r] + hs[..q] + hs[q - 4..q - 4 + r]
  }

  lemma InBlocksSize(nodes: seq<Hash>, hs: seq<Hash>, q: nat)
    requires q % 4 == 0 && q <= |hs|
    ensures |InBlocks(nodes, hs, q)| == |nodes| + q
  {
  }

  lemma OverwrittenIs(now: seq<Hash>, keep: seq<Hash>, stale: seq<Hash>, four: seq<Hash>)
    requires now == keep + stale && |stale| < 4 && |keep| % 4 == 0 && |four| == 4
    ensures Overwritten(now, four) == keep + four + four[..|stale|]
  {
    assert |now| % 4 == |stale| && now[..|now| - |stale|] == keep;
  }

  lemma NextBlock(nodes: seq<Hash>, hs: seq<Hash>, q: nat)
    requires q % 4 == 0 && q + 4 <= |hs|
    ensures Overwritten(InBlocks(nodes, hs, q), hs[q..q + 4]) == InBlocks(nodes, hs, q + 4)
  {
    var r, full, four := |nodes| % 4, nodes[..|nodes| - |nodes| % 4], hs[q..q + 4];
    var keep, stale := full + hs[..q], if q == 0 then nodes[|nodes| - r..] else hs[q - 4..q - 4 + r];
    assert InBlocks(nodes, hs, q) == keep + stale;
    OverwrittenIs(keep + stale, keep, stale, four);
    BlockJoins(full, hs, q, r);
  }

  lemma BlockJoins(full: seq<Hash>, hs: seq<Hash>, q: nat, r: nat)
    requires q + 4 <= |hs| && r < 4
    ensures (full + hs[..q]) + hs[q..q + 4] + hs[q..q + 4][..r] == full + hs[..q + 4] + hs[q + 4 - 4..q + 4 - 4 + r]
  {
    assert hs[..q] + hs[q..q + 4] == hs[..q + 4];
    assert hs[q..q + 4][..r] == hs[q..q + r];
  }

  /** b is what appendLeaves makes of a. */
  ghost predicate AppendsTo(a: seq<Hash>, hs: seq<Hash>, b: seq<Hash>) {
    forall v: bool :: AppendsIf(v, a, hs, b)
  }

  ghost predicate AppendsIf(v: bool, a: seq<Hash>, hs: seq<Hash>, b: seq<Hash>) {
    v ==> b == Appended(a, hs)
  }

  lemma BlocksDone(nodes: seq<Hash>, hs: seq<Hash>, q: nat, b: seq<Hash>)
    requires q % 4 == 0 && q <= |hs| < q + 4 && b == InBlocks(nodes, hs, q) + hs[q..]
    ensures AppendsTo(nodes, hs, b)
    ensures |nodes| % 4 == 0 || |hs| < 4 ==> b == nodes + hs
  {
    assert q == |hs| - |hs| % 4;
    AppendedRight(nodes, hs);
  }

  /** Exactly when the leaves are appended: the buffer is empty, or there is no block of four, or what
      the blocks write over the buffered nodes comes to the same. */
  lemma AppendedRight(nodes: seq<Hash>, hs: seq<Hash>)
    ensures |nodes| % 4 == 0 || |hs| < 4 ==> Appended(nodes, hs) == nodes + hs
    ensures var r, q := |nodes| % 4, |hs| - |hs| % 4;
      Appended(nodes, hs) == nodes + hs <==>
        |nodes| % 4 == 0 || |hs| < 4 || nodes[|nodes| - r..] + hs[..q] == hs[..q] + hs[q - 4..q - 4 + r]
  {
    var r, q := |nodes| % 4, |hs| - |hs| % 4;
    assert hs == hs[..q] + hs[q..] && nodes == nodes[..|nodes| - r] + nodes[|nodes| - r..];
    if q == 0 {
      assert hs[q..] == hs;
    } else {
      var keep := nodes[..|nodes| - r];
      var a, b := nodes[|nodes| - r..] + hs[..q], hs[..q] + hs[q - 4..q - 4 + r];
      assert nodes + hs == keep + a + hs[q..];
      assert Appended(nodes, hs) == keep + b + hs[q..];
      MiddleDecides(keep, a, b, hs[q..]);
      if r == 0 {
        assert a == b;
      }
    }
  }

  lemma MiddleDecides(x: seq<Hash>, a: seq<Hash>, b: seq<Hash>, y: seq<Hash>)
    requires |a| == |b|
    ensures x + a + y == x + b + y <==> a == b
  {
    if x + a + y == x + b + y {
      assert (x + a + y)[|x|..|x| + |a|] == a && (x + b + y)[|x|..|x| + |b|] == b;
    }
  }

  class AppendStack {
    const H: HashFn
    var mem: array<Hash>
    var used: nat
    ghost var nodes: seq<Hash>

    ghost predicate Valid()
      reads this, mem
    {
      mem.Length == SLOTS && used == |nodes| < LIMIT && Holds(H, nodes, mem[..])
    }

    constructor (H: HashFn)
      ensures Valid() && fresh(mem) && this.H == H && nodes == []
    {
      this.H := H;
      mem := new Hash[SLOTS](_ => H.zero);
      used := 0;
      nodes := [];
    }

    /** reset forgets every node. */
    method Reset()
      requires Valid()
      modifies this
      ensures Valid() && mem == old(mem) && nodes == []
    {
      used := 0;
      nodes := [];
    }

    /** hasNodeAtHeight, by height rather than by index. */
    predicate HasNodeAtHeight(h: nat)
      reads this
    {
      Shr(used / 4, h) % 2 == 1
    }

    /** The loop of mergeNodeBuf: occupied groups merge with the new block. */
    method CarryUp(ghost m: Tiling) returns (h: nat, ghost x: nat)
      requires mem.Length == SLOTS && Leafy(m) && Groups(H, m, mem[..], 0, used / 4)
      requires Four(H, m, mem[..], GroupAt(0), Shl(used / 4, 0 + 2), 0)
      modifies mem
      ensures h <= GROUPS && x % 2 == 0 && Shl(x + 1, h + 2) == Shl(used / 4 + 1, 0 + 2)
      ensures Groups(H, m, mem[..], h, x) && Four(H, m, mem[..], GroupAt(h), Shl(x, h + 2), h)
      ensures mem[..][BUF..] == old(mem[..])[BUF..]
    {
      h, x := 0, used / 4;
      while HasNodeAtHeight(h)
        invariant h <= GROUPS && x == Shr(used / 4, h) && Shl(x + 1, h + 2) == Shl(used / 4 + 1, 0 + 2)
        invariant Groups(H, m, mem[..], h, x)
        invariant Four(H, m, mem[..], GroupAt(h), Shl(x, h + 2), h)
        invariant mem[..][BUF..] == old(mem[..])[BUF..]
        decreases x
      {
        ghost var s := mem[..];
        OddGroup(H, m, s, h, x);
        SumNodes(H, mem, GroupAt(h + 1));
        CarryGroup(H, m, s, mem[..], h, x, Shl(x, h + 2));
        CarryRest(H, m, s, mem[..], h, x);
        CarryPositions(x, h + 2);
        ShrStep(used / 4, h);
        h, x := h + 1, x / 2;
      }
    }

    /** The copy at the end of mergeNodeBuf: the carried block to its group. */
    method MoveGroup(b: nat)
      requires mem.Length == SLOTS && b + 8 <= SLOTS
      modifies mem
      ensures forall i :: 0 <= i < b ==> mem[i] == old(mem[i])
      ensures mem[..][b..b + 4] == old(mem[..])[b + 4..b + 4 + 4] && mem[..][b + 4..] == old(mem[..])[b + 4..]
    {
      ghost var s := mem[..];
      mem[b], mem[b + 1], mem[b + 2], mem[b + 3] := mem[b + 4], mem[b + 5], mem[b + 6], mem[b + 7];
      assert mem[..][b..b + 4] == s[b + 4..b + 4 + 4];
    }

    /** mergeNodeBuf, for the tree m that the four nodes of the buffer complete. */
    method JoinBuffer(ghost m: Tiling)
      requires mem.Length == SLOTS && used + 4 < LIMIT && Leafy(m)
      requires Groups(H, m, mem[..], 0, used / 4) && Shl(used / 4 + 1, 0 + 2) == 4 * (used / 4) + 4
      requires Four(H, m, mem[..], GroupAt(0), Shl(used / 4, 0 + 2), 0)
      modifies mem
      ensures Groups(H, m, mem[..], 0, used / 4 + 1) && mem[..][BUF..] == old(mem[..])[BUF..]
    {
      ghost var x;
      var h;
      h, x := CarryUp(m);
      CarriedFits(x, h, 4 * (used / 4) + 4);
      ghost var s := mem[..];
      MoveGroup(GroupAt(h + 1));
      BlockStored(H, m, s, mem[..], h, x, used / 4);
    }

    /** mergeNodeBuf: the four nodes of the buffer join the tree. */
    method MergeNodeBuf()
      requires mem.Length == SLOTS && used + 4 == |nodes| < LIMIT && Full(H, nodes, mem[..], used)
      modifies mem, this`used
      ensures used == old(used) + 4 && Valid()
    {
      ghost var s := mem[..];
      assert FullIf(true, H, nodes, s, used);
      BufferIsFour(H, nodes, s, used / 4);
      JoinBuffer(LeafMap(nodes));
      MergedHolds(H, nodes, s, mem[..], used);
      used := used + 4;
    }

    /** The node goes into the buffer. */
    method BufferNode(h: Hash)
      requires Valid() && |nodes| + 1 < LIMIT
      modifies this, mem
      ensures mem == old(mem) && nodes == old(nodes) + [h] && used == |nodes| == old(used) + 1
      ensures Buffered(H, nodes, mem[..], old(used))
    {
      ghost var s, k := mem[..], used % 4;
      NodeBuffered(H, nodes, h, s);
      mem[BUF + used % 4] := h;
      assert mem[..] == s[BUF + k := h];
      nodes := nodes + [h];
      used := used + 1;
    }

    /** appendNode */
    method AppendNode(h: Hash)
      requires Valid() && |nodes| + 1 < LIMIT
      modifies this, mem
      ensures Valid() && mem == old(mem) && nodes == old(nodes) + [h]
    {
      BufferNode(h);
      if used % 4 == 0 {
        used := used - 4;
        BufferedFull(H, nodes, mem[..], used);
        MergeNodeBuf();
      } else {
        PartlyHolds(H, nodes, mem[..], used - 1);
      }
    }

    /** The first loop of appendLeaves: four leaves at a time, hashed straight into the buffer. */
    method AppendFour(leaves: seq<Segment>)
      requires Valid() && |nodes| + 4 < LIMIT && |leaves| == 4
      modifies this, mem
      ensures Valid() && mem == old(mem) && nodes == Overwritten(old(nodes), LeafHashes(H, leaves)) && used == old(used) + 4
    {
      ghost var s, hs := mem[..], LeafHashes(H, leaves);
      mem[BUF], mem[BUF + 1] := H.leaf(leaves[0]), H.leaf(leaves[1]);
      mem[BUF + 2], mem[BUF + 3] := H.leaf(leaves[2]), H.leaf(leaves[3]);
      assert mem[..][BUF..BUF + 4] == hs;
      FourFull(H, nodes, hs, s, mem[..]);
      nodes := Overwritten(nodes, hs);
      MergeNodeBuf();
    }

    /** The second loop of appendLeaves: one leaf at a time. */
    method AppendSingly(leaves: seq<Segment>)
      requires Valid() && |nodes| + |leaves| < LIMIT
      modifies this, mem
      ensures Valid() && mem == old(mem) && nodes == old(nodes) + LeafHashes(H, leaves)
    {
      ghost var n := nodes;
      for i := 0 to |leaves|
        invariant Valid() && mem == old(mem) && nodes == n + LeafHashes(H, leaves[..i])
      {
        AppendNode(H.leaf(leaves[i]));
        LeafHashesConcat(H, leaves[..i], [leaves[i]], n);
        assert leaves[..i] + [leaves[i]] == leaves[..i + 1];
      }
      assert leaves[..|leaves|] == leaves;
    }

    /** appendLeaves.  Blocks of four are written over the buffer, so the leaves are appended if it is
        empty or there are fewer than four of them; AppendedRight says exactly when. */
    method AppendLeaves(leaves: seq<Segment>)
      requires Valid() && |nodes| + |leaves| < LIMIT
      modifies this, mem
      ensures Valid() && mem == old(mem) && AppendsTo(old(nodes), LeafHashes(H, leaves), nodes)
      ensures old(used) % 4 == 0 || |leaves| < 4 ==> nodes == old(nodes) + LeafHashes(H, leaves)
    {
      ghost var n, hs := nodes, LeafHashes(H, leaves);
      var i := 0;
      while i + 4 <= |leaves|
        invariant 0 <= i <= |leaves| && i % 4 == 0
        invariant Valid() && mem == old(mem) && nodes == InBlocks(n, hs, i)
      {
        InBlocksSize(n, hs, i);
        NextBlock(n, hs, i);
        assert LeafHashes(H, leaves[i..i + 4]) == hs[i..i + 4];
        AppendFour(leaves[i..i + 4]);
        i := i + 4;
      }
      InBlocksSize(n, hs, i);
      AppendSingly(leaves[i..]);
      assert LeafHashes(H, leaves[i..]) == hs[i..];
      BlocksDone(n, hs, i, nodes);
    }

    /** The root of the nodes left over in the buffer. */
    method BufferRoot() returns (root: Hash)
      requires Valid() && used % 4 != 0
      ensures IsTail(H, LeafMap(nodes), used, 0 + 2, used / 4, root)
    {
      assert HoldsAt(H, nodes, mem[..], used / 4);
      BufferTail(H, nodes, mem[..], used);
      if used % 4 == 1 {
        return mem[BUF];
      } else if used % 4 == 2 {
        return H.pair(mem[BUF], mem[BUF + 1]);
      }
      return H.pair(H.pair(mem[BUF], mem[BUF + 1]), mem[BUF + 2]);
    }

    /** The root of the smallest group, when the buffer is empty. */
    method LowestRoot(ghost m: Tiling) returns (root: Hash, h: nat, ghost x: nat)
      requires mem.Length == SLOTS && used > 0 && used % 4 == 0 && Leafy(m) && Groups(H, m, mem[..], 0, used / 4)
      ensures h <= GROUPS && x == Shr(used / 4, h) && Groups(H, m, mem[..], h, x)
      ensures IsTail(H, m, used, h + 2, x, root)
    {
      h, x := LowestHeight(m);
      OddGroup(H, m, mem[..], h, x);
      root := GroupRoot(h, m, Shl(x - 1, h + 2));
      LowestTail(H, m, mem[..], used, h, x, root);
      ShrStep(used / 4, h);
      h, x := h + 1, x / 2;
    }

    /** The root of a group. */
    method GroupRoot(h: nat, ghost m: Tiling, ghost lo: nat) returns (root: Hash)
      requires mem.Length == SLOTS && h < GROUPS && Leafy(m) && Four(H, m, mem[..], GroupAt(h + 1), lo, h)
      ensures root == Node(H, m, lo, h + 2)
    {
      var b := GroupAt(h + 1);
      FourIsNode(H, m, mem[..], b, lo, h);
      root := Root4(H, mem[b], mem[b + 1], mem[b + 2], mem[b + 3]);
    }

    /** The first loop of root: the height of the smallest group. */
    method LowestHeight(ghost m: Tiling) returns (h: nat, ghost x: nat)
      requires mem.Length == SLOTS && used > 0 && used % 4 == 0 && Groups(H, m, mem[..], 0, used / 4)
      ensures x == Shr(used / 4, h) && x % 2 == 1 && Shl(x, h + 2) == used && Groups(H, m, mem[..], h, x)
    {
      h, x := 0, used / 4;
      ShlTwo(x);
      while !HasNodeAtHeight(h)
        invariant x == Shr(used / 4, h) && Shl(x, h + 2) == used && Groups(H, m, mem[..], h, x)
        decreases x
      {
        ShrStep(used / 4, h);
        HalfShift(x, h + 2);
        ShlOne(h + 2);
        h, x := h + 1, x / 2;
      }
    }

    /** One step of the final loop of root. */
    method FoldGroup(h: nat, root0: Hash, ghost x: nat, ghost m: Tiling) returns (root: Hash)
      requires mem.Length == SLOTS && Leafy(m) && h < GROUPS && x == Shr(used / 4, h)
      requires Groups(H, m, mem[..], h, x) && IsTail(H, m, used, h + 2, x, root0)
      ensures Groups(H, m, mem[..], h + 1, x / 2) && IsTail(H, m, used, h + 3, x / 2, root)
    {
      if HasNodeAtHeight(h) {
        OddGroup(H, m, mem[..], h, x);
        var r4 := GroupRoot(h, m, Shl(x - 1, h + 2));
        NextTail(H, m, used, h + 2, x, root0, r4);
        GroupsNext(H, m, mem[..], h, x);
        return H.pair(r4, root0);
      }
      NextTail(H, m, used, h + 2, x, root0, root0);
      GroupsNext(H, m, mem[..], h, x);
      return root0;
    }

    /** The final loop of root. */
    method FoldUp(h0: nat, root0: Hash, ghost m: Tiling) returns (root: Hash)
      requires mem.Length == SLOTS && Leafy(m) && h0 <= GROUPS
      requires Groups(H, m, mem[..], h0, Shr(used / 4, h0)) && IsTail(H, m, used, h0 + 2, Shr(used / 4, h0), root0)
      ensures IsTail(H, m, used, GROUPS + 2, Shr(used / 4, GROUPS), root)
    {
      root := root0;
      for h := h0 to GROUPS
        invariant Groups(H, m, mem[..], h, Shr(used / 4, h)) && IsTail(H, m, used, h + 2, Shr(used / 4, h), root)
      {
        root := FoldGroup(h, root, Shr(used / 4, h), m);
        ShrStep(used / 4, h);
      }
    }

    /** root: the root of all nodes appended, by the definition of RFC 6962. */
    method RootHash() returns (root: Hash)
      requires Valid()
      ensures root == Root(H, nodes)
    {
      if used == 0 {
        return H.zero;
      }
      assert HoldsAt(H, nodes, mem[..], used / 4);
      var h: nat := 0;
      if used % 4 != 0 {
        root := BufferRoot();
      } else {
        ghost var x;
        root, h, x := LowestRoot(LeafMap(nodes));
      }
      root := FoldUp(h, root, LeafMap(nodes));
      LastIsRoot(H, nodes, GROUPS, Shr(used / 4, GROUPS), root);
    }
  }

  lemma LastIsRoot(H: HashFn, nodes: seq<Hash>, h: nat, x: nat, root: Hash)
    requires |nodes| < LIMIT && h == GROUPS && x == Shr(|nodes| / 4, h)
    requires IsTail(H, LeafMap(nodes), |nodes|, h + 2, x, root)
    ensures root == Root(H, nodes)
  {
    ShrPlusTwo(|nodes|, h);
    LastTail(H, LeafMap(nodes), |nodes|, h + 2, x, root);
    LeafWhole(H, nodes);
  }

  lemma LeafHashesConcat(H: HashFn, a: seq<Segment>, b: seq<Segment>, n: seq<Hash>)
    ensures (n + LeafHashes(H, a)) + LeafHashes(H, b) == n + LeafHashes(H, a + b)
  {
  }

  lemma {:induction false} ShrPlusTwo(n: nat, h: nat)
    ensures Shr(n / 4, h) == Shr(n, h + 2)
  {
    assert Shr(n, h + 2) == Shr(n / 2, h + 1) == Shr(n / 2 / 2, h);
    assert n / 2 / 2 == n / 4;
  }

  /** Nodes after the last full block leave the groups as they are. */
  lemma LaterKeepsGroups(H: HashFn, a: seq<Hash>, b: seq<Hash>, s: seq<Hash>, s': seq<Hash>, q: nat)
    requires Groups(H, LeafMap(a), s, 0, q) && 4 * q <= |a| && 4 * q <= |b| && a[..4 * q] == b[..4 * q] && |s| == |s'| == SLOTS
    requires forall i :: 0 <= i < BUF ==> s'[i] == s[i]
    ensures Groups(H, LeafMap(b), s', 0, q)
  {
    ShlTwo(q);
    GroupsAbove(H, LeafMap(a), s, s', 0, q);
    GroupsSame(H, a, b, 4 * q, s', 0, q);
  }

  lemma BufferTail(H: HashFn, nodes: seq<Hash>, s: seq<Hash>, n: nat)
    requires |nodes| == n && n % 4 != 0 && |s| == SLOTS && s[BUF..BUF + n % 4] == nodes[n - n % 4..]
    ensures var root := if n % 4 == 1 then s[BUF] else if n % 4 == 2 then H.pair(s[BUF], s[BUF + 1])
                        else H.pair(H.pair(s[BUF], s[BUF + 1]), s[BUF + 2]);
      IsTail(H, LeafMap(nodes), n, 0 + 2, n / 4, root)
  {
    var m, lo, r := LeafMap(nodes), n / 4 * 4, n % 4;
    ShlTwo(n / 4);
    assert s[BUF..BUF + r][0] == nodes[n - r..][0];
    assert Node(H, m, lo, 0) == s[BUF];
    assert Log2(1) == 0 && Log2(2) == 1 && Log2(3) == 1 && Pow2(1) == 2 && Pow2(0) == 1 && Pow2(2) == 4;
    if r >= 2 {
      assert s[BUF..BUF + r][1] == nodes[n - r..][1];
      assert Node(H, m, lo + 1, 0) == s[BUF + 1];
      assert Node(H, m, lo, 1) == H.pair(s[BUF], s[BUF + 1]);
    }
    if r == 3 {
      assert s[BUF..BUF + r][2] == nodes[n - r..][2];
      assert Node(H, m, lo + 2, 0) == s[BUF + 2];
      assert Whole(H, m, lo + 2, 1) == s[BUF + 2];
    }
  }

  lemma StepsAgree(x: nat, h: nat, n: nat)
    requires Shl(x + 1, h + 2) == n
    ensures Shl(x + 1, h) == n / 4
  {
    assert Shl(x + 1, h + 2) == 2 * Shl(x + 1, h + 1) == 4 * Shl(x + 1, h);
  }

  // ---------- roots ----------

  /** SegmentsPerSector */
  const SEGMENTS := 65536

  /** SectorRoot */
  method SectorRoot(H: HashFn, sector: seq<Segment>) returns (root: Hash)
    requires |sector| < LIMIT
    ensures root == Root(H, LeafHashes(H, sector))
  {
    var s := new AppendStack(H);
    s.AppendLeaves(sector);
    assert s.nodes == LeafHashes(H, sector);
    root := s.RootHash();
  }

  /** MetaRoot: by the stack up to a sector's worth of roots, by splitting above that. */
  method MetaRoot(H: HashFn, roots: seq<Hash>) returns (root: Hash)
    ensures root == Root(H, roots)
    decreases |roots|
  {
    if |roots| <= SEGMENTS {
      var s := new AppendStack(H);
      for i := 0 to |roots|
        invariant s.Valid() && s.nodes == roots[..i] && fresh(s) && fresh(s.mem) && s.H == H
      {
        s.AppendNode(roots[i]);
        assert roots[..i + 1] == roots[..i] + [roots[i]];
      }
      assert roots[..|roots|] == roots;
      root := s.RootHash();
    } else {
      Log2Bounds(|roots| - 1);
      var split := Pow2(Log2(|roots| - 1));
      var left := MetaRoot(H, roots[..split]);
      var right := MetaRoot(H, roots[split..]);
      root := H.pair(left, right);
    }
  }

  datatype ReadResult = ReadOk(root: Hash) | ReadError

  /** ReaderRoot on a stream of whole segments, and possibly part of one more. */
  method ReaderRoot(H: HashFn, segments: seq<Segment>, ragged: bool) returns (r: ReadResult)
    requires |segments| < LIMIT
    ensures r == if ragged then ReadError else ReadOk(Root(H, LeafHashes(H, segments)))
  {
    var s := new AppendStack(H);
    var i := 0;
    while i + 4 <= |segments|
      invariant 0 <= i <= |segments| && i % 4 == 0 && s.used % 4 == 0
      invariant s.Valid() && s.nodes == [] + LeafHashes(H, segments[..i]) && fresh(s) && fresh(s.mem) && s.H == H
    {
      s.AppendLeaves(segments[i..i + 4]);
      LeafHashesConcat(H, segments[..i], segments[i..i + 4], []);
      assert segments[..i] + segments[i..i + 4] == segments[..i + 4];
      i := i + 4;
    }
    if ragged {
      return ReadError;
    }
    s.AppendLeaves(segments[i..]);
    LeafHashesConcat(H, segments[..i], segments[i..], []);
    assert segments[..i] + segments[i..] == segments;
    assert s.nodes == LeafHashes(H, segments);
    var root := s.RootHash();
    return ReadOk(root);
  }
}
