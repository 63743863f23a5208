/** Proofs that a range of segments belongs to a sector (merkle/proof.go: ProofSize, BuildProof,
    verifyProof, VerifyProof), for a perfect tree of any height. */
module RangeProofs {
  import opened Bits
  import opened MerkleTree
  import opened AppendStacks
  import opened ProofStacks

  // ---------- the recursion both sides share ----------

  /** The subtree over [lo, lo + 2^k) holds only segments of [s, e). */
  predicate Inside(lo: nat, k: nat, s: nat, e: nat) {
    s <= lo && lo + Pow2(k) <= e
  }

  /** It holds none of them. */
  predicate Outside(lo: nat, k: nat, s: nat, e: nat) {
    lo + Pow2(k) <= s || e <= lo
  }

  /** The root of the leaves [i, j) of some tree. */
  type SubtreeRoots = (nat, nat) -> Hash

  /** The hashes BuildProof appends for a subtree, left to right. */
  function Proof(root: SubtreeRoots, s: nat, e: nat, lo: nat, k: nat): seq<Hash>
    requires s < e
    decreases k
  {
    if Inside(lo, k, s, e) then []
    else if Outside(lo, k, s, e) then [root(lo, lo + Pow2(k))]
    else Proof(root, s, e, lo, k - 1) + Proof(root, s, e, lo + Pow2(k - 1), k - 1)
  }

  /** The hash verifyProof computes for a subtree and the hashes it leaves, or Short when it
      would take a hash from an empty proof. */
  datatype Popped = Popped(hash: Hash, rest: seq<Hash>) | Short

  function Check(H: HashFn, root: SubtreeRoots, s: nat, e: nat, lo: nat, k: nat, proof: seq<Hash>): Popped
    requires s < e
    decreases k
  {
    if Inside(lo, k, s, e) then Popped(root(lo, lo + Pow2(k)), proof)
    else if Outside(lo, k, s, e) then
      if |proof| == 0 then Short else Popped(proof[0], proof[1..])
    else
      var left := Check(H, root, s, e, lo, k - 1, proof);
      if left.Short? then Short
      else
        var right := Check(H, root, s, e, lo + Pow2(k - 1), k - 1, left.rest);
        if right.Short? then Short else Popped(H.pair(left.hash, right.hash), right.rest)
  }

  /** How many hashes a subtree takes. */
  function Count(s: nat, e: nat, lo: nat, k: nat): nat
    requires s < e
    decreases k
  {
    if Inside(lo, k, s, e) then 0
    else if Outside(lo, k, s, e) then 1
    else Count(s, e, lo, k - 1) + Count(s, e, lo + Pow2(k - 1), k - 1)
  }

  // ---------- proof sizes ----------

  /** ProofSize */
  function ProofSize(n: nat, start: nat, end: nat): nat
    requires n > 0 && end > 0
  {
    var pathMask := Pow2(BitLen(BitXor(end - 1, n - 1))) - 1;
    OnesCount(start) + OnesCount(AndNot(pathMask, end - 1))
  }

  lemma {:induction false} OnesTop(r: nat, j: nat)
    requires r < Pow2(j)
    ensures OnesCount(Pow2(j) + r) == 1 + OnesCount(r)
  {
    if j > 0 {
      OnesTop(r / 2, j - 1);
      assert (Pow2(j) + r) / 2 == Pow2(j - 1) + r / 2 && (Pow2(j) + r) % 2 == r % 2;
    } else {
      assert OnesCount(1) == 1 + OnesCount(0);
    }
  }

  /** Halving the complement of x in K bits. */
  lemma ComplementHalf(x: nat, K: nat)
    requires x < Pow2(K) && K > 0
    ensures var c := Pow2(K) - 1 - x;
      x / 2 < Pow2(K - 1) && c / 2 == Pow2(K - 1) - 1 - x / 2 && c % 2 == 1 - x % 2
    ensures (Pow2(K) - 1) / 2 == Pow2(K - 1) - 1 && (Pow2(K) - 1) % 2 == 1
  {
  }

  lemma {:induction false} XorOnes(x: nat, K: nat)
    requires x < Pow2(K)
    ensures BitXor(x, Pow2(K) - 1) == Pow2(K) - 1 - x
  {
    if K > 0 {
      ComplementHalf(x, K);
      XorOnes(x / 2, K - 1);
    }
  }

  /** As many ones as c has bits. */
  function Mask(c: nat): nat {
    if c == 0 then 0 else 1 + 2 * Mask(c / 2)
  }

  lemma {:induction false} MaskIsPower(c: nat)
    ensures Mask(c) == Pow2(BitLen(c)) - 1
  {
    if c > 0 {
      MaskIsPower(c / 2);
    }
  }

  /** The mask of the complement's length keeps exactly the zeros of x. */
  lemma {:induction false} MaskComplement(x: nat, K: nat, c: nat)
    requires x < Pow2(K) && c == Pow2(K) - 1 - x
    ensures AndNot(Mask(c), x) == c
    decreases K
  {
    if c > 0 {
      ComplementHalf(x, K);
      MaskComplement(x / 2, K - 1, c / 2);
      MaskHalf(c);
      AndNotStep(Mask(c), x);
    }
  }

  lemma MaskHalf(c: nat)
    requires c > 0
    ensures Mask(c) % 2 == 1 && Mask(c) / 2 == Mask(c / 2)
  {
  }

  lemma AndNotStep(mask: nat, x: nat)
    requires mask % 2 == 1
    ensures AndNot(mask, x) == 1 - x % 2 + 2 * AndNot(mask / 2, x / 2)
  {
  }

  /** The path mask keeps the zeros of x. */
  lemma PathZeros(K: nat, x: nat)
    requires x < Pow2(K)
    ensures AndNot(Pow2(BitLen(BitXor(x, Pow2(K) - 1))) - 1, x) == Pow2(K) - 1 - x
  {
    var c := Pow2(K) - 1 - x;
    XorOnes(x, K);
    MaskIsPower(c);
    assert Pow2(BitLen(BitXor(x, Pow2(K) - 1))) - 1 == Mask(c);
    MaskComplement(x, K, c);
  }

  lemma ProofSizePerfect(K: nat, s: nat, e: nat)
    requires s < e <= Pow2(K)
    ensures ProofSize(Pow2(K), s, e) == OnesCount(s) + OnesCount(Pow2(K) - 1 - (e - 1))
  {
    var last, mask := e - 1, Pow2(BitLen(BitXor(e - 1, Pow2(K) - 1))) - 1;
    PathZeros(K, last);
    assert OnesCount(AndNot(mask, last)) == OnesCount(Pow2(K) - 1 - last);
  }

  /** s relative to the subtree at lo, within 0 and 2^k. */
  function Clamp(s: nat, lo: nat, k: nat): (r: nat)
    ensures r <= Pow2(k)
  {
    if s <= lo then 0 else if s >= lo + Pow2(k) then Pow2(k) else s - lo
  }

  lemma {:induction false} OnesPow2(k: nat)
    ensures OnesCount(Pow2(k)) == 1
  {
    OnesTop(0, k);
    assert OnesCount(0) == 0;
  }

  /** The ones of a number, by halves. */
  lemma OnesHalves(a: nat, k: nat)
    requires k > 0 && a < Pow2(k)
    ensures a <= Pow2(k - 1) ==> OnesCount(a) == OnesCount(a) + OnesCount(0)
    ensures a > Pow2(k - 1) ==> OnesCount(a) == OnesCount(Pow2(k - 1)) + OnesCount(a - Pow2(k - 1))
  {
    assert OnesCount(0) == 0;
    OnesPow2(k - 1);
    if a > Pow2(k - 1) {
      OnesTop(a - Pow2(k - 1), k - 1);
    }
  }

  /** How many hashes lie left of s. */
  function LeftCount(s: nat, lo: nat, k: nat): nat
    decreases k
  {
    if s <= lo then 0 else if lo + Pow2(k) <= s then 1
    else LeftCount(s, lo, k - 1) + LeftCount(s, lo + Pow2(k - 1), k - 1)
  }

  /** How many hashes lie right of e. */
  function RightCount(e: nat, lo: nat, k: nat): nat
    decreases k
  {
    if lo + Pow2(k) <= e then 0 else if e <= lo then 1
    else RightCount(e, lo, k - 1) + RightCount(e, lo + Pow2(k - 1), k - 1)
  }

  lemma {:induction false} CountSides(s: nat, e: nat, lo: nat, k: nat)
    requires s < e
    ensures Count(s, e, lo, k) == LeftCount(s, lo, k) + RightCount(e, lo, k)
    decreases k
  {
    if !Inside(lo, k, s, e) && !Outside(lo, k, s, e) {
      CountSides(s, e, lo, k - 1);
      CountSides(s, e, lo + Pow2(k - 1), k - 1);
    }
  }

  /** The hashes left of the range are the ones of its start. */
  lemma {:induction false} LeftOnes(s: nat, lo: nat, k: nat)
    ensures LeftCount(s, lo, k) == OnesCount(Clamp(s, lo, k))
    decreases k
  {
    if s <= lo {
    } else if lo + Pow2(k) <= s {
      OnesPow2(k);
    } else {
      LeftOnes(s, lo, k - 1);
      LeftOnes(s, lo + Pow2(k - 1), k - 1);
      OnesHalves(s - lo, k);
    }
  }

  /** The hashes right of the range are the ones of what follows its end. */
  lemma {:induction false} RightOnes(e: nat, lo: nat, k: nat)
    ensures RightCount(e, lo, k) == OnesCount(Pow2(k) - Clamp(e, lo, k))
    decreases k
  {
    if lo + Pow2(k) <= e {
    } else if e <= lo {
      OnesPow2(k);
    } else {
      RightOnes(e, lo, k - 1);
      RightOnes(e, lo + Pow2(k - 1), k - 1);
      OnesHalves(Pow2(k) - (e - lo), k);
    }
  }

  /** The whole proof takes exactly ProofSize hashes. */
  lemma CountIsProofSize(K: nat, s: nat, e: nat)
    requires s < e <= Pow2(K)
    ensures Count(s, e, 0, K) == ProofSize(Pow2(K), s, e)
  {
    CountOnes(K, s, e);
    ProofSizePerfect(K, s, e);
    assert Pow2(K) - 1 - (e - 1) == Pow2(K) - e;
    WholeClamp(s, K);
    WholeClamp(e, K);
  }

  lemma WholeClamp(s: nat, K: nat)
    requires s <= Pow2(K)
    ensures Clamp(s, 0, K) == s
  {
  }

  lemma CountOnes(K: nat, s: nat, e: nat)
    requires s < e
    ensures Count(s, e, 0, K) == OnesCount(Clamp(s, 0, K)) + OnesCount(Pow2(K) - Clamp(e, 0, K))
  {
    CountSides(s, e, 0, K);
    LeftOnes(s, 0, K);
    RightOnes(e, 0, K);
  }

  lemma {:induction false} ProofLength(root: SubtreeRoots, s: nat, e: nat, lo: nat, k: nat)
    requires s < e
    ensures |Proof(root, s, e, lo, k)| == Count(s, e, lo, k)
    decreases k
  {
    if !Inside(lo, k, s, e) && !Outside(lo, k, s, e) {
      ProofLength(root, s, e, lo, k - 1);
      ProofLength(root, s, e, lo + Pow2(k - 1), k - 1);
    }
  }

  /** verifyProof takes a hash from an empty proof exactly when the proof is too short, and
      otherwise leaves the rest. */
  lemma {:induction false} CheckTakes(H: HashFn, root: SubtreeRoots, s: nat, e: nat, lo: nat, k: nat, proof: seq<Hash>)
    requires s < e
    ensures Check(H, root, s, e, lo, k, proof).Short? <==> |proof| < Count(s, e, lo, k)
    ensures |proof| >= Count(s, e, lo, k) ==>
      Check(H, root, s, e, lo, k, proof).rest == proof[Count(s, e, lo, k)..]
    decreases k
  {
    if !Inside(lo, k, s, e) && !Outside(lo, k, s, e) {
      CheckTakes(H, root, s, e, lo, k - 1, proof);
      var left := Check(H, root, s, e, lo, k - 1, proof);
      if left.Popped? {
        CheckTakes(H, root, s, e, lo + Pow2(k - 1), k - 1, left.rest);
      }
    }
  }

  // ---------- completeness ----------

  /** The root of a subtree is the pair of the roots of its halves. */
  ghost predicate Splits(H: HashFn, root: SubtreeRoots, lo: nat, k: nat) {
    root(lo, lo + Pow2(k + 1)) == H.pair(root(lo, lo + Pow2(k)), root(lo + Pow2(k), lo + Pow2(k + 1)))
  }

  /** Every subtree of a tree of n leaves is the pair of its halves. */
  ghost predicate TreeRoots(H: HashFn, root: SubtreeRoots, n: nat) {
    forall lo: nat, k: nat :: lo + Pow2(k + 1) <= n ==> Splits(H, root, lo, k)
  }

  /** Checking the built proof yields the root of the subtree. */
  lemma {:induction false} CheckProof(H: HashFn, all: SubtreeRoots, mine: SubtreeRoots, n: nat, s: nat, e: nat, lo: nat,
    k: nat, rest: seq<Hash>)
    requires s < e <= n && lo + Pow2(k) <= n && TreeRoots(H, all, n)
    requires forall i: nat, j: nat :: s <= i <= j <= e ==> mine(i, j) == all(i, j)
    ensures Check(H, mine, s, e, lo, k, Proof(all, s, e, lo, k) + rest) == Popped(all(lo, lo + Pow2(k)), rest)
    decreases k
  {
    var hi := lo + Pow2(k);
    if Inside(lo, k, s, e) {
      assert [] + rest == rest;
      assert mine(lo, hi) == all(lo, hi);
    } else if Outside(lo, k, s, e) {
      var r := all(lo, hi);
      assert ([r] + rest)[0] == r && ([r] + rest)[1..] == rest;
    } else {
      var mid := lo + Pow2(k - 1);
      var p, q := Proof(all, s, e, lo, k - 1), Proof(all, s, e, mid, k - 1);
      assert (p + q) + rest == p + (q + rest);
      CheckProof(H, all, mine, n, s, e, lo, k - 1, q + rest);
      CheckProof(H, all, mine, n, s, e, mid, k - 1, rest);
      assert Splits(H, all, lo, k - 1);
    }
  }

  // ---------- soundness ----------

  ghost predicate LeafInjective(H: HashFn) {
    forall a, b :: H.leaf(a) == H.leaf(b) ==> a == b
  }

  /** With an injective hash, trees of the same size with the same root have the same leaves. */
  lemma {:induction false} RootInjective(H: HashFn, a: seq<Hash>, b: seq<Hash>)
    requires Injective(H) && |a| == |b| && Root(H, a) == Root(H, b)
    ensures a == b
    decreases |a|
  {
    if |a| > 1 {
      Log2Bounds(|a| - 1);
      var p := Pow2(Log2(|a| - 1));
      assert NoCollision(H, Root(H, a[..p]), Root(H, a[p..]), Root(H, b[..p]), Root(H, b[p..]));
      RootInjective(H, a[..p], b[..p]);
      RootInjective(H, a[p..], b[p..]);
      assert a == a[..p] + a[p..] && b == b[..p] + b[p..];
    }
  }

  /** With an injective hash, a subtree that checks to the right root uses the right root for
      the part of the range around any i. */
  lemma {:induction false} CheckSound(H: HashFn, all: SubtreeRoots, mine: SubtreeRoots, n: nat, s: nat, e: nat, lo: nat, k: nat,
    proof: seq<Hash>, i: nat) returns (a: nat, b: nat)
    requires Injective(H) && s < e <= n && lo + Pow2(k) <= n && TreeRoots(H, all, n)
    requires Check(H, mine, s, e, lo, k, proof).Popped?
    requires Check(H, mine, s, e, lo, k, proof).hash == all(lo, lo + Pow2(k))
    requires lo <= i < lo + Pow2(k) && s <= i < e
    ensures s <= a <= i < b <= e && mine(a, b) == all(a, b)
    decreases k
  {
    var hi := lo + Pow2(k);
    if Inside(lo, k, s, e) {
      a, b := lo, hi;
    } else {
      var mid := lo + Pow2(k - 1);
      var left := Check(H, mine, s, e, lo, k - 1, proof);
      var right := Check(H, mine, s, e, mid, k - 1, left.rest);
      assert Splits(H, all, lo, k - 1);
      assert NoCollision(H, left.hash, right.hash, all(lo, mid), all(mid, hi));
      if i < mid {
        a, b := CheckSound(H, all, mine, n, s, e, lo, k - 1, proof, i);
      } else {
        a, b := CheckSound(H, all, mine, n, s, e, mid, k - 1, left.rest, i);
      }
    }
  }

  /** And the proof then holds the right root of every subtree outside the range. */
  lemma {:induction false} CheckForces(H: HashFn, all: SubtreeRoots, mine: SubtreeRoots, n: nat, s: nat, e: nat, lo: nat,
    k: nat, proof: seq<Hash>)
    requires Injective(H) && s < e <= n && lo + Pow2(k) <= n && TreeRoots(H, all, n)
    requires Check(H, mine, s, e, lo, k, proof).Popped?
    requires Check(H, mine, s, e, lo, k, proof).hash == all(lo, lo + Pow2(k))
    ensures proof == Proof(all, s, e, lo, k) + Check(H, mine, s, e, lo, k, proof).rest
    decreases k
  {
    var hi := lo + Pow2(k);
    if Inside(lo, k, s, e) {
      assert [] + proof == proof;
    } else if Outside(lo, k, s, e) {
      assert proof == [proof[0]] + proof[1..];
    } else {
      var mid := lo + Pow2(k - 1);
      var left := Check(H, mine, s, e, lo, k - 1, proof);
      var right := Check(H, mine, s, e, mid, k - 1, left.rest);
      assert Splits(H, all, lo, k - 1);
      assert NoCollision(H, left.hash, right.hash, all(lo, mid), all(mid, hi));
      CheckForces(H, all, mine, n, s, e, lo, k - 1, proof);
      CheckForces(H, all, mine, n, s, e, mid, k - 1, left.rest);
      Reassociate(proof, Proof(all, s, e, lo, k - 1), left.rest, Proof(all, s, e, mid, k - 1), right.rest);
    }
  }

  lemma Reassociate(proof: seq<Hash>, p: seq<Hash>, rest: seq<Hash>, q: seq<Hash>, last: seq<Hash>)
    requires proof == p + rest && rest == q + last
    ensures proof == (p + q) + last
  {
  }

  // ---------- the operations ----------

  /** The subtree roots of a sector's own tree, or of a range of segments that begins at s. */
  ghost function Roots(H: HashFn, segments: seq<Segment>, s: nat): SubtreeRoots {
    (i: nat, j: nat) => if s <= i <= j <= s + |segments| then Root(H, LeafHashes(H, segments[i - s..j - s])) else H.zero
  }

  lemma SectorTreeRoots(H: HashFn, sector: seq<Segment>)
    ensures TreeRoots(H, Roots(H, sector, 0), |sector|)
  {
    forall lo: nat, k: nat | lo + Pow2(k + 1) <= |sector| ensures Splits(H, Roots(H, sector, 0), lo, k) {
      SectorSplits(H, sector, lo, k);
    }
  }

  /** A subtree root of a sector, from its leaf hashes. */
  lemma RootsAre(H: HashFn, sector: seq<Segment>, i: nat, j: nat)
    requires i <= j <= |sector|
    ensures Roots(H, sector, 0)(i, j) == Root(H, LeafHashes(H, sector)[i..j])
  {
    assert LeafHashes(H, sector[i - 0..j - 0]) == LeafHashes(H, sector)[i..j];
  }

  lemma SectorSplits(H: HashFn, sector: seq<Segment>, lo: nat, k: nat)
    requires lo + Pow2(k + 1) <= |sector|
    ensures Splits(H, Roots(H, sector, 0), lo, k)
  {
    var leaves, mid, hi := LeafHashes(H, sector), lo + Pow2(k), lo + Pow2(k + 1);
    RootSplits(H, leaves, lo, Pow2(k + 1), k);
    RootsAre(H, sector, lo, hi);
    RootsAre(H, sector, lo, mid);
    RootsAre(H, sector, mid, hi);
  }

  lemma RangeRoots(H: HashFn, sector: seq<Segment>, s: nat, e: nat, i: nat, j: nat)
    requires s <= i <= j <= e <= |sector|
    ensures Roots(H, sector[s..e], s)(i, j) == Roots(H, sector, 0)(i, j)
  {
    var a, b := sector[s..e][i - s..j - s], sector[i - 0..j - 0];
    forall t | 0 <= t < j - i ensures a[t] == b[t] {
      assert a[t] == sector[s..e][i - s + t];
    }
    assert a == b;
  }

  /** verifyProof's verdict. */
  ghost predicate Accepts(H: HashFn, proof: seq<Hash>, segments: seq<Segment>, s: nat, K: nat, root: Hash)
    requires |segments| > 0
  {
    && |proof| == ProofSize(Pow2(K), s, s + |segments|)
    && Check(H, Roots(H, segments, s), s, s + |segments|, 0, K, proof).Popped?
    && Check(H, Roots(H, segments, s), s, s + |segments|, 0, K, proof).hash == root
  }

  /** BuildProof's proof for a sector of 2^K segments. */
  ghost function SectorProof(H: HashFn, sector: seq<Segment>, s: nat, e: nat, K: nat): seq<Hash>
    requires s < e
  {
    Proof(Roots(H, sector, 0), s, e, 0, K)
  }

  /** BuildProof's proof has exactly ProofSize hashes and is accepted for the sector's own root. */
  lemma ProofComplete(H: HashFn, sector: seq<Segment>, s: nat, e: nat, K: nat)
    requires |sector| == Pow2(K) && s < e <= |sector|
    ensures |SectorProof(H, sector, s, e, K)| == ProofSize(Pow2(K), s, e)
    ensures Accepts(H, SectorProof(H, sector, s, e, K), sector[s..e], s, K, Root(H, LeafHashes(H, sector)))
  {
    var all, mine, proof := Roots(H, sector, 0), Roots(H, sector[s..e], s), SectorProof(H, sector, s, e, K);
    ProofLength(all, s, e, 0, K);
    CountIsProofSize(K, s, e);
    SectorTreeRoots(H, sector);
    forall i: nat, j: nat | s <= i <= j <= e ensures mine(i, j) == all(i, j) {
      RangeRoots(H, sector, s, e, i, j);
    }
    CheckProof(H, all, mine, |sector|, s, e, 0, K, []);
    assert proof + [] == proof;
    WholeRoot(H, sector);
  }

  lemma WholeRoot(H: HashFn, sector: seq<Segment>)
    ensures Roots(H, sector, 0)(0, 0 + |sector|) == Root(H, LeafHashes(H, sector))
  {
    assert sector[0 - 0..0 + |sector| - 0] == sector;
  }

  /** With injective hashes, whatever is accepted for a sector's root is the sector's own data, with
      the proof BuildProof makes for it. */
  lemma ProofSound(H: HashFn, sector: seq<Segment>, proof: seq<Hash>, segments: seq<Segment>, s: nat, K: nat)
    requires Injective(H) && LeafInjective(H)
    requires |sector| == Pow2(K) && 0 < |segments| && s + |segments| <= |sector|
    requires Accepts(H, proof, segments, s, K, Root(H, LeafHashes(H, sector)))
    ensures segments == sector[s..s + |segments|]
    ensures proof == SectorProof(H, sector, s, s + |segments|, K)
  {
    ProofForced(H, sector, proof, segments, s, K);
    forall j | 0 <= j < |segments| ensures segments[j] == sector[s..s + |segments|][j] {
      SegmentSound(H, sector, proof, segments, s, K, j);
    }
  }

  lemma ProofForced(H: HashFn, sector: seq<Segment>, proof: seq<Hash>, segments: seq<Segment>, s: nat, K: nat)
    requires Injective(H) && |sector| == Pow2(K) && 0 < |segments| && s + |segments| <= |sector|
    requires Accepts(H, proof, segments, s, K, Root(H, LeafHashes(H, sector)))
    ensures proof == SectorProof(H, sector, s, s + |segments|, K)
  {
    SectorTreeRoots(H, sector);
    WholeRoot(H, sector);
    var all, mine, e := Roots(H, sector, 0), Roots(H, segments, s), s + |segments|;
    CheckForces(H, all, mine, |sector|, s, e, 0, K, proof);
    CheckTakes(H, mine, s, e, 0, K, proof);
    CountIsProofSize(K, s, e);
    var p := Proof(all, s, e, 0, K);
    assert p + [] == p;
  }

  lemma SegmentSound(H: HashFn, sector: seq<Segment>, proof: seq<Hash>, segments: seq<Segment>, s: nat, K: nat, j: nat)
    requires Injective(H) && LeafInjective(H)
    requires |sector| == Pow2(K) && j < |segments| && s + |segments| <= |sector|
    requires Accepts(H, proof, segments, s, K, Root(H, LeafHashes(H, sector)))
    ensures segments[j] == sector[s + j]
  {
    SectorTreeRoots(H, sector);
    WholeRoot(H, sector);
    var all, mine, e := Roots(H, sector, 0), Roots(H, segments, s), s + |segments|;
    var a, b := CheckSound(H, all, mine, |sector|, s, e, 0, K, proof, s + j);
    SameRange(H, sector, segments, s, a, b, s + j);
  }

  lemma SameRange(H: HashFn, sector: seq<Segment>, segments: seq<Segment>, s: nat, a: nat, b: nat, i: nat)
    requires Injective(H) && LeafInjective(H) && s <= a <= i < b <= s + |segments| <= |sector|
    requires Roots(H, segments, s)(a, b) == Roots(H, sector, 0)(a, b)
    ensures segments[i - s] == sector[i]
  {
    var x, y := segments[a - s..b - s], sector[a - 0..b - 0];
    SameSegments(H, x, y);
    assert x[i - a] == y[i - a];
  }

  lemma SameSegments(H: HashFn, a: seq<Segment>, b: seq<Segment>)
    requires Injective(H) && LeafInjective(H) && |a| == |b|
    requires Root(H, LeafHashes(H, a)) == Root(H, LeafHashes(H, b))
    ensures a == b
  {
    RootInjective(H, LeafHashes(H, a), LeafHashes(H, b));
    forall i | 0 <= i < |a| ensures a[i] == b[i] {
      assert LeafHashes(H, a)[i] == LeafHashes(H, b)[i];
    }
  }

  /** The roots BuildProof works with: the precalculated ones, and its own where those are zero. */
  function Given(H: HashFn, precalc: SubtreeRoots, own: SubtreeRoots): SubtreeRoots {
    (i: nat, j: nat) => if precalc(i, j) == H.zero then own(i, j) else precalc(i, j)
  }

  /** Every precalculated root that the proof takes is right. */
  predicate RightWhereTaken(H: HashFn, precalc: SubtreeRoots, own: SubtreeRoots, s: nat, e: nat, lo: nat, k: nat)
    requires s < e
    decreases k
  {
    if Inside(lo, k, s, e) then true
    else if Outside(lo, k, s, e) then
      precalc(lo, lo + Pow2(k)) == H.zero || precalc(lo, lo + Pow2(k)) == own(lo, lo + Pow2(k))
    else
      RightWhereTaken(H, precalc, own, s, e, lo, k - 1) && RightWhereTaken(H, precalc, own, s, e, lo + Pow2(k - 1), k - 1)
  }

  lemma {:induction false} SameIfRight(H: HashFn, precalc: SubtreeRoots, own: SubtreeRoots, s: nat, e: nat, lo: nat, k: nat)
    requires s < e
    ensures RightWhereTaken(H, precalc, own, s, e, lo, k)
       <==> Proof(Given(H, precalc, own), s, e, lo, k) == Proof(own, s, e, lo, k)
    decreases k
  {
    if Outside(lo, k, s, e) && !Inside(lo, k, s, e) {
      assert [Given(H, precalc, own)(lo, lo + Pow2(k))][0] == Given(H, precalc, own)(lo, lo + Pow2(k));
    } else if !Inside(lo, k, s, e) {
      var mid, g := lo + Pow2(k - 1), Given(H, precalc, own);
      SameIfRight(H, precalc, own, s, e, lo, k - 1);
      SameIfRight(H, precalc, own, s, e, mid, k - 1);
      SameProofs(g, own, s, e, lo, k);
    }
  }

  lemma SameProofs(g: SubtreeRoots, own: SubtreeRoots, s: nat, e: nat, lo: nat, k: nat)
    requires s < e && !Inside(lo, k, s, e) && !Outside(lo, k, s, e)
    ensures var mid := lo + Pow2(k - 1);
      Proof(g, s, e, lo, k) == Proof(own, s, e, lo, k) <==>
        Proof(g, s, e, lo, k - 1) == Proof(own, s, e, lo, k - 1) && Proof(g, s, e, mid, k - 1) == Proof(own, s, e, mid, k - 1)
  {
    var mid := lo + Pow2(k - 1);
    ProofLength(g, s, e, lo, k - 1);
    ProofLength(own, s, e, lo, k - 1);
    SameHalves(Proof(g, s, e, lo, k - 1), Proof(g, s, e, mid, k - 1),
               Proof(own, s, e, lo, k - 1), Proof(own, s, e, mid, k - 1));
  }

  lemma SameHalves(a: seq<Hash>, b: seq<Hash>, c: seq<Hash>, d: seq<Hash>)
    requires |a| == |c|
    ensures a + b == c + d <==> a == c && b == d
  {
    assert (a + b)[..|a|] == a && (a + b)[|a|..] == b;
    assert (c + d)[..|c|] == c && (c + d)[|c|..] == d;
  }

  /** With an injective hash, BuildProof's proof is accepted for the sector's own root exactly when
      every precalculated root it takes is right. */
  lemma PrecalcAccepted(H: HashFn, sector: seq<Segment>, precalc: SubtreeRoots, s: nat, e: nat, K: nat)
    requires Injective(H) && |sector| == Pow2(K) && s < e <= |sector|
    ensures var own := Roots(H, sector, 0);
      Accepts(H, Proof(Given(H, precalc, own), s, e, 0, K), sector[s..e], s, K, Root(H, LeafHashes(H, sector))) <==>
        RightWhereTaken(H, precalc, own, s, e, 0, K)
  {
    var own := Roots(H, sector, 0);
    var proof := Proof(Given(H, precalc, own), s, e, 0, K);
    SameIfRight(H, precalc, own, s, e, 0, K);
    ProofComplete(H, sector, s, e, K);
    if Accepts(H, proof, sector[s..e], s, K, Root(H, LeafHashes(H, sector))) {
      ProofForced(H, sector, proof, sector[s..e], s, K);
    }
  }

  /** A subtree outside the range: its precalculated root, or its root from scratch. */
  method SubtreeRoot(H: HashFn, sector: seq<Segment>, lo: nat, hi: nat, precalc: SubtreeRoots) returns (h: Hash)
    requires lo <= hi <= |sector| < LIMIT
    ensures h == Given(H, precalc, Roots(H, sector, 0))(lo, hi)
  {
    h := precalc(lo, hi);
    if h == H.zero {
      h := SectorRoot(H, sector[lo..hi]);
    }
  }

  /** BuildProof's recursive closure: appends to the proof so far. */
  method BuildRec(H: HashFn, sector: seq<Segment>, s: nat, e: nat, lo: nat, k: nat, precalc: SubtreeRoots,
    proof0: seq<Hash>, ghost all: SubtreeRoots)
    returns (proof: seq<Hash>)
    requires s < e && lo + Pow2(k) <= |sector| < LIMIT && all == Given(H, precalc, Roots(H, sector, 0))
    ensures proof == proof0 + Proof(all, s, e, lo, k)
    decreases k
  {
    var hi := lo + Pow2(k);
    if lo >= s && hi <= e {
      assert proof0 + [] == proof0;
      return proof0;
    } else if hi <= s || lo >= e {
      var h := SubtreeRoot(H, sector, lo, hi, precalc);
      return proof0 + [h];
    }
    var mid := lo + Pow2(k - 1);
    ghost var a, b := Proof(all, s, e, lo, k - 1), Proof(all, s, e, mid, k - 1);
    var p := BuildRec(H, sector, s, e, lo, k - 1, precalc, proof0, all);
    proof := BuildRec(H, sector, s, e, mid, k - 1, precalc, p, all);
    assert proof == (proof0 + a) + b == proof0 + (a + b);
  }

  /** BuildProof */
  method BuildProof(H: HashFn, sector: seq<Segment>, s: nat, e: nat, K: nat, precalc: SubtreeRoots) returns (proof: seq<Hash>)
    requires |sector| == Pow2(K) < LIMIT && s < e <= |sector|
    ensures proof == Proof(Given(H, precalc, Roots(H, sector, 0)), s, e, 0, K)
    ensures proof == SectorProof(H, sector, s, e, K) <==> RightWhereTaken(H, precalc, Roots(H, sector, 0), s, e, 0, K)
  {
    SameIfRight(H, precalc, Roots(H, sector, 0), s, e, 0, K);
    proof := BuildRec(H, sector, s, e, 0, K, precalc, [], Given(H, precalc, Roots(H, sector, 0)));
  }

  /** Nothing precalculated is never wrong. */
  lemma {:induction false} NothingPrecalculated(H: HashFn, own: SubtreeRoots, precalc: SubtreeRoots, s: nat, e: nat, lo: nat, k: nat)
    requires s < e && forall i: nat, j: nat :: precalc(i, j) == H.zero
    ensures RightWhereTaken(H, precalc, own, s, e, lo, k)
    decreases k
  {
    if !Inside(lo, k, s, e) && !Outside(lo, k, s, e) {
      NothingPrecalculated(H, own, precalc, s, e, lo, k - 1);
      NothingPrecalculated(H, own, precalc, s, e, lo + Pow2(k - 1), k - 1);
    }
  }

  /** verifyProof's recursive closure.  The source's index panic on an empty proof is ok == false. */
  method CheckRec(H: HashFn, segments: seq<Segment>, s: nat, e: nat, lo: nat, k: nat, proof0: seq<Hash>)
    returns (ok: bool, hash: Hash, proof: seq<Hash>)
    requires s < e && |segments| == e - s < LIMIT
    ensures Check(H, Roots(H, segments, s), s, e, lo, k, proof0) == if ok then Popped(hash, proof) else Short
    decreases k
  {
    var hi := lo + Pow2(k);
    if lo >= s && hi <= e {
      hash := SectorRoot(H, segments[lo - s..hi - s]);
      return true, hash, proof0;
    } else if hi <= s || lo >= e {
      if |proof0| == 0 {
        return false, H.zero, proof0;
      }
      return true, proof0[0], proof0[1..];
    }
    var left, right;
    ok, left, proof := CheckRec(H, segments, s, e, lo, k - 1, proof0);
    if !ok {
      return false, H.zero, proof;
    }
    ok, right, proof := CheckRec(H, segments, s, e, lo + Pow2(k - 1), k - 1, proof);
    return ok, H.pair(left, right), proof;
  }

  /** VerifyProof; the range and the amount of data must fit, as the source demands by panicking. */
  method VerifyProof(H: HashFn, proof: seq<Hash>, segments: seq<Segment>, s: nat, e: nat, K: nat, root: Hash) returns (ok: bool)
    requires s < e <= Pow2(K) && |segments| == e - s < LIMIT
    ensures ok <==> Accepts(H, proof, segments, s, K, root)
  {
    if |proof| != ProofSize(Pow2(K), s, e) {
      return false;
    }
    CountIsProofSize(K, s, e);
    CheckTakes(H, Roots(H, segments, s), s, e, 0, K, proof);
    var popped, hash, rest := CheckRec(H, segments, s, e, 0, K, proof);
    return hash == root;
  }
}
