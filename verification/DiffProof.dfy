/** Diff proofs (merkle/proof.go: sectorsChanged, BuildDiffProof, VerifyDiffProof, modifyLeaves,
    modifyProofRanges): evidence that Append, Swap and Trim actions take one contract root to
    another, without the untouched sector roots. */
module DiffProofs {
  import opened Bits
  import opened MerkleTree
  import opened ProofStacks
  import opened Subtrees
  import opened AppendStacks
  import opened RangeProofs
  import opened RangeVerifiers

  // ---------- actions ----------

  datatype Action = Append(sector: seq<Segment>) | Trim(count: nat) | Swap(i: nat, j: nat)

  /** What the host accepts for a contract of n sectors. */
  predicate ValidAction(a: Action, n: nat) {
    match a
    case Append(sector) => |sector| == SEGMENTS
    case Trim(count) => count <= n
    case Swap(i, j) => i < n && j < n
  }

  function SizeAfter(a: Action, n: nat): nat
    requires ValidAction(a, n)
  {
    match a
    case Append(_) => n + 1
    case Trim(count) => n - count
    case Swap(_, _) => n
  }

  predicate ValidActions(actions: seq<Action>, n: nat) {
    |actions| == 0 || (ValidAction(actions[0], n) && ValidActions(actions[1..], SizeAfter(actions[0], n)))
  }

  function FinalSize(actions: seq<Action>, n: nat): nat
    requires ValidActions(actions, n)
  {
    if |actions| == 0 then n else FinalSize(actions[1..], SizeAfter(actions[0], n))
  }

  ghost function Apply(H: HashFn, a: Action, roots: seq<Hash>): (r: seq<Hash>)
    requires ValidAction(a, |roots|)
    ensures |r| == SizeAfter(a, |roots|)
  {
    match a
    case Append(sector) => roots + [Root(H, LeafHashes(H, sector))]
    case Trim(count) => roots[..|roots| - count]
    case Swap(i, j) => roots[i := roots[j]][j := roots[i]]
  }

  /** The sector roots after the actions, in order. */
  ghost function ApplyAll(H: HashFn, actions: seq<Action>, roots: seq<Hash>): (r: seq<Hash>)
    requires ValidActions(actions, |roots|)
    ensures |r| == FinalSize(actions, |roots|)
    decreases |actions|
  {
    if |actions| == 0 then roots else ApplyAll(H, actions[1..], Apply(H, actions[0], roots))
  }

  // ---------- which sectors change ----------

  /** The positions from i up to j. */
  function Span(i: nat, j: nat): (ps: set<nat>)
    ensures forall p :: p in ps <==> i <= p < j
    decreases j - i
  {
    if i >= j then {} else {i} + Span(i + 1, j)
  }

  function Touches(a: Action, n: nat): set<nat>
    requires ValidAction(a, n)
  {
    match a
    case Append(_) => {n}
    case Trim(count) => Span(n - count, n)
    case Swap(i, j) => {i, j}
  }

  function Touched(actions: seq<Action>, n: nat): set<nat>
    requires ValidActions(actions, n)
  {
    if |actions| == 0 then {} else Touches(actions[0], n) + Touched(actions[1..], SizeAfter(actions[0], n))
  }

  /** How many sectors there are when action k comes. */
  function SizeAt(actions: seq<Action>, n: nat, k: nat): nat
    requires ValidActions(actions, n) && k <= |actions|
    decreases k
  {
    if k == 0 then n else SizeAt(actions[1..], SizeAfter(actions[0], n), k - 1)
  }

  /** Action k is an Append at p, a Trim of p or a Swap of p. */
  predicate TouchedBy(actions: seq<Action>, n: nat, k: nat, p: nat)
    requires ValidActions(actions, n) && k < |actions|
  {
    var size := SizeAt(actions, n, k);
    match actions[k]
    case Append(_) => p == size
    case Trim(count) => size - count <= p < size
    case Swap(i, j) => p == i || p == j
  }

  /** The touched indices are those that some action touches. */
  lemma {:induction false} TouchedExactly(actions: seq<Action>, n: nat, p: nat)
    requires ValidActions(actions, n)
    ensures p in Touched(actions, n) <==> exists k :: 0 <= k < |actions| && TouchedBy(actions, n, k, p)
    decreases |actions|
  {
    if |actions| > 0 {
      var rest, size := actions[1..], SizeAfter(actions[0], n);
      TouchedExactly(rest, size, p);
      assert p in Touches(actions[0], n) <==> TouchedBy(actions, n, 0, p);
      if k :| 0 <= k < |rest| && TouchedBy(rest, size, k, p) {
        assert actions[k + 1] == rest[k] && TouchedBy(actions, n, k + 1, p);
      }
      if k :| 0 <= k < |actions| && TouchedBy(actions, n, k, p) {
        assert k > 0 ==> actions[k] == rest[k - 1] && TouchedBy(rest, size, k - 1, p);
      }
    }
  }

  /** The members of T below n, in order. */
  function Members(T: set<nat>, n: nat): (idx: seq<nat>)
    ensures forall i :: 0 <= i < |idx| ==> idx[i] < n && idx[i] in T
    ensures forall i, j :: 0 <= i < j < |idx| ==> idx[i] < idx[j]
  {
    if n == 0 then [] else if n - 1 in T then Members(T, n - 1) + [n - 1] else Members(T, n - 1)
  }

  /** Fewer members are a prefix, and an index is found at its rank. */
  lemma {:induction false} MembersPrefix(T: set<nat>, k: nat, n: nat)
    requires k <= n
    ensures |Members(T, k)| <= |Members(T, n)| && Members(T, k) == Members(T, n)[..|Members(T, k)|]
    ensures k < n && k in T ==> |Members(T, k)| < |Members(T, n)| && Members(T, n)[|Members(T, k)|] == k
    decreases n
  {
    if k < n {
      MembersPrefix(T, k, n - 1);
    }
  }

  lemma {:induction false} MembersRun(T: set<nat>, k: nat, n: nat)
    requires k <= n && forall p :: k <= p < n ==> p in T
    ensures |Members(T, n)| == |Members(T, k)| + n - k
    decreases n
  {
    if k < n {
      MembersRun(T, k, n - 1);
    }
  }

  /** Sectors that an action list does not touch keep their roots, and the ones it adds or
      removes are all touched. */
  lemma {:induction false} UntouchedKept(H: HashFn, actions: seq<Action>, roots: seq<Hash>, T: set<nat>)
    requires ValidActions(actions, |roots|) && Touched(actions, |roots|) <= T
    ensures var after := ApplyAll(H, actions, roots);
      && (forall p :: 0 <= p < |roots| && p !in T ==> p < |after| && after[p] == roots[p])
      && (forall p :: 0 <= p < |after| && p !in T ==> p < |roots|)
    decreases |actions|
  {
    if |actions| > 0 {
      UntouchedKept(H, actions[1..], Apply(H, actions[0], roots), T);
    }
  }

  // ---------- the tiles of a proof ----------

  /** How many tree hashes cover the gaps between the indices, from start to n. */
  function TreesNeeded(start: nat, idx: seq<nat>, n: nat): nat
    decreases |idx|
  {
    if |idx| == 0 then |Heights(start, n)|
    else |Heights(start, idx[0])| + TreesNeeded(idx[0] + 1, idx[1..], n)
  }

  /** What verifyMulti inserts: subtrees over the gaps, and a leaf at every index. */
  function MultiTiles(start: nat, idx: seq<nat>, n: nat, trees: seq<Hash>, leaves: seq<Hash>): seq<Tile>
    requires TreesNeeded(start, idx, n) <= |trees| && |idx| == |leaves|
    decreases |idx|
  {
    if |idx| == 0 then RangeTiles(start, n, trees)
    else
      RangeTiles(start, idx[0], trees) + [Tile(0, leaves[0])]
        + MultiTiles(idx[0] + 1, idx[1..], n, trees[|Heights(start, idx[0])|..], leaves[1..])
  }

  /** The indices are the members of T from start to n. */
  ghost predicate Gaps(T: set<nat>, start: nat, idx: seq<nat>, n: nat)
    decreases |idx|
  {
    if |idx| == 0 then start <= n && NoneIn(T, start, n)
    else start <= idx[0] < n && idx[0] in T && NoneIn(T, start, idx[0]) && Gaps(T, idx[0] + 1, idx[1..], n)
  }

  ghost predicate NoneIn(T: set<nat>, i: nat, j: nat) {
    forall p :: i <= p < j ==> p !in T
  }

  lemma {:induction false} GapsNext(T: set<nat>, start: nat, idx: seq<nat>, n: nat)
    requires Gaps(T, start, idx, n)
    ensures n in T ==> Gaps(T, start, idx + [n], n + 1)
    ensures n !in T ==> Gaps(T, start, idx, n + 1)
    decreases |idx|
  {
    if |idx| == 0 {
      if n in T {
        assert (idx + [n])[1..] == [];
      }
    } else {
      GapsNext(T, idx[0] + 1, idx[1..], n);
      assert (idx + [n])[1..] == idx[1..] + [n];
    }
  }

  lemma {:induction false} MembersGaps(T: set<nat>, n: nat)
    ensures Gaps(T, 0, Members(T, n), n)
  {
    if n > 0 {
      MembersGaps(T, n - 1);
      GapsNext(T, 0, Members(T, n - 1), n - 1);
    }
  }

  lemma {:induction false} MultiTilesSize(T: set<nat>, start: nat, idx: seq<nat>, n: nat, trees: seq<Hash>, leaves: seq<Hash>)
    requires TreesNeeded(start, idx, n) <= |trees| && |idx| == |leaves| && Gaps(T, start, idx, n)
    ensures Size(MultiTiles(start, idx, n, trees, leaves)) == n - start
    ensures AllAligned(MultiTiles(start, idx, n, trees, leaves), start)
    decreases |idx|
  {
    if |idx| == 0 {
      RangeTilesSize(start, n, trees);
    } else {
      var e := idx[0];
      var rest := trees[|Heights(start, e)|..];
      RangeTilesSize(start, e, trees);
      MultiTilesSize(T, e + 1, idx[1..], n, rest, leaves[1..]);
      LeafBetween(RangeTiles(start, e, trees), leaves[0], MultiTiles(e + 1, idx[1..], n, rest, leaves[1..]), start);
    }
  }

  lemma LeafBetween(a: seq<Tile>, leaf: Hash, b: seq<Tile>, at: nat)
    requires AllAligned(a, at) && AllAligned(b, at + Size(a) + 1)
    ensures AllAligned(a + [Tile(0, leaf)] + b, at)
    ensures Size(a + [Tile(0, leaf)] + b) == Size(a) + 1 + Size(b)
  {
    var t := [Tile(0, leaf)];
    assert t[1..] == [] && Size(t) == 1;
    AlignedIs(at + Size(a), 0);
    SizeConcat(a, t);
    SizeConcat(a + t, b);
    AlignedConcat(a, t, at);
    AlignedConcat(a + t, b, at);
  }

  // ---------- honest proofs ----------

  /** The tree hashes are the roots of the gaps' subtrees. */
  ghost predicate TreesHonest(H: HashFn, start: nat, idx: seq<nat>, n: nat, trees: seq<Hash>, roots: seq<Hash>)
    requires TreesNeeded(start, idx, n) <= |trees|
    decreases |idx|
  {
    if |idx| == 0 then HonestTiles(H, RangeTiles(start, n, trees), start, roots)
    else
      && HonestTiles(H, RangeTiles(start, idx[0], trees), start, roots)
      && TreesHonest(H, idx[0] + 1, idx[1..], n, trees[|Heights(start, idx[0])|..], roots)
  }

  /** The leaf hashes are the roots at the indices. */
  ghost predicate LeavesHonest(idx: seq<nat>, leaves: seq<Hash>, roots: seq<Hash>)
    requires |idx| == |leaves|
  {
    forall i :: 0 <= i < |idx| ==> idx[i] < |roots| && leaves[i] == roots[idx[i]]
  }

  lemma HonestLeafBetween(H: HashFn, a: seq<Tile>, leaf: Hash, b: seq<Tile>, at: nat, roots: seq<Hash>)
    ensures HonestTiles(H, a + [Tile(0, leaf)] + b, at, roots) <==>
      && HonestTiles(H, a, at, roots)
      && at + Size(a) < |roots| && leaf == roots[at + Size(a)]
      && HonestTiles(H, b, at + Size(a) + 1, roots)
  {
    var t := [Tile(0, leaf)];
    assert t[1..] == [] && Size(t) == 1;
    SizeConcat(a, t);
    HonestConcat(H, a + t, b, at, roots);
    HonestConcat(H, a, t, at, roots);
  }

  /** The tiles are honest exactly when the tree hashes and the leaf hashes are. */
  lemma {:induction false} MultiHonest(H: HashFn, T: set<nat>, start: nat, idx: seq<nat>, n: nat, trees: seq<Hash>,
    leaves: seq<Hash>, roots: seq<Hash>)
    requires TreesNeeded(start, idx, n) <= |trees| && |idx| == |leaves| && Gaps(T, start, idx, n)
    ensures HonestTiles(H, MultiTiles(start, idx, n, trees, leaves), start, roots)
       <==> TreesHonest(H, start, idx, n, trees, roots) && LeavesHonest(idx, leaves, roots)
    decreases |idx|
  {
    if |idx| > 0 {
      var e := idx[0];
      var rest := trees[|Heights(start, e)|..];
      MultiHonest(H, T, e + 1, idx[1..], n, rest, leaves[1..], roots);
      MultiHonestStep(H, start, idx, n, trees, leaves, roots, rest);
    }
  }

  lemma MultiHonestStep(H: HashFn, start: nat, idx: seq<nat>, n: nat, trees: seq<Hash>, leaves: seq<Hash>,
    roots: seq<Hash>, rest: seq<Hash>)
    requires |idx| == |leaves| > 0 && start <= idx[0] && TreesNeeded(start, idx, n) <= |trees| && rest == trees[|Heights(start, idx[0])|..]
    requires HonestTiles(H, MultiTiles(idx[0] + 1, idx[1..], n, rest, leaves[1..]), idx[0] + 1, roots)
        <==> TreesHonest(H, idx[0] + 1, idx[1..], n, rest, roots) && LeavesHonest(idx[1..], leaves[1..], roots)
    ensures HonestTiles(H, MultiTiles(start, idx, n, trees, leaves), start, roots)
       <==> TreesHonest(H, start, idx, n, trees, roots) && LeavesHonest(idx, leaves, roots)
  {
    var e := idx[0];
    RangeTilesSize(start, e, trees);
    HonestLeafBetween(H, RangeTiles(start, e, trees), leaves[0],
                      MultiTiles(e + 1, idx[1..], n, rest, leaves[1..]), start, roots);
    LeavesCons(idx, leaves, roots);
  }

  lemma LeavesCons(idx: seq<nat>, leaves: seq<Hash>, roots: seq<Hash>)
    requires |idx| == |leaves| > 0
    ensures LeavesHonest(idx, leaves, roots) <==>
      (idx[0] < |roots| && leaves[0] == roots[idx[0]]) && LeavesHonest(idx[1..], leaves[1..], roots)
  {
    if LeavesHonest(idx[1..], leaves[1..], roots) && idx[0] < |roots| && leaves[0] == roots[idx[0]] {
      forall i | 0 <= i < |idx| ensures idx[i] < |roots| && leaves[i] == roots[idx[i]] {
        if i > 0 {
          assert idx[i] == idx[1..][i - 1] && leaves[i] == leaves[1..][i - 1];
        }
      }
    }
  }

  // ---------- the same tree hashes before and after ----------

  /** Two root lists agree on [i, j). */
  ghost predicate Agree(a: seq<Hash>, b: seq<Hash>, i: nat, j: nat) {
    j <= |a| && j <= |b| && forall p :: i <= p < j ==> a[p] == b[p]
  }

  lemma {:induction false} HonestAgree(H: HashFn, ts: seq<Tile>, at: nat, to: nat, a: seq<Hash>, b: seq<Hash>)
    requires HonestTiles(H, ts, at, a) && at + Size(ts) <= to && Agree(a, b, at, to)
    ensures HonestTiles(H, ts, at, b)
    decreases |ts|
  {
    if |ts| > 0 {
      var next := at + Pow2(ts[0].height);
      assert a[at..next] == b[at..next];
      HonestAgree(H, ts[1..], next, to, a, b);
    }
  }

  /** Tree hashes depend only on the untouched roots. */
  lemma {:induction false} TreesAgree(H: HashFn, T: set<nat>, start: nat, idx: seq<nat>, n: nat, trees: seq<Hash>,
    a: seq<Hash>, b: seq<Hash>)
    requires TreesNeeded(start, idx, n) <= |trees| && Gaps(T, start, idx, n) && n <= |a| && n <= |b|
    requires forall p :: start <= p < n && p !in T ==> a[p] == b[p]
    requires TreesHonest(H, start, idx, n, trees, a)
    ensures TreesHonest(H, start, idx, n, trees, b)
    decreases |idx|
  {
    var e := if |idx| == 0 then n else idx[0];
    RangeTilesSize(start, e, trees);
    HonestAgree(H, RangeTiles(start, e, trees), start, e, a, b);
    if |idx| > 0 {
      TreesAgree(H, T, e + 1, idx[1..], n, trees[|Heights(start, e)|..], a, b);
    }
  }

  /** A touched sector more at the end takes no further tree hash. */
  lemma {:induction false} TreesNext(H: HashFn, T: set<nat>, start: nat, idx: seq<nat>, n: nat, trees: seq<Hash>, roots: seq<Hash>)
    requires Gaps(T, start, idx, n)
    ensures TreesNeeded(start, idx + [n], n + 1) == TreesNeeded(start, idx, n)
    ensures TreesNeeded(start, idx, n) <= |trees| ==>
      (TreesHonest(H, start, idx + [n], n + 1, trees, roots) <==> TreesHonest(H, start, idx, n, trees, roots))
    decreases |idx|
  {
    if |idx| == 0 {
      assert (idx + [n])[1..] == [] && Heights(n + 1, n + 1) == [];
    } else {
      var c := |Heights(start, idx[0])|;
      assert (idx + [n])[1..] == idx[1..] + [n];
      TreesNext(H, T, idx[0] + 1, idx[1..], n, if c <= |trees| then trees[c..] else [], roots);
    }
  }

  /** The proof's tree hashes are enough and right for a contract with the given roots.  Stated
      for every idx so that it is unfolded only where FitsAt is named. */
  ghost predicate Fits(H: HashFn, T: set<nat>, n: nat, trees: seq<Hash>, roots: seq<Hash>) {
    forall idx :: FitsAt(H, T, n, trees, roots, idx)
  }

  ghost predicate FitsAt(H: HashFn, T: set<nat>, n: nat, trees: seq<Hash>, roots: seq<Hash>, idx: seq<nat>) {
    idx == Members(T, n) ==> TreesNeeded(0, idx, n) <= |trees| && TreesHonest(H, 0, idx, n, trees, roots)
  }

  lemma FitsNext(H: HashFn, T: set<nat>, n: nat, trees: seq<Hash>, roots: seq<Hash>)
    requires n in T
    ensures Fits(H, T, n, trees, roots) <==> Fits(H, T, n + 1, trees, roots)
  {
    MembersGaps(T, n);
    TreesNext(H, T, 0, Members(T, n), n, trees, roots);
    assert FitsAt(H, T, n, trees, roots, Members(T, n)) <==> FitsAt(H, T, n + 1, trees, roots, Members(T, n + 1));
  }

  /** Trees of different sizes whose difference is all touched share their tree hashes. */
  lemma {:induction false} FitsGrow(H: HashFn, T: set<nat>, k: nat, n: nat, trees: seq<Hash>, roots: seq<Hash>)
    requires k <= n && forall p :: k <= p < n ==> p in T
    ensures Fits(H, T, k, trees, roots) <==> Fits(H, T, n, trees, roots)
    decreases n
  {
    if k < n {
      FitsGrow(H, T, k, n - 1, trees, roots);
      FitsNext(H, T, n - 1, trees, roots);
    }
  }

  lemma FitsAgree(H: HashFn, T: set<nat>, n: nat, trees: seq<Hash>, a: seq<Hash>, b: seq<Hash>)
    requires Fits(H, T, n, trees, a) && n <= |a| && n <= |b|
    requires forall p :: 0 <= p < n && p !in T ==> a[p] == b[p]
    ensures Fits(H, T, n, trees, b)
  {
    MembersGaps(T, n);
    assert FitsAt(H, T, n, trees, a, Members(T, n));
    TreesAgree(H, T, 0, Members(T, n), n, trees, a, b);
    assert FitsAt(H, T, n, trees, b, Members(T, n));
  }

  /** The tree hashes that fit the old roots fit the new ones. */
  lemma FitsAfter(H: HashFn, actions: seq<Action>, roots: seq<Hash>, T: set<nat>, trees: seq<Hash>)
    requires ValidActions(actions, |roots|) && T == Touched(actions, |roots|) && Fits(H, T, |roots|, trees, roots)
    ensures var after := ApplyAll(H, actions, roots); Fits(H, T, |after|, trees, after)
  {
    var after := ApplyAll(H, actions, roots);
    UntouchedKept(H, actions, roots, T);
    var low := if |roots| <= |after| then |roots| else |after|;
    FitsGrow(H, T, low, |roots|, trees, roots);
    FitsGrow(H, T, low, |after|, trees, after);
    FitsAgree(H, T, low, trees, roots, after);
  }

  // ---------- leaves ----------

  /** The roots at the indices. */
  function Pick(roots: seq<Hash>, idx: seq<nat>): (leaves: seq<Hash>)
    requires forall i :: 0 <= i < |idx| ==> idx[i] < |roots|
    ensures |leaves| == |idx|
  {
    seq(|idx|, i requires 0 <= i < |idx| => roots[idx[i]])
  }

  /** Some roots that have the given leaves at the members of T. */
  ghost function Spread(H: HashFn, leaves: seq<Hash>, T: set<nat>, n: nat): (roots: seq<Hash>)
    requires |leaves| == |Members(T, n)|
    ensures |roots| == n && Pick(roots, Members(T, n)) == leaves
  {
    if n == 0 then []
    else if n - 1 in T then
      var roots := Spread(H, leaves[..|leaves| - 1], T, n - 1) + [leaves[|leaves| - 1]];
      SpreadSnoc(Spread(H, leaves[..|leaves| - 1], T, n - 1), leaves, Members(T, n - 1), n - 1);
      roots
    else
      var roots := Spread(H, leaves, T, n - 1);
      assert Pick(roots + [H.zero], Members(T, n)) == Pick(roots, Members(T, n - 1));
      roots + [H.zero]
  }

  lemma SpreadSnoc(roots: seq<Hash>, leaves: seq<Hash>, idx: seq<nat>, n: nat)
    requires |leaves| == |idx| + 1 && |roots| == n && forall i :: 0 <= i < |idx| ==> idx[i] < n
    requires Pick(roots, idx) == leaves[..|leaves| - 1]
    ensures Pick(roots + [leaves[|leaves| - 1]], idx + [n]) == leaves
  {
    var all := Pick(roots + [leaves[|leaves| - 1]], idx + [n]);
    forall i | 0 <= i < |idx| ensures all[i] == leaves[i] {
      assert all[i] == Pick(roots, idx)[i];
    }
  }

  lemma PickAppend(T: set<nat>, roots: seq<Hash>, root: Hash)
    requires |roots| in T
    ensures Pick(roots + [root], Members(T, |roots| + 1)) == Pick(roots, Members(T, |roots|)) + [root]
  {
    assert Members(T, |roots| + 1) == Members(T, |roots|) + [|roots|];
  }

  lemma PickTrim(T: set<nat>, roots: seq<Hash>, count: nat)
    requires count <= |roots| && forall p :: |roots| - count <= p < |roots| ==> p in T
    ensures var leaves, n := Pick(roots, Members(T, |roots|)), |roots| - count;
      && |Members(T, n)| == |leaves| - count >= 0
      && Members(T, n) == Members(T, |roots|)[..|leaves| - count]
      && Pick(roots[..n], Members(T, n)) == leaves[..|leaves| - count]
  {
    MembersPrefix(T, |roots| - count, |roots|);
    MembersRun(T, |roots| - count, |roots|);
  }

  lemma PickSwap(T: set<nat>, roots: seq<Hash>, i: nat, j: nat)
    requires i < |roots| && j < |roots| && i in T && j in T
    ensures var idx, p, q := Members(T, |roots|), |Members(T, i)|, |Members(T, j)|;
      && p < |idx| && q < |idx|
      && Pick(roots[i := roots[j]][j := roots[i]], idx)
           == Pick(roots, idx)[p := Pick(roots, idx)[q]][q := Pick(roots, idx)[p]]
  {
    MembersPrefix(T, i, |roots|);
    MembersPrefix(T, j, |roots|);
  }

  /** The leaf hashes after the actions: those of any roots that have the given ones. */
  ghost function NewLeaves(H: HashFn, actions: seq<Action>, n: nat, T: set<nat>, leaves: seq<Hash>): (new_: seq<Hash>)
    requires ValidActions(actions, n) && |leaves| == |Members(T, n)|
    ensures |new_| == |Members(T, FinalSize(actions, n))|
  {
    Pick(ApplyAll(H, actions, Spread(H, leaves, T, n)), Members(T, FinalSize(actions, n)))
  }

  // ---------- verdicts ----------

  /** Panic: the verifier indexes past the tree hashes, or past the entries of its stack. */
  datatype Verdict = Accept | Reject | Panic

  /** verifyMulti */
  ghost function MultiVerdict(H: HashFn, idx: seq<nat>, n: nat, trees: seq<Hash>, leaves: seq<Hash>, root: Hash): Verdict
    requires |idx| == |leaves|
  {
    if n >= LIMIT || TreesNeeded(0, idx, n) > |trees| then Panic
    else if Whole(H, Place(MultiTiles(0, idx, n, trees, leaves), 0), 0, n) == root then Accept
    else Reject
  }

  /** VerifyDiffProof */
  ghost function DiffVerdict(H: HashFn, actions: seq<Action>, n: nat, trees: seq<Hash>, leaves: seq<Hash>,
    oldRoot: Hash, newRoot: Hash): Verdict
    requires ValidActions(actions, n)
  {
    var T := Touched(actions, n);
    if |Members(T, n)| != |leaves| then Reject
    else if MultiVerdict(H, Members(T, n), n, trees, leaves, oldRoot) != Accept then
      MultiVerdict(H, Members(T, n), n, trees, leaves, oldRoot)
    else
      var n' := FinalSize(actions, n);
      MultiVerdict(H, Members(T, n'), n', trees, NewLeaves(H, actions, n, T, leaves), newRoot)
  }

  /** Right tree and leaf hashes give exactly the right root, for a tree that the stack can hold. */
  lemma MultiComplete(H: HashFn, T: set<nat>, roots: seq<Hash>, trees: seq<Hash>, root: Hash)
    requires Fits(H, T, |roots|, trees, roots)
    ensures var idx := Members(T, |roots|);
      MultiVerdict(H, idx, |roots|, trees, Pick(roots, idx), root)
        == if |roots| >= LIMIT then Panic else if root == Root(H, roots) then Accept else Reject
  {
    var idx, n := Members(T, |roots|), |roots|;
    var leaves := Pick(roots, idx);
    assert FitsAt(H, T, n, trees, roots, idx);
    MembersGaps(T, n);
    MultiTilesSize(T, 0, idx, n, trees, leaves);
    MultiHonest(H, T, 0, idx, n, trees, leaves, roots);
    HonestRoot(H, MultiTiles(0, idx, n, trees, leaves), roots);
  }

  /** With an injective hash, only right tree and leaf hashes give the root. */
  lemma MultiSound(H: HashFn, T: set<nat>, roots: seq<Hash>, trees: seq<Hash>, leaves: seq<Hash>)
    requires Injective(H) && |leaves| == |Members(T, |roots|)|
    requires MultiVerdict(H, Members(T, |roots|), |roots|, trees, leaves, Root(H, roots)) == Accept
    ensures Fits(H, T, |roots|, trees, roots) && leaves == Pick(roots, Members(T, |roots|))
  {
    var idx, n := Members(T, |roots|), |roots|;
    MembersGaps(T, n);
    MultiTilesSize(T, 0, idx, n, trees, leaves);
    MultiHonest(H, T, 0, idx, n, trees, leaves, roots);
    SoundRoot(H, MultiTiles(0, idx, n, trees, leaves), roots);
    assert FitsAt(H, T, n, trees, roots, idx);
  }

  // ---------- actions on leaves ----------

  /** One action on the leaves, as modifyLeaves takes it. */
  ghost predicate LeafStep(H: HashFn, a: Action, T: set<nat>, n: nat, leaves: seq<Hash>, new_: seq<Hash>)
    requires ValidAction(a, n)
  {
    match a
    case Append(sector) => new_ == leaves + [Root(H, LeafHashes(H, sector))]
    case Trim(count) => count <= |leaves| && new_ == leaves[..|leaves| - count]
    case Swap(i, j) =>
      var p, q := |Members(T, i)|, |Members(T, j)|;
      p < |leaves| && q < |leaves| && new_ == leaves[p := leaves[q]][q := leaves[p]]
  }

  /** An action on the touched roots is the same action on all of them. */
  lemma LeafStepPicks(H: HashFn, a: Action, T: set<nat>, roots: seq<Hash>, new_: seq<Hash>)
    requires ValidAction(a, |roots|) && Touches(a, |roots|) <= T
    requires LeafStep(H, a, T, |roots|, Pick(roots, Members(T, |roots|)), new_)
    ensures new_ == Pick(Apply(H, a, roots), Members(T, SizeAfter(a, |roots|)))
  {
    match a
    case Append(sector) => PickAppend(T, roots, Root(H, LeafHashes(H, sector)));
    case Trim(count) => PickTrim(T, roots, count);
    case Swap(i, j) => PickSwap(T, roots, i, j);
  }

  /** The new leaves do not depend on the roots that are not touched. */
  lemma {:induction false} SamePicks(H: HashFn, actions: seq<Action>, T: set<nat>, a: seq<Hash>, b: seq<Hash>)
    requires |a| == |b| && ValidActions(actions, |a|) && Touched(actions, |a|) <= T
    requires Pick(a, Members(T, |a|)) == Pick(b, Members(T, |a|))
    ensures var n' := FinalSize(actions, |a|);
      Pick(ApplyAll(H, actions, a), Members(T, n')) == Pick(ApplyAll(H, actions, b), Members(T, n'))
    decreases |actions|
  {
    if |actions| > 0 {
      var act := actions[0];
      var c := Pick(a, Members(T, |a|));
      OneLeafStep(H, act, T, a);
      LeafStepPicks(H, act, T, a, Pick(Apply(H, act, a), Members(T, SizeAfter(act, |a|))));
      LeafStepPicks(H, act, T, b, Pick(Apply(H, act, a), Members(T, SizeAfter(act, |a|))));
      SamePicks(H, actions[1..], T, Apply(H, act, a), Apply(H, act, b));
    }
  }

  lemma OneLeafStep(H: HashFn, a: Action, T: set<nat>, roots: seq<Hash>)
    requires ValidAction(a, |roots|) && Touches(a, |roots|) <= T
    ensures LeafStep(H, a, T, |roots|, Pick(roots, Members(T, |roots|)), Pick(Apply(H, a, roots), Members(T, SizeAfter(a, |roots|))))
  {
    match a
    case Append(sector) => PickAppend(T, roots, Root(H, LeafHashes(H, sector)));
    case Trim(count) => PickTrim(T, roots, count);
    case Swap(i, j) => PickSwap(T, roots, i, j);
  }

  lemma NewLeavesPick(H: HashFn, actions: seq<Action>, roots: seq<Hash>)
    requires ValidActions(actions, |roots|)
    ensures var T := Touched(actions, |roots|);
      NewLeaves(H, actions, |roots|, T, Pick(roots, Members(T, |roots|)))
        == Pick(ApplyAll(H, actions, roots), Members(T, FinalSize(actions, |roots|)))
  {
    var T := Touched(actions, |roots|);
    SamePicks(H, actions, T, roots, Spread(H, Pick(roots, Members(T, |roots|)), T, |roots|));
  }

  // ---------- the main results ----------

  /** BuildDiffProof's tree hashes. */
  ghost function BuiltTrees(all: SubtreeRoots, start: nat, idx: seq<nat>, n: nat): (trees: seq<Hash>)
    ensures |trees| == TreesNeeded(start, idx, n)
    decreases |idx|
  {
    if |idx| == 0 then Streamed(all, start, n)
    else Streamed(all, start, idx[0]) + BuiltTrees(all, idx[0] + 1, idx[1..], n)
  }

  /** The subtree roots of a list of sector roots. */
  ghost function LeafRoots(H: HashFn, roots: seq<Hash>): SubtreeRoots {
    (i: nat, j: nat) => if i <= j <= |roots| then Root(H, roots[i..j]) else H.zero
  }

  lemma PrefixCons(x: Hash, rest: seq<Hash>, hashes: seq<Hash>)
    requires [x] + rest <= hashes
    ensures |hashes| > 0 && hashes[0] == x && rest <= hashes[1..]
  {
    assert ([x] + rest)[0] == x && ([x] + rest)[1..] == rest;
  }

  /** all(i, j) is the root of the sector roots from i to j. */
  ghost predicate RootsOf(H: HashFn, roots: seq<Hash>, all: SubtreeRoots) {
    forall i: nat, j: nat :: PartRoot(H, roots, all, i, j)
  }

  ghost predicate PartRoot(H: HashFn, roots: seq<Hash>, all: SubtreeRoots, i: nat, j: nat) {
    i <= j <= |roots| ==> all(i, j) == Root(H, roots[i..j])
  }

  lemma LeafRootsAre(H: HashFn, roots: seq<Hash>)
    ensures RootsOf(H, roots, LeafRoots(H, roots))
  {
  }

  lemma LeafRootHonest(H: HashFn, roots: seq<Hash>, all: SubtreeRoots, i: nat, h: nat, next: nat, hash: Hash)
    requires RootsOf(H, roots, all) && next == i + Pow2(h) <= |roots| && hash == all(i, next)
    ensures HonestTile(H, Tile(h, hash), i, roots)
  {
    assert PartRoot(H, roots, all, i, next);
  }

  lemma StreamedHead(H: HashFn, roots: seq<Hash>, all: SubtreeRoots, i: nat, j: nat, hashes: seq<Hash>)
    requires i < j <= |roots| && RootsOf(H, roots, all) && Streamed(all, i, j) <= hashes
    ensures var h := NextHeight(i, j);
      && |hashes| > 0 && HonestTile(H, Tile(h, hashes[0]), i, roots)
      && Streamed(all, i + Pow2(h), j) <= hashes[1..]
  {
    var h := NextHeight(i, j);
    var next := i + Pow2(h);
    StreamedCons(all, i, j, next);
    PrefixCons(all(i, next), Streamed(all, next, j), hashes);
    LeafRootHonest(H, roots, all, i, h, next, hashes[0]);
  }

  lemma HonestCons(H: HashFn, t: Tile, ts: seq<Tile>, at: nat, roots: seq<Hash>)
    requires HonestTile(H, t, at, roots) && HonestTiles(H, ts, at + Pow2(t.height), roots)
    ensures HonestTiles(H, [t] + ts, at, roots)
  {
    assert ([t] + ts)[1..] == ts;
  }

  /** A range whose first subtree and rest are honest is honest. */
  lemma HonestRangeCons(H: HashFn, roots: seq<Hash>, i: nat, j: nat, hashes: seq<Hash>, next: nat)
    requires i < j && next == i + Pow2(NextHeight(i, j)) && |Heights(i, j)| <= |hashes| && |Heights(next, j)| <= |hashes[1..]|
    requires HonestTile(H, Tile(NextHeight(i, j), hashes[0]), i, roots)
    requires HonestTiles(H, RangeTiles(next, j, hashes[1..]), next, roots)
    ensures HonestTiles(H, RangeTiles(i, j, hashes), i, roots)
  {
    RangeTilesCons(i, j, hashes);
    HonestCons(H, Tile(NextHeight(i, j), hashes[0]), RangeTiles(next, j, hashes[1..]), i, roots);
  }

  lemma {:induction false} StreamedHonest(H: HashFn, roots: seq<Hash>, all: SubtreeRoots, i: nat, j: nat, hashes: seq<Hash>)
    requires j <= |roots| && RootsOf(H, roots, all) && Streamed(all, i, j) <= hashes
    ensures HonestTiles(H, RangeTiles(i, j, hashes), i, roots)
    decreases j - i
  {
    if i < j {
      var next := i + Pow2(NextHeight(i, j));
      StreamedHead(H, roots, all, i, j, hashes);
      StreamedHonest(H, roots, all, next, j, hashes[1..]);
      HonestRangeCons(H, roots, i, j, hashes, next);
    }
  }

  lemma ConcatParts(a: seq<Hash>, b: seq<Hash>)
    ensures a <= a + b && (a + b)[|a|..] == b
  {
  }

  lemma {:induction false} BuiltHonest(H: HashFn, T: set<nat>, start: nat, idx: seq<nat>, roots: seq<Hash>, all: SubtreeRoots)
    requires Gaps(T, start, idx, |roots|) && RootsOf(H, roots, all)
    ensures TreesHonest(H, start, idx, |roots|, BuiltTrees(all, start, idx, |roots|), roots)
    decreases |idx|
  {
    if |idx| == 0 {
      StreamedHonest(H, roots, all, start, |roots|, Streamed(all, start, |roots|));
    } else {
      BuiltHonest(H, T, idx[0] + 1, idx[1..], roots, all);
      BuiltHonestStep(H, start, idx, roots, all, Streamed(all, start, idx[0]), BuiltTrees(all, idx[0] + 1, idx[1..], |roots|));
    }
  }

  lemma BuiltHonestStep(H: HashFn, start: nat, idx: seq<nat>, roots: seq<Hash>, all: SubtreeRoots, first: seq<Hash>, rest: seq<Hash>)
    requires |idx| > 0 && idx[0] <= |roots| && RootsOf(H, roots, all) && first == Streamed(all, start, idx[0])
    requires |rest| == TreesNeeded(idx[0] + 1, idx[1..], |roots|) && TreesHonest(H, idx[0] + 1, idx[1..], |roots|, rest, roots)
    ensures TreesHonest(H, start, idx, |roots|, first + rest, roots)
  {
    ConcatParts(first, rest);
    StreamedHonest(H, roots, all, start, idx[0], first + rest);
  }

  /** Completeness: VerifyDiffProof accepts what BuildDiffProof builds, for exactly the root
      of the contract after the actions; with 2^17 sectors or more, before or after, it panics. */
  lemma DiffComplete(H: HashFn, actions: seq<Action>, roots: seq<Hash>, newRoot: Hash)
    requires ValidActions(actions, |roots|)
    ensures var idx := Members(Touched(actions, |roots|), |roots|);
      DiffVerdict(H, actions, |roots|, BuiltTrees(LeafRoots(H, roots), 0, idx, |roots|), Pick(roots, idx), Root(H, roots), newRoot)
        == if |roots| >= LIMIT || FinalSize(actions, |roots|) >= LIMIT then Panic
           else if newRoot == Root(H, ApplyAll(H, actions, roots)) then Accept else Reject
  {
    var T := Touched(actions, |roots|);
    var idx := Members(T, |roots|);
    var trees := BuiltTrees(LeafRoots(H, roots), 0, idx, |roots|);
    MembersGaps(T, |roots|);
    LeafRootsAre(H, roots);
    BuiltHonest(H, T, 0, idx, roots, LeafRoots(H, roots));
    assert FitsAt(H, T, |roots|, trees, roots, idx);
    DiffFits(H, actions, roots, trees, newRoot);
  }

  /** Right tree and leaf hashes are accepted for exactly the root after the actions. */
  lemma DiffFits(H: HashFn, actions: seq<Action>, roots: seq<Hash>, trees: seq<Hash>, newRoot: Hash)
    requires ValidActions(actions, |roots|) && Fits(H, Touched(actions, |roots|), |roots|, trees, roots)
    ensures var idx := Members(Touched(actions, |roots|), |roots|);
      DiffVerdict(H, actions, |roots|, trees, Pick(roots, idx), Root(H, roots), newRoot)
        == if |roots| >= LIMIT || FinalSize(actions, |roots|) >= LIMIT then Panic
           else if newRoot == Root(H, ApplyAll(H, actions, roots)) then Accept else Reject
  {
    var T := Touched(actions, |roots|);
    MultiComplete(H, T, roots, trees, Root(H, roots));
    NewLeavesPick(H, actions, roots);
    FitsAfter(H, actions, roots, T, trees);
    MultiComplete(H, T, ApplyAll(H, actions, roots), trees, newRoot);
  }

  /** Soundness, exactly: with an injective hash and the true old root, a proof is accepted if
      and only if its leaf hashes and the tree hashes it needs are the contract's own, the
      new root is the root after the actions, and the stack can hold the tree before and after. */
  lemma DiffSound(H: HashFn, actions: seq<Action>, roots: seq<Hash>, trees: seq<Hash>, leaves: seq<Hash>, newRoot: Hash)
    requires Injective(H) && ValidActions(actions, |roots|)
    ensures DiffVerdict(H, actions, |roots|, trees, leaves, Root(H, roots), newRoot) == Accept <==>
      && leaves == Pick(roots, Members(Touched(actions, |roots|), |roots|))
      && Fits(H, Touched(actions, |roots|), |roots|, trees, roots)
      && newRoot == Root(H, ApplyAll(H, actions, roots))
      && |roots| < LIMIT && FinalSize(actions, |roots|) < LIMIT
  {
    var T := Touched(actions, |roots|);
    var idx := Members(T, |roots|);
    if |idx| == |leaves| && MultiVerdict(H, idx, |roots|, trees, leaves, Root(H, roots)) == Accept {
      MultiSound(H, T, roots, trees, leaves);
    }
    if leaves == Pick(roots, idx) && Fits(H, T, |roots|, trees, roots) {
      DiffFits(H, actions, roots, trees, newRoot);
    }
  }

  // ---------- the operations ----------

  /** sectorsChanged: a set of touched indices, then the old ones among them in order. */
  method SectorsChanged(actions: seq<Action>, n: nat) returns (idx: seq<nat>, changed: set<nat>)
    requires ValidActions(actions, n)
    ensures changed == Touched(actions, n) && idx == Members(changed, n)
  {
    var size := n;
    changed := {};
    for k := 0 to |actions|
      invariant ValidActions(actions[k..], size)
      invariant changed + Touched(actions[k..], size) == Touched(actions, n)
    {
      var a := actions[k];
      assert actions[k..][1..] == actions[k + 1..];
      match a
      case Append(_) =>
        changed, size := changed + {size}, size + 1;
      case Trim(count) =>
        ghost var before, was := size, changed;
        for i := 0 to count
          invariant size == before - i && changed == was + Span(size, before)
        {
          size := size - 1;
          changed := changed + {size};
        }
      case Swap(i, j) =>
        changed := changed + {i, j};
    }
    idx := Members(changed, n);
  }

  method SubtreeOf(H: HashFn, roots: seq<Hash>, i: nat, j: nat) returns (root: Hash)
    requires i <= j <= |roots|
    ensures root == LeafRoots(H, roots)(i, j)
  {
    root := MetaRoot(H, roots[i..j]);
  }

  /** The roots done and those still to come are all of them. */
  ghost predicate RangePending(all: SubtreeRoots, done: seq<Hash>, i: nat, j: nat, total: seq<Hash>) {
    forall v: bool :: RangePendingIf(v, all, done, i, j, total)
  }

  ghost predicate RangePendingIf(v: bool, all: SubtreeRoots, done: seq<Hash>, i: nat, j: nat, total: seq<Hash>) {
    v ==> done + Streamed(all, i, j) == total
  }

  lemma RangePendingStep(all: SubtreeRoots, done: seq<Hash>, i: nat, j: nat, total: seq<Hash>)
    requires i < j && RangePending(all, done, i, j, total)
    ensures var next := i + Pow2(NextHeight(i, j)); RangePending(all, done + [all(i, next)], next, j, total)
  {
    assert RangePendingIf(true, all, done, i, j, total);
    StreamedCons(all, i, j, i + Pow2(NextHeight(i, j)));
  }

  lemma RangePendingLast(all: SubtreeRoots, done: seq<Hash>, i: nat, j: nat, total: seq<Hash>)
    requires i >= j && RangePending(all, done, i, j, total)
    ensures done == total
  {
    assert RangePendingIf(true, all, done, i, j, total);
  }

  /** buildRange: one gap's tree hashes. */
  method BuildRange(H: HashFn, roots: seq<Hash>, from: nat, to: nat, trees: seq<Hash>, ghost all: SubtreeRoots) returns (more: seq<Hash>)
    requires from <= to <= |roots| && all == LeafRoots(H, roots)
    ensures more == trees + Streamed(all, from, to)
  {
    var i: nat := from;
    more := trees;
    ghost var total := trees + Streamed(all, from, to);
    while i < to
      invariant from <= i <= to
      invariant RangePending(all, more, i, to, total)
    {
      RangePendingStep(all, more, i, to, total);
      var next := i + Pow2(NextHeight(i, to));
      var root := SubtreeOf(H, roots, i, next);
      more, i := more + [root], next;
    }
    RangePendingLast(all, more, i, to, total);
  }

  /** The tree hashes done and those still to come are all of them.  Stated for every v so that it
      is unfolded only where PendingIf is named. */
  ghost predicate Pending(all: SubtreeRoots, done: seq<Hash>, start: nat, idx: seq<nat>, n: nat, total: seq<Hash>) {
    forall v: bool :: PendingIf(v, all, done, start, idx, n, total)
  }

  ghost predicate PendingIf(v: bool, all: SubtreeRoots, done: seq<Hash>, start: nat, idx: seq<nat>, n: nat, total: seq<Hash>) {
    v ==> done + BuiltTrees(all, start, idx, n) == total
  }

  lemma PendingStart(all: SubtreeRoots, idx: seq<nat>, n: nat)
    ensures Pending(all, [], 0, idx, n, BuiltTrees(all, 0, idx, n))
  {
  }

  lemma PendingStep(all: SubtreeRoots, done: seq<Hash>, start: nat, idx: seq<nat>, n: nat, total: seq<Hash>)
    requires |idx| > 0 && Pending(all, done, start, idx, n, total)
    ensures Pending(all, done + Streamed(all, start, idx[0]), idx[0] + 1, idx[1..], n, total)
  {
    assert PendingIf(true, all, done, start, idx, n, total);
  }

  lemma PendingLast(all: SubtreeRoots, done: seq<Hash>, start: nat, n: nat, total: seq<Hash>)
    requires Pending(all, done, start, [], n, total)
    ensures done + Streamed(all, start, n) == total
  {
    assert PendingIf(true, all, done, start, [], n, total);
  }

  /** Gaps, unfolded only where GapsIf is named. */
  ghost predicate Gapped(T: set<nat>, start: nat, idx: seq<nat>, n: nat) {
    forall v: bool :: GapsIf(v, T, start, idx, n)
  }

  ghost predicate GapsIf(v: bool, T: set<nat>, start: nat, idx: seq<nat>, n: nat) {
    v ==> Gaps(T, start, idx, n)
  }

  lemma GappedHead(T: set<nat>, start: nat, idx: seq<nat>, n: nat)
    requires Gapped(T, start, idx, n)
    ensures |idx| > 0 ==> start <= idx[0] < n && Gapped(T, idx[0] + 1, idx[1..], n)
    ensures |idx| == 0 ==> start <= n
  {
    assert GapsIf(true, T, start, idx, n);
  }

  /** The loop over the gaps. */
  method BuildTrees(H: HashFn, roots: seq<Hash>, idx: seq<nat>, ghost T: set<nat>, ghost all: SubtreeRoots) returns (trees: seq<Hash>)
    requires Gapped(T, 0, idx, |roots|) && all == LeafRoots(H, roots)
    ensures trees == BuiltTrees(all, 0, idx, |roots|)
  {
    var start: nat := 0;
    trees := [];
    ghost var left, total := idx, BuiltTrees(all, 0, idx, |roots|);
    PendingStart(all, idx, |roots|);
    for k := 0 to |idx|
      invariant left == idx[k..] && Gapped(T, start, left, |roots|) && Pending(all, trees, start, left, |roots|, total)
    {
      GappedHead(T, start, left, |roots|);
      PendingStep(all, trees, start, left, |roots|, total);
      trees := BuildRange(H, roots, start, idx[k], trees, all);
      start, left := idx[k] + 1, left[1..];
    }
    GappedHead(T, start, left, |roots|);
    PendingLast(all, trees, start, |roots|, total);
    trees := BuildRange(H, roots, start, |roots|, trees, all);
  }

  /** BuildDiffProof */
  method BuildDiffProof(H: HashFn, actions: seq<Action>, roots: seq<Hash>) returns (trees: seq<Hash>, leaves: seq<Hash>)
    requires ValidActions(actions, |roots|)
    ensures var idx := Members(Touched(actions, |roots|), |roots|);
      trees == BuiltTrees(LeafRoots(H, roots), 0, idx, |roots|) && leaves == Pick(roots, idx)
  {
    var idx, changed := SectorsChanged(actions, |roots|);
    leaves := Pick(roots, idx);
    MembersGaps(changed, |roots|);
    trees := BuildTrees(H, roots, idx, changed, LeafRoots(H, roots));
  }

  /** One gap and one leaf inserted, the rest to come. */
  lemma MultiStep(fed: seq<Tile>, start: nat, idx: seq<nat>, n: nat, trees: seq<Hash>, leaves: seq<Hash>)
    requires |idx| == |leaves| > 0
    ensures TreesNeeded(start, idx, n) <= |trees| <==>
      && |Heights(start, idx[0])| <= |trees|
      && TreesNeeded(idx[0] + 1, idx[1..], n) <= |trees[|Heights(start, idx[0])|..]|
    ensures TreesNeeded(start, idx, n) <= |trees| ==>
      fed + MultiTiles(start, idx, n, trees, leaves)
        == ((fed + RangeTiles(start, idx[0], trees)) + [Tile(0, leaves[0])])
             + MultiTiles(idx[0] + 1, idx[1..], n, trees[|Heights(start, idx[0])|..], leaves[1..])
  {
  }

  /** The tiles fed and those still to come are all of them, and the tree hashes left suffice exactly
      when enough.  Stated for every v so that it is unfolded only where FeedingIf is named. */
  ghost predicate Feeding(fed: seq<Tile>, start: nat, idx: seq<nat>, n: nat, rest: seq<Hash>, leaves: seq<Hash>,
    enough: bool, total: seq<Tile>) {
    forall v: bool :: FeedingIf(v, fed, start, idx, n, rest, leaves, enough, total)
  }

  ghost predicate FeedingIf(v: bool, fed: seq<Tile>, start: nat, idx: seq<nat>, n: nat, rest: seq<Hash>,
    leaves: seq<Hash>, enough: bool, total: seq<Tile>) {
    v ==>
      && |idx| == |leaves| && (TreesNeeded(start, idx, n) <= |rest| <==> enough)
      && (enough ==> fed + MultiTiles(start, idx, n, rest, leaves) == total)
  }

  lemma FeedingStart(idx: seq<nat>, n: nat, trees: seq<Hash>, leaves: seq<Hash>, enough: bool, total: seq<Tile>)
    requires |idx| == |leaves| && enough == (TreesNeeded(0, idx, n) <= |trees|)
    requires enough ==> total == MultiTiles(0, idx, n, trees, leaves)
    ensures Feeding([], 0, idx, n, trees, leaves, enough, total)
  {
    if enough {
      assert [] + total == total;
    }
  }

  lemma FeedingStep(fed: seq<Tile>, start: nat, idx: seq<nat>, n: nat, rest: seq<Hash>, leaves: seq<Hash>, enough: bool, total: seq<Tile>)
    requires |idx| == |leaves| > 0 && Feeding(fed, start, idx, n, rest, leaves, enough, total)
    ensures |Heights(start, idx[0])| > |rest| ==> !enough
    ensures |Heights(start, idx[0])| <= |rest| ==>
      Feeding((fed + RangeTiles(start, idx[0], rest)) + [Tile(0, leaves[0])], idx[0] + 1, idx[1..], n,
              rest[|Heights(start, idx[0])|..], leaves[1..], enough, total)
  {
    assert FeedingIf(true, fed, start, idx, n, rest, leaves, enough, total);
    MultiStep(fed, start, idx, n, rest, leaves);
  }

  lemma FeedingLast(fed: seq<Tile>, start: nat, n: nat, rest: seq<Hash>, enough: bool, total: seq<Tile>)
    requires Feeding(fed, start, [], n, rest, [], enough, total)
    ensures enough <==> |Heights(start, n)| <= |rest|
    ensures enough ==> fed + RangeTiles(start, n, rest) == total
  {
    assert FeedingIf(true, fed, start, [], n, rest, [], enough, total);
  }

  /** One round of verifyMulti: a gap, then a leaf. */
  method InsertGap(s: ProofStack, from: nat, to: nat, trees: seq<Hash>, leaf: Hash) returns (ok: bool, rest: seq<Hash>)
    requires s.Valid() && s.used == from <= to
    modifies s, s.stack
    ensures s.Valid() && s.stack == old(s.stack)
    ensures ok <==> to + 1 < LIMIT && |Heights(from, to)| <= |trees|
    ensures ok ==> s.fed == (old(s.fed) + RangeTiles(from, to, trees)) + [Tile(0, leaf)] && s.used == to + 1
    ensures ok ==> rest == trees[|Heights(from, to)|..]
  {
    ok, rest := InsertRange(s, from, to, trees);
    if ok {
      assert Pow2(0) == 1 && Shr(s.used, 0) == s.used;
      AlignedIs(s.used, 0);
      ok := s.InsertNode(leaf, 0);
    }
  }

  /** verifyMulti */
  method VerifyMulti(H: HashFn, idx: seq<nat>, n: nat, trees: seq<Hash>, leaves: seq<Hash>, root: Hash, ghost T: set<nat>)
    returns (v: Verdict)
    requires |idx| == |leaves| && Gapped(T, 0, idx, n)
    ensures v == MultiVerdict(H, idx, n, trees, leaves, root)
  {
    var s := new ProofStack(H);
    var start: nat, rest := 0, trees;
    ghost var enough := TreesNeeded(0, idx, n) <= |trees|;
    ghost var total := if enough then MultiTiles(0, idx, n, trees, leaves) else [];
    FeedingStart(idx, n, trees, leaves, enough, total);
    ghost var i, l := idx, leaves;
    for k := 0 to |idx|
      invariant s.Valid() && fresh(s) && fresh(s.stack) && s.H == H && s.used == start
      invariant i == idx[k..] && l == leaves[k..]
      invariant Gapped(T, start, i, n) && Feeding(s.fed, start, i, n, rest, l, enough, total)
    {
      FeedingStep(s.fed, start, i, n, rest, l, enough, total);
      GappedHead(T, start, i, n);
      var ok, more := InsertGap(s, start, idx[k], rest, leaves[k]);
      if !ok {
        return Panic;
      }
      start, rest := idx[k] + 1, more;
      i, l := i[1..], l[1..];
    }
    GappedHead(T, start, i, n);
    FeedingLast(s.fed, start, n, rest, enough, total);
    var ok, _ := InsertRange(s, start, n, rest);
    if !ok {
      return Panic;
    }
    var r := s.Root();
    return if r == root then Accept else Reject;
  }

  /** The roots of the sectors that the actions append, in order. */
  ghost function AppendRoots(H: HashFn, actions: seq<Action>): seq<Hash> {
    if |actions| == 0 then []
    else (if actions[0].Append? then [Root(H, LeafHashes(H, actions[0].sector))] else []) + AppendRoots(H, actions[1..])
  }

  /** Every appended sector has the size of one. */
  predicate WholeSectors(actions: seq<Action>) {
    forall i :: 0 <= i < |actions| && actions[i].Append? ==> |actions[i].sector| == SEGMENTS
  }

  /** PrecomputeAppendRoots; not ok is the panic on a sector of another size. */
  method PrecomputeAppendRoots(H: HashFn, actions: seq<Action>) returns (ok: bool, roots: seq<Hash>)
    ensures ok <==> WholeSectors(actions)
    ensures ok ==> roots == AppendRoots(H, actions)
  {
    roots := [];
    for k := 0 to |actions|
      invariant forall i :: 0 <= i < k && actions[i].Append? ==> |actions[i].sector| == SEGMENTS
      invariant roots + AppendRoots(H, actions[k..]) == AppendRoots(H, actions)
    {
      if actions[k].Append? && |actions[k].sector| != SEGMENTS {
        return false, [];
      }
      assert actions[k..][1..] == actions[k + 1..];
      if actions[k].Append? {
        var root := SectorRoot(H, actions[k].sector);
        roots := roots + [root];
      }
    }
    return true, roots;
  }

  /** One action of modifyLeaves.  An Append takes the next precomputed root when there is one. */
  method ModifyLeaf(H: HashFn, a: Action, n: nat, T: set<nat>, leaves: seq<Hash>, pre: seq<Hash>)
    returns (new_: seq<Hash>, rest: seq<Hash>)
    requires ValidAction(a, n) && Touches(a, n) <= T && |leaves| == |Members(T, n)|
    requires a.Append? && |pre| > 0 ==> pre[0] == Root(H, LeafHashes(H, a.sector))
    ensures LeafStep(H, a, T, n, leaves, new_)
    ensures rest == if a.Append? && |pre| > 0 then pre[1..] else pre
  {
    rest := pre;
    match a
    case Append(sector) =>
      var root;
      if |pre| > 0 {
        root, rest := pre[0], pre[1..];
      } else {
        root := SectorRoot(H, sector);
      }
      new_ := leaves + [root];
    case Trim(count) =>
      MembersPrefix(T, n - count, n);
      MembersRun(T, n - count, n);
      new_ := leaves[..|leaves| - count];
    case Swap(i, j) =>
      MembersPrefix(T, i, n);
      MembersPrefix(T, j, n);
      var p, q := |Members(T, i)|, |Members(T, j)|;
      new_ := leaves[p := leaves[q]][q := leaves[p]];
  }

  /** modifyLeaves.  The index map takes a touched sector to its rank among all of them. */
  method ModifyLeaves(H: HashFn, leaves: seq<Hash>, actions: seq<Action>, n: nat, T: set<nat>, appendRoots: seq<Hash>,
    ghost roots: seq<Hash>)
    returns (new_: seq<Hash>)
    requires ValidActions(actions, n) && T == Touched(actions, n)
    requires appendRoots == [] || appendRoots == AppendRoots(H, actions)
    requires |roots| == n && leaves == Pick(roots, Members(T, n))
    ensures new_ == Pick(ApplyAll(H, actions, roots), Members(T, FinalSize(actions, n)))
  {
    new_ := leaves;
    var size, pre := n, appendRoots;
    ghost var cur := roots;
    for k := 0 to |actions|
      invariant |cur| == size && ValidActions(actions[k..], size) && Touched(actions[k..], size) <= T
      invariant FinalSize(actions[k..], size) == FinalSize(actions, n)
      invariant ApplyAll(H, actions[k..], cur) == ApplyAll(H, actions, roots)
      invariant pre == [] || pre == AppendRoots(H, actions[k..])
      invariant new_ == Pick(cur, Members(T, size))
    {
      assert actions[k..][1..] == actions[k + 1..];
      new_, pre := ModifyLeaf(H, actions[k], size, T, new_, pre);
      LeafStepPicks(H, actions[k], T, cur, new_);
      cur := Apply(H, actions[k], cur);
      size := SizeAfter(actions[k], size);
    }
  }

  /** modifyProofRanges */
  method ModifyProofRanges(idx: seq<nat>, actions: seq<Action>, n: nat, ghost T: set<nat>) returns (new_: seq<nat>)
    requires ValidActions(actions, n) && T == Touched(actions, n) && idx == Members(T, n)
    ensures new_ == Members(T, FinalSize(actions, n))
  {
    new_ := idx;
    var size := n;
    for k := 0 to |actions|
      invariant ValidActions(actions[k..], size) && Touched(actions[k..], size) <= T
      invariant FinalSize(actions[k..], size) == FinalSize(actions, n)
      invariant new_ == Members(T, size)
    {
      assert actions[k..][1..] == actions[k + 1..];
      new_, size := ModifyRange(new_, actions[k], size, T);
    }
  }

  method ModifyRange(idx: seq<nat>, a: Action, n: nat, ghost T: set<nat>) returns (new_: seq<nat>, size: nat)
    requires ValidAction(a, n) && Touches(a, n) <= T && idx == Members(T, n)
    ensures size == SizeAfter(a, n) && new_ == Members(T, size)
  {
    MembersAfter(a, T, n);
    match a
    case Append(_) =>
      return idx + [n], n + 1;
    case Trim(count) =>
      return idx[..|idx| - count], n - count;
    case Swap(_, _) =>
      return idx, n;
  }

  lemma MembersAfter(a: Action, T: set<nat>, n: nat)
    requires ValidAction(a, n) && Touches(a, n) <= T
    ensures var idx, idx' := Members(T, n), Members(T, SizeAfter(a, n));
      match a
      case Append(_) => idx' == idx + [n]
      case Trim(count) => count <= |idx| && idx' == idx[..|idx| - count]
      case Swap(_, _) => idx' == idx
  {
    if a.Trim? {
      MembersPrefix(T, n - a.count, n);
      MembersRun(T, n - a.count, n);
    }
  }

  /** VerifyDiffProof */
  method VerifyDiffProof(H: HashFn, actions: seq<Action>, n: nat, trees: seq<Hash>, leaves: seq<Hash>,
    oldRoot: Hash, newRoot: Hash, appendRoots: seq<Hash>) returns (v: Verdict)
    requires ValidActions(actions, n)
    requires appendRoots == [] || appendRoots == AppendRoots(H, actions)
    ensures v == DiffVerdict(H, actions, n, trees, leaves, oldRoot, newRoot)
  {
    var idx, T := SectorsChanged(actions, n);
    if |idx| != |leaves| {
      return Reject;
    }
    MembersGaps(T, n);
    v := VerifyMulti(H, idx, n, trees, leaves, oldRoot, T);
    if v == Accept {
      v := VerifyAfter(H, actions, n, idx, T, trees, leaves, newRoot, appendRoots);
    }
  }

  /** The second half of VerifyDiffProof: the proof modified by the actions gives the new root. */
  method VerifyAfter(H: HashFn, actions: seq<Action>, n: nat, idx: seq<nat>, T: set<nat>, trees: seq<Hash>, leaves: seq<Hash>,
    newRoot: Hash, appendRoots: seq<Hash>) returns (v: Verdict)
    requires ValidActions(actions, n)
    requires T == Touched(actions, n) && idx == Members(T, n) && |idx| == |leaves|
    requires appendRoots == [] || appendRoots == AppendRoots(H, actions)
    ensures var n' := FinalSize(actions, n);
      v == MultiVerdict(H, Members(T, n'), n', trees, NewLeaves(H, actions, n, T, leaves), newRoot)
  {
    var newLeaves := ModifyLeaves(H, leaves, actions, n, T, appendRoots, Spread(H, leaves, T, n));
    assert newLeaves == NewLeaves(H, actions, n, T, leaves);
    var newIdx := ModifyProofRanges(idx, actions, n, T);
    ghost var n' := FinalSize(actions, n);
    MembersGaps(T, n');
    RankRun(actions, n, T);
    assert n + |newLeaves| - |leaves| == n';
    v := VerifyMulti(H, newIdx, n + |newLeaves| - |leaves|, trees, newLeaves, newRoot, T);
  }

  /** The number of sectors changes as the number of touched ones does. */
  lemma RankRun(actions: seq<Action>, n: nat, T: set<nat>)
    requires ValidActions(actions, n) && T == Touched(actions, n)
    ensures var n' := FinalSize(actions, n); n' - n == |Members(T, n')| - |Members(T, n)|
  {
    var n' := FinalSize(actions, n);
    RunTouched(actions, n);
    if n <= n' {
      MembersRun(T, n, n');
    } else {
      MembersRun(T, n', n);
    }
  }

  lemma {:induction false} RunTouched(actions: seq<Action>, n: nat)
    requires ValidActions(actions, n)
    ensures var n' := FinalSize(actions, n);
      forall p :: n <= p < n' || n' <= p < n ==> p in Touched(actions, n)
  {
    if |actions| > 0 {
      RunTouched(actions[1..], SizeAfter(actions[0], n));
    }
  }
}
