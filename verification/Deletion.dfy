/** Deleting sectors (renter/proto/session.go, DeleteSectors): swap the unwanted sectors to the
    end of the contract, then trim. */
module Deletion {
  import opened MerkleTree
  import opened DiffProofs

  // ---------- which sectors go ----------

  /** rootIndices: every root with its last position. */
  ghost predicate Indexes(m: map<Hash, nat>, roots: seq<Hash>) {
    && (forall r :: r in m <==> r in roots)
    && (forall r :: r in m ==> m[r] < |roots| && roots[m[r]] == r)
  }

  method RootIndices(roots: seq<Hash>) returns (m: map<Hash, nat>)
    ensures Indexes(m, roots)
  {
    m := map[];
    for i := 0 to |roots|
      invariant forall r :: r in m <==> r in roots[..i]
      invariant forall r :: r in m ==> m[r] < i && roots[m[r]] == r
    {
      assert roots[..i + 1] == roots[..i] + [roots[i]];
      m := m[roots[i] := i];
    }
    assert roots[..|roots|] == roots;
  }

  /** One position for each requested root that is present. */
  ghost predicate Chosen(bad: set<nat>, roots: seq<Hash>, requested: seq<Hash>) {
    && (forall i :: i in bad ==> i < |roots| && roots[i] in requested)
    && (forall i, j :: i in bad && j in bad && roots[i] == roots[j] ==> i == j)
    && (forall r :: r in requested && r in roots ==> exists i :: i in bad && roots[i] == r)
  }

  method BadIndices(roots: seq<Hash>, requested: seq<Hash>) returns (bad: set<nat>)
    ensures Chosen(bad, roots, requested)
  {
    var m := RootIndices(roots);
    ghost var all := m;
    bad := {};
    for k := 0 to |requested|
      invariant forall r :: r in m ==> r in all && m[r] == all[r]
      invariant forall r :: r in all && r !in m ==> r in requested[..k] && all[r] in bad
      invariant forall i :: i in bad ==> i < |roots| && roots[i] in requested[..k]
      invariant forall i :: i in bad ==> roots[i] in all && all[roots[i]] == i && roots[i] !in m
      invariant forall i :: 0 <= i < k && requested[i] in roots ==> requested[i] !in m
    {
      var r := requested[k];
      assert requested[..k + 1] == requested[..k] + [r];
      if r in m {
        bad := bad + {m[r]};
        m := m - {r};
      }
    }
    assert requested[..|requested|] == requested;
    forall r | r in requested && r in roots ensures exists i :: i in bad && roots[i] == r {
      assert r in all && r !in m;
      assert all[r] in bad && roots[all[r]] == r;
    }
  }

  // ---------- the actions ----------

  /** The members of bad below n, largest first. */
  function Descending(bad: set<nat>, n: nat): (ds: seq<nat>)
    ensures |ds| <= n
    ensures forall i :: 0 <= i < |ds| ==> ds[i] in bad && ds[i] <= n - 1 - i
    ensures forall i, j :: 0 <= i < j < |ds| ==> ds[i] > ds[j]
  {
    if n == 0 then [] else (if n - 1 in bad then [n - 1] else []) + Descending(bad, n - 1)
  }

  /** After k swaps the k largest unwanted sectors are at the end, and nothing below the last of
      them has moved. */
  ghost predicate Swapped(roots: seq<Hash>, cur: seq<Hash>, ds: seq<nat>, k: nat)
    requires k <= |ds| <= |roots| && forall i :: 0 <= i < |ds| ==> ds[i] < |roots|
  {
    && |cur| == |roots| && multiset(cur) == multiset(roots)
    && (forall j :: 0 <= j < k ==> roots[ds[j]] == cur[|roots| - 1 - j])
    && (forall p :: 0 <= p < |roots| && (k > 0 ==> p < ds[k - 1]) ==> cur[p] == roots[p])
  }

  lemma SwapMultiset(s: seq<Hash>, i: nat, j: nat)
    requires i < |s| && j < |s|
    ensures multiset(s[i := s[j]][j := s[i]]) == multiset(s)
  {
    var t := s[i := s[j]];
    assert multiset(t) == multiset(s) - multiset{s[i]} + multiset{s[j]};
    assert multiset(t[j := s[i]]) == multiset(t) - multiset{t[j]} + multiset{s[i]};
  }

  lemma SwapStep(roots: seq<Hash>, cur: seq<Hash>, ds: seq<nat>, k: nat)
    requires k < |ds| <= |roots| && IsDescending(ds, |roots|) && Swapped(roots, cur, ds, k)
    ensures var c, d := |roots| - 1 - k, ds[k];
      d <= c && Swapped(roots, cur[c := cur[d]][d := cur[c]], ds, k + 1)
  {
    var n, c, d := |roots|, |roots| - 1 - k, ds[k];
    var next := cur[c := cur[d]][d := cur[c]];
    SwapMultiset(cur, c, d);
    assert cur[d] == roots[d] by {
      assert k > 0 ==> d < ds[k - 1];
    }
    forall j | 0 <= j < k + 1 ensures roots[ds[j]] == next[n - 1 - j] {
      if j < k {
        assert n - 1 - j != c && n - 1 - j != d;
      }
    }
    forall p | 0 <= p < n && p < d ensures next[p] == roots[p] {
      assert k > 0 ==> p < ds[k - 1];
    }
  }

  ghost predicate IsDescending(ds: seq<nat>, n: nat) {
    && (forall i :: 0 <= i < |ds| ==> ds[i] <= n - 1 - i)
    && (forall i, j :: 0 <= i < j < |ds| ==> ds[i] > ds[j])
  }

  lemma {:induction false} ApplySnoc(H: HashFn, actions: seq<Action>, a: Action, roots: seq<Hash>)
    requires ValidActions(actions, |roots|) && ValidAction(a, FinalSize(actions, |roots|))
    ensures ValidActions(actions + [a], |roots|)
    ensures ApplyAll(H, actions + [a], roots) == Apply(H, a, ApplyAll(H, actions, roots))
    decreases |actions|
  {
    if |actions| == 0 {
      assert actions + [a] == [a] && [a][1..] == [];
    } else {
      assert (actions + [a])[1..] == actions[1..] + [a];
      ApplySnoc(H, actions[1..], a, Apply(H, actions[0], roots));
    }
  }

  // ---------- what is removed ----------

  /** The roots at the members of bad below n, with multiplicity. */
  ghost function Removed(roots: seq<Hash>, bad: set<nat>, n: nat): multiset<Hash>
    requires n <= |roots|
  {
    if n == 0 then multiset{} else Removed(roots, bad, n - 1) + (if n - 1 in bad then multiset{roots[n - 1]} else multiset{})
  }

  lemma {:induction false} RemovedCount(roots: seq<Hash>, bad: set<nat>, n: nat, r: Hash)
    requires n <= |roots| && forall i, j :: i in bad && j in bad && i < |roots| && j < |roots| && roots[i] == roots[j] ==> i == j
    ensures Removed(roots, bad, n)[r] == if exists i :: 0 <= i < n && i in bad && roots[i] == r then 1 else 0
    decreases n
  {
    if n > 0 {
      RemovedCount(roots, bad, n - 1, r);
    }
  }

  /** The requested roots that are present, once each. */
  ghost function Present(roots: seq<Hash>, requested: seq<Hash>): multiset<Hash> {
    multiset(set r | r in requested && r in roots)
  }

  lemma ChosenRemoved(roots: seq<Hash>, requested: seq<Hash>, bad: set<nat>)
    requires Chosen(bad, roots, requested)
    ensures Removed(roots, bad, |roots|) == Present(roots, requested)
  {
    forall r ensures Removed(roots, bad, |roots|)[r] == Present(roots, requested)[r] {
      RemovedCount(roots, bad, |roots|, r);
      if r in requested && r in roots {
        var i :| i in bad && roots[i] == r;
      }
    }
  }

  /** The end of the contract after the swaps, from the last position down. */
  lemma {:induction false} EndRemoved(roots: seq<Hash>, bad: set<nat>, n: nat, ds: seq<nat>, tail: seq<Hash>)
    requires n <= |roots| && ds == Descending(bad, n) && |tail| == |ds|
    requires forall j :: 0 <= j < |ds| ==> roots[ds[j]] == tail[|tail| - 1 - j]
    ensures multiset(tail) == Removed(roots, bad, n)
    decreases n
  {
    if n > 0 && n - 1 in bad {
      var t, ds' := tail[..|tail| - 1], ds[1..];
      assert tail == t + [tail[|tail| - 1 - 0]] && roots[ds[0]] == tail[|tail| - 1 - 0];
      forall j | 0 <= j < |ds'| ensures roots[ds'[j]] == t[|t| - 1 - j] {
        assert ds'[j] == ds[j + 1];
      }
      EndRemoved(roots, bad, n - 1, ds', t);
    } else if n > 0 {
      assert ds == Descending(bad, n - 1);
      EndRemoved(roots, bad, n - 1, ds, tail);
    }
  }

  lemma TrimRemoves(roots: seq<Hash>, cur: seq<Hash>, bad: set<nat>)
    requires var ds := Descending(bad, |roots|); Swapped(roots, cur, ds, |ds|)
    ensures var keep := |roots| - |Descending(bad, |roots|)|;
      multiset(roots) == multiset(cur[..keep]) + Removed(roots, bad, |roots|)
  {
    var ds := Descending(bad, |roots|);
    var keep := |roots| - |ds|;
    var tail := cur[keep..];
    forall j | 0 <= j < |ds| ensures roots[ds[j]] == tail[|tail| - 1 - j] {
      assert tail[|tail| - 1 - j] == cur[|roots| - 1 - j];
    }
    EndRemoved(roots, bad, |roots|, ds, tail);
    assert cur == cur[..keep] + tail;
  }

  /** after is before without one occurrence of each requested root it has. */
  ghost predicate Deleted(before: seq<Hash>, after: seq<Hash>, requested: seq<Hash>) {
    multiset(before) == multiset(after) + Present(before, requested)
  }

  /** Root by root: one fewer of each requested root that was there, and as many of the others. */
  lemma DeletedExactly(before: seq<Hash>, after: seq<Hash>, requested: seq<Hash>)
    ensures Deleted(before, after, requested) <==>
      forall h :: multiset(before)[h] == multiset(after)[h] + if h in before && h in requested then 1 else 0
  {
    if forall h :: multiset(before)[h] == multiset(after)[h] + if h in before && h in requested then 1 else 0 {
      forall h ensures multiset(before)[h] == (multiset(after) + Present(before, requested))[h] {
      }
      assert multiset(before) == multiset(after) + Present(before, requested);
    }
  }

  /** The actions so far have made roots into cur. */
  ghost predicate Makes(H: HashFn, actions: seq<Action>, roots: seq<Hash>, cur: seq<Hash>) {
    ValidActions(actions, |roots|) && ApplyAll(H, actions, roots) == cur
  }

  lemma MakesNext(H: HashFn, actions: seq<Action>, a: Action, roots: seq<Hash>, cur: seq<Hash>)
    requires Makes(H, actions, roots, cur) && ValidAction(a, |cur|)
    ensures Makes(H, actions + [a], roots, Apply(H, a, cur))
  {
    ApplySnoc(H, actions, a, roots);
  }

  lemma TrimDeletes(H: HashFn, actions: seq<Action>, roots: seq<Hash>, cur: seq<Hash>, bad: set<nat>, requested: seq<Hash>)
    requires Makes(H, actions, roots, cur) && Chosen(bad, roots, requested)
    requires var ds := Descending(bad, |roots|); Swapped(roots, cur, ds, |ds|)
    ensures var all := actions + [Trim(|Descending(bad, |roots|)|)];
      ValidActions(all, |roots|) && Deleted(roots, ApplyAll(H, all, roots), requested)
  {
    var trim := Trim(|Descending(bad, |roots|)|);
    MakesNext(H, actions, trim, roots, cur);
    TrimRemoves(roots, cur, bad);
    ChosenRemoved(roots, requested, bad);
  }

  /** DeleteSectors' actions for a contract with the given roots: always valid, and what they
      remove is one occurrence of each requested root that is present. */
  method DeleteActions(H: HashFn, roots: seq<Hash>, requested: seq<Hash>) returns (actions: seq<Action>)
    ensures ValidActions(actions, |roots|) && Deleted(roots, ApplyAll(H, actions, roots), requested) && actions != []
  {
    var bad := BadIndices(roots, requested);
    var ds := Descending(bad, |roots|);
    actions := [];
    var cIndex := |roots| - 1;
    ghost var cur := roots;
    for k := 0 to |ds|
      invariant cIndex == |roots| - 1 - k
      invariant Makes(H, actions, roots, cur) && Swapped(roots, cur, ds, k)
    {
      SwapStep(roots, cur, ds, k);
      if cIndex != ds[k] {
        MakesNext(H, actions, Swap(cIndex, ds[k]), roots, cur);
        actions := actions + [Swap(cIndex, ds[k])];
      }
      cur := cur[cIndex := cur[ds[k]]][ds[k] := cur[cIndex]];
      cIndex := cIndex - 1;
    }
    TrimDeletes(H, actions, roots, cur, bad, requested);
    actions := actions + [Trim(|ds|)];
  }

  lemma DeleteShrinks(H: HashFn, actions: seq<Action>, roots: seq<Hash>, requested: seq<Hash>)
    requires ValidActions(actions, |roots|) && Deleted(roots, ApplyAll(H, actions, roots), requested)
    ensures FinalSize(actions, |roots|) <= |roots|
  {
    assert |multiset(roots)| == |roots| && |multiset(ApplyAll(H, actions, roots))| == FinalSize(actions, |roots|);
  }
}
